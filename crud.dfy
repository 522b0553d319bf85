/**
 * The API's data operations: the two writes, each of which invalidates the cached
 * aggregate, the filtered and ordered measurement listing, and the read-through
 * cached "latest reading per patient" aggregate.
 */
module Crud {
  import opened Wrappers
  import opened JsonValue
  import opened Models
  import opened Schemas
  import opened BpAggregate
  import opened RedisCache

  /** The cache key the aggregate is read from and written to. */
  const StatsKey: string := "last_bp_by_patient"

  /** Seconds an aggregate stays in the cache. */
  const StatsTtl: int := 300

  /** The key the writes' invalidation deletes is the key the aggregate is cached under. */
  lemma InvalidationTargetsStatsKey()
    ensures InvalidatedKey == StatsKey
  {
  }

  /** A failure of the store's query (connection lost, malformed result, ...). */
  datatype DbError = DbError(message: string)

  // ---------------------------------------------------------------------------
  // Writes

  /** `create_patient`: inserts the patient, then deletes the cached aggregate. */
  method CreatePatient(db: Database, redis: Redis, patient: PatientCreate) returns (row: Patient)
    requires db.Valid()
    modifies db, redis
    ensures db.Valid()
    ensures row.name == patient.name && row.dob == patient.dob && row.gender == patient.gender
    ensures row.id == old(db.nextPatientId)
    ensures forall q :: q in old(db.patients) ==> q.id != row.id
    ensures db.patients == old(db.patients) + [row]
    ensures db.measurements == old(db.measurements)
    ensures redis.entries == old(redis.entries) - {StatsKey} && redis.clock == old(redis.clock)
    ensures redis.Lookup(StatsKey) == None
  {
    row := db.InsertPatient(patient.name, patient.dob, patient.gender);
    redis.InvalidateStats(db);
  }

  /**
   * `add_measurement`: inserts the reading for `patientId`, then deletes the cached
   * aggregate. A body without a timestamp gets the insertion time `now`. The patient
   * key is not checked, so a reading for an unknown patient is stored and never joins.
   */
  method AddMeasurement(db: Database, redis: Redis, patientId: int, meas: MeasurementCreate, now: int)
    returns (row: Measurement)
    requires db.Valid()
    modifies db, redis
    ensures db.Valid()
    ensures row.patientId == patientId
    ensures row.timestamp == (if meas.timestamp.Some? then meas.timestamp.value else now)
    ensures row.systolic == meas.systolic && row.diastolic == meas.diastolic
    ensures row.heartRate == meas.heartRate
    ensures row.id == old(db.nextMeasurementId)
    ensures forall q :: q in old(db.measurements) ==> q.id != row.id
    ensures db.measurements == old(db.measurements) + [row]
    ensures db.patients == old(db.patients)
    ensures redis.entries == old(redis.entries) - {StatsKey} && redis.clock == old(redis.clock)
    ensures redis.Lookup(StatsKey) == None
  {
    row := db.InsertMeasurement(patientId, meas.timestamp.GetOr(now), meas.systolic, meas.diastolic,
                                meas.heartRate);
    redis.InvalidateStats(db);
  }

  // ---------------------------------------------------------------------------
  // Measurement listing

  /** A truthy patient filter: `None` and `0` both mean "every patient". */
  predicate Filters(patientId: Option<int>)
  {
    patientId.Some? && patientId.value != 0
  }

  function OfPatient(ms: seq<Measurement>, id: int): seq<Measurement>
  {
    if ms == [] then []
    else (if ms[0].patientId == id then [ms[0]] else []) + OfPatient(ms[1..], id)
  }

  ghost predicate SortedAsc(ms: seq<Measurement>)
  {
    forall i, j :: 0 <= i < j < |ms| ==> ms[i].timestamp <= ms[j].timestamp
  }

  /** Places `m` into an ascending sequence, after every reading that is not later than it. */
  function InsertByTimestamp(m: Measurement, sorted: seq<Measurement>): seq<Measurement>
  {
    if sorted == [] then [m]
    else if m.timestamp < sorted[0].timestamp then [m] + sorted
    else [sorted[0]] + InsertByTimestamp(m, sorted[1..])
  }

  function SortByTimestamp(ms: seq<Measurement>): seq<Measurement>
  {
    if ms == [] then [] else InsertByTimestamp(ms[0], SortByTimestamp(ms[1..]))
  }

  lemma {:induction false} OfPatientCount(ms: seq<Measurement>, id: int, m: Measurement)
    ensures multiset(OfPatient(ms, id))[m] == if m.patientId == id then multiset(ms)[m] else 0
  {
    if ms != [] {
      OfPatientCount(ms[1..], id, m);
      assert ms == [ms[0]] + ms[1..];
    }
  }

  /** Every element of the result of an insertion is one of the inputs, so lower bounds carry over. */
  lemma {:induction false} InsertByTimestampBound(m: Measurement, sorted: seq<Measurement>, t: int)
    requires t <= m.timestamp && forall x :: x in sorted ==> t <= x.timestamp
    ensures forall x :: x in InsertByTimestamp(m, sorted) ==> t <= x.timestamp
  {
    if sorted != [] && m.timestamp >= sorted[0].timestamp {
      assert forall x :: x in sorted[1..] ==> x in sorted;
      InsertByTimestampBound(m, sorted[1..], t);
    }
  }

  lemma {:induction false} InsertByTimestampSorted(m: Measurement, sorted: seq<Measurement>)
    requires SortedAsc(sorted)
    ensures SortedAsc(InsertByTimestamp(m, sorted))
  {
    if sorted != [] && m.timestamp >= sorted[0].timestamp {
      var rest := InsertByTimestamp(m, sorted[1..]);
      InsertByTimestampSorted(m, sorted[1..]);
      forall x | x in sorted[1..] ensures sorted[0].timestamp <= x.timestamp {
        var k :| 0 <= k < |sorted[1..]| && sorted[1..][k] == x;
        assert sorted[k + 1] == x;
      }
      InsertByTimestampBound(m, sorted[1..], sorted[0].timestamp);
      forall i | 0 < i <= |rest| ensures sorted[0].timestamp <= ([sorted[0]] + rest)[i].timestamp {
        assert rest[i - 1] in rest;
      }
    }
  }

  lemma {:induction false} InsertByTimestampPermutes(m: Measurement, sorted: seq<Measurement>)
    ensures multiset(InsertByTimestamp(m, sorted)) == multiset(sorted) + multiset{m}
  {
    if sorted != [] && m.timestamp >= sorted[0].timestamp {
      InsertByTimestampPermutes(m, sorted[1..]);
      assert sorted == [sorted[0]] + sorted[1..];
    }
  }

  lemma {:induction false} SortByTimestampCorrect(ms: seq<Measurement>)
    ensures SortedAsc(SortByTimestamp(ms))
    ensures multiset(SortByTimestamp(ms)) == multiset(ms)
  {
    if ms != [] {
      SortByTimestampCorrect(ms[1..]);
      InsertByTimestampSorted(ms[0], SortByTimestamp(ms[1..]));
      InsertByTimestampPermutes(ms[0], SortByTimestamp(ms[1..]));
      assert ms == [ms[0]] + ms[1..];
    }
  }

  /**
   * `get_measurements`: the readings, restricted to one patient when the filter is
   * truthy, ordered oldest first. Readings with equal timestamps may come in any order;
   * this definition keeps one admissible order, and the contract fixes none.
   */
  function GetMeasurements(ms: seq<Measurement>, patientId: Option<int>): (r: seq<Measurement>)
    ensures SortedAsc(r)
    ensures forall m :: m in r && Filters(patientId) ==> m.patientId == patientId.value
    ensures forall m :: multiset(r)[m] == (if Filters(patientId) && m.patientId != patientId.value then 0 else multiset(ms)[m])
  {
    var selected := if Filters(patientId) then OfPatient(ms, patientId.value) else ms;
    SortByTimestampCorrect(selected);
    forall m ensures multiset(selected)[m] ==
      (if Filters(patientId) && m.patientId != patientId.value then 0 else multiset(ms)[m])
    {
      if Filters(patientId) {
        OfPatientCount(ms, patientId.value, m);
      }
    }
    SortByTimestamp(selected)
  }

  // ---------------------------------------------------------------------------
  // Cached aggregate

  function RowToJson(r: BpRow): Json
  {
    JObject([("name", JStr(r.name)), ("systolic", JInt(r.systolic)),
             ("diastolic", JInt(r.diastolic)), ("timestamp", JInt(r.timestamp))])
  }

  function RowsToItems(rows: seq<BpRow>): seq<Json>
  {
    if rows == [] then [] else [RowToJson(rows[0])] + RowsToItems(rows[1..])
  }

  /** The aggregate as the JSON list of objects that is returned and cached. */
  function RowsToJson(rows: seq<BpRow>): Json
  {
    JList(RowsToItems(rows))
  }

  /** The value of the first field called `key`, if any. */
  function Field(fields: seq<(string, Json)>, key: string): Option<Json>
  {
    if fields == [] then None
    else if fields[0].0 == key then Some(fields[0].1)
    else Field(fields[1..], key)
  }

  function RowFromJson(j: Json): Option<BpRow>
  {
    if !j.JObject? then None
    else
      match (Field(j.fields, "name"), Field(j.fields, "systolic"),
             Field(j.fields, "diastolic"), Field(j.fields, "timestamp"))
      case (Some(JStr(n)), Some(JInt(s)), Some(JInt(d)), Some(JInt(t))) => Some(BpRow(n, s, d, t))
      case _ => None
  }

  function ItemsToRows(items: seq<Json>): Option<seq<BpRow>>
  {
    if items == [] then Some([])
    else
      match (RowFromJson(items[0]), ItemsToRows(items[1..]))
      case (Some(r), Some(rest)) => Some([r] + rest)
      case _ => None
  }

  /** Reads a cached payload back as aggregate rows. */
  function RowsFromJson(j: Json): Option<seq<BpRow>>
  {
    if j.JList? then ItemsToRows(j.items) else None
  }

  lemma RowFields(r: BpRow)
    ensures Field(RowToJson(r).fields, "name") == Some(JStr(r.name))
    ensures Field(RowToJson(r).fields, "systolic") == Some(JInt(r.systolic))
    ensures Field(RowToJson(r).fields, "diastolic") == Some(JInt(r.diastolic))
    ensures Field(RowToJson(r).fields, "timestamp") == Some(JInt(r.timestamp))
  {
    var fs := RowToJson(r).fields;
    assert fs[1..] == [("systolic", JInt(r.systolic)), ("diastolic", JInt(r.diastolic)),
                       ("timestamp", JInt(r.timestamp))];
    assert fs[1..][1..] == [("diastolic", JInt(r.diastolic)), ("timestamp", JInt(r.timestamp))];
    assert fs[1..][1..][1..] == [("timestamp", JInt(r.timestamp))];
    assert Field(fs, "diastolic") == Field(fs[1..], "diastolic") == Field(fs[1..][1..], "diastolic");
    assert Field(fs, "timestamp") == Field(fs[1..], "timestamp") == Field(fs[1..][1..], "timestamp")
      == Field(fs[1..][1..][1..], "timestamp");
  }

  /** The cached payload gives back every row, with all its fields, in the same order. */
  lemma {:induction false} RowsJsonRoundTrip(rows: seq<BpRow>)
    ensures RowsFromJson(RowsToJson(rows)) == Some(rows)
  {
    if rows != [] {
      RowFields(rows[0]);
      assert RowFromJson(RowToJson(rows[0])) == Some(rows[0]);
      RowsJsonRoundTrip(rows[1..]);
      assert rows == [rows[0]] + rows[1..];
    }
  }

  /** A computed aggregate is a miss-looking (falsy) value exactly when it has no rows. */
  lemma RowsJsonTruthy(rows: seq<BpRow>)
    ensures Truthy(RowsToJson(rows)) <==> rows != []
  {
    if rows != [] {
      assert RowsToItems(rows) != [];
    }
  }

  /**
   * The loop of `last_bp_per_patient`: keeps a row when its name has not been seen,
   * then marks the name as seen.
   */
  method KeepFirstPerName(rows: seq<BpRow>) returns (result: seq<BpRow>)
    ensures result == FirstPerName(rows)
  {
    var seen: set<string> := {};
    result := [];
    for i := 0 to |rows|
      invariant seen == Names(rows[..i])
      invariant result == FirstPerName(rows[..i])
    {
      var r := rows[i];
      assert rows[..i + 1][..i] == rows[..i];
      NamesSnoc(rows[..i], r);
      assert rows[..i + 1] == rows[..i] + [r];
      if r.name !in seen {
        result := result + [r];
        seen := seen + {r.name};
      }
    }
    assert rows[..|rows|] == rows;
  }

  /**
   * `last_bp_per_patient`. A live, truthy cached value is returned as it is and the
   * scan result is not looked at. Otherwise (absent, expired or an empty list) a failed
   * scan is propagated and nothing is cached; a successful one is reduced to the first
   * row per name, cached under `StatsKey` for `StatsTtl`, and returned.
   */
  method LastBpPerPatient(db: Database, redis: Redis, scan: Result<seq<BpRow>, DbError>)
    returns (r: Result<Json, DbError>)
    requires scan.Success? ==> IsLatestFirstScan(db.patients, db.measurements, scan.value)
    modifies redis
    ensures redis.clock == old(redis.clock)
    ensures old(redis.Lookup(StatsKey)).Some? && Truthy(old(redis.Lookup(StatsKey)).value) ==>
      r == Success(old(redis.Lookup(StatsKey)).value) && redis.entries == old(redis.entries)
    ensures !(old(redis.Lookup(StatsKey)).Some? && Truthy(old(redis.Lookup(StatsKey)).value)) ==>
      match scan
      case Failure(e) => r == Failure(e) && redis.entries == old(redis.entries)
      case Success(rows) =>
        && r == Success(RowsToJson(FirstPerName(rows)))
        && redis.entries == old(redis.entries)[StatsKey := Entry(r.value, old(redis.clock) + StatsTtl)]
  {
    var cached := redis.GetJson(StatsKey);
    if cached.Some? && Truthy(cached.value) {
      return Success(cached.value);
    }
    if scan.Failure? {
      return Failure(scan.error);
    }
    var result := KeepFirstPerName(scan.value);
    var payload := RowsToJson(result);
    var _ := redis.SetJson(StatsKey, payload, StatsTtl);
    r := Success(payload);
  }

  /**
   * Two reads with no time passing and no write in between: the second is served from
   * the cache (its scan result is ignored) when the first cached a non-empty aggregate,
   * and either way both answers agree when both scans agree.
   */
  method ServeTwice(db: Database, redis: Redis, scan1: Result<seq<BpRow>, DbError>,
                    scan2: Result<seq<BpRow>, DbError>)
    returns (r1: Result<Json, DbError>, r2: Result<Json, DbError>)
    requires scan1.Success? ==> IsLatestFirstScan(db.patients, db.measurements, scan1.value)
    requires scan2.Success? ==> IsLatestFirstScan(db.patients, db.measurements, scan2.value)
    modifies redis
    ensures r1.Success? && Truthy(r1.value) ==> r2 == r1
    ensures scan1 == scan2 ==> r2 == r1
  {
    r1 := LastBpPerPatient(db, redis, scan1);
    r2 := LastBpPerPatient(db, redis, scan2);
  }

  /**
   * A write followed by a read: whatever was cached before, the read recomputes from
   * its scan of the updated store.
   */
  method ReadAfterWrite(db: Database, redis: Redis, patientId: int, meas: MeasurementCreate, now: int,
                        scan: Result<seq<BpRow>, DbError>)
    returns (r: Result<Json, DbError>)
    requires db.Valid()
    requires scan.Success? ==>
      IsLatestFirstScan(db.patients, db.measurements + [Measurement(db.nextMeasurementId, patientId,
        meas.timestamp.GetOr(now), meas.systolic, meas.diastolic, meas.heartRate)], scan.value)
    modifies db, redis
    ensures r == match scan
      case Failure(e) => Failure(e)
      case Success(rows) => Success(RowsToJson(FirstPerName(rows)))
  {
    var row := AddMeasurement(db, redis, patientId, meas, now);
    r := LastBpPerPatient(db, redis, scan);
  }
}
