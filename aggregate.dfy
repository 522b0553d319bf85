/**
 * The "latest reading per patient" aggregate: the rows of the patient/measurement
 * inner join, and the first-row-per-name pass over them.
 * Rows are keyed on the patient's NAME, so two patients who share a name yield one row.
 */
module BpAggregate {
  import opened Models

  /** One row of the join: the patient's name and the reading's fields. */
  datatype BpRow = BpRow(name: string, systolic: int, diastolic: int, timestamp: int)

  function Joined(p: Patient, m: Measurement): BpRow
  {
    BpRow(p.name, m.systolic, m.diastolic, m.timestamp)
  }

  /** The join rows of one measurement: one per patient whose key it references. */
  function RowsFor(ps: seq<Patient>, m: Measurement): seq<BpRow>
  {
    if ps == [] then []
    else (if ps[0].id == m.patientId then [Joined(ps[0], m)] else []) + RowsFor(ps[1..], m)
  }

  /** The inner join of patients and measurements, as a bag of rows (its order is irrelevant). */
  function Join(ps: seq<Patient>, ms: seq<Measurement>): seq<BpRow>
  {
    if ms == [] then [] else RowsFor(ps, ms[0]) + Join(ps, ms[1..])
  }

  /** Names of the patients that have at least one measurement. */
  ghost function JoinedNames(ps: seq<Patient>, ms: seq<Measurement>): set<string>
  {
    set p | p in ps && (exists m :: m in ms && m.patientId == p.id) :: p.name
  }

  ghost predicate SortedDesc(rows: seq<BpRow>)
  {
    forall i, j :: 0 <= i < j < |rows| ==> rows[i].timestamp >= rows[j].timestamp
  }

  /**
   * What the store's query may return: every join row exactly once, newest first.
   * Rows with equal timestamps may come in any order.
   */
  ghost predicate IsLatestFirstScan(ps: seq<Patient>, ms: seq<Measurement>, rows: seq<BpRow>)
  {
    multiset(rows) == multiset(Join(ps, ms)) && SortedDesc(rows)
  }

  function Names(rows: seq<BpRow>): set<string>
  {
    set r | r in rows :: r.name
  }

  predicate DistinctNames(rows: seq<BpRow>)
  {
    forall i, j :: 0 <= i < j < |rows| ==> rows[i].name != rows[j].name
  }

  /** Row `i` is the first row carrying its name. */
  predicate IsFirstOf(rows: seq<BpRow>, i: int)
    requires 0 <= i < |rows|
  {
    forall k :: 0 <= k < i ==> rows[k].name != rows[i].name
  }

  /** The rows kept by one pass that skips every row whose name was already seen. */
  function FirstPerName(rows: seq<BpRow>): seq<BpRow>
  {
    if rows == [] then []
    else
      var prefix, last := rows[..|rows| - 1], rows[|rows| - 1];
      FirstPerName(prefix) + (if last.name in Names(prefix) then [] else [last])
  }

  /** The input positions of the rows `FirstPerName` keeps. */
  ghost function FirstPositions(rows: seq<BpRow>): seq<int>
  {
    if rows == [] then []
    else
      var prefix, last := rows[..|rows| - 1], rows[|rows| - 1];
      FirstPositions(prefix) + (if last.name in Names(prefix) then [] else [|prefix|])
  }

  /** `pos` lists strictly increasing positions of `rows` at which the elements of `sub` stand. */
  ghost predicate Embeds(pos: seq<int>, sub: seq<BpRow>, rows: seq<BpRow>)
  {
    && |pos| == |sub|
    && (forall k :: 0 <= k < |pos| ==> 0 <= pos[k] < |rows| && sub[k] == rows[pos[k]])
    && (forall k, l :: 0 <= k < l < |pos| ==> pos[k] < pos[l])
  }

  ghost predicate IsSubsequence(sub: seq<BpRow>, rows: seq<BpRow>)
  {
    exists pos :: Embeds(pos, sub, rows)
  }

  lemma NamesSnoc(prefix: seq<BpRow>, last: BpRow)
    ensures Names(prefix + [last]) == Names(prefix) + {last.name}
  {
  }

  /** The kept rows carry exactly the names of the input: every name gets a row. */
  lemma {:induction false} FirstPerNameNames(rows: seq<BpRow>)
    ensures Names(FirstPerName(rows)) == Names(rows)
  {
    if rows != [] {
      var prefix, last := rows[..|rows| - 1], rows[|rows| - 1];
      assert rows == prefix + [last];
      FirstPerNameNames(prefix);
      NamesSnoc(prefix, last);
      if last.name !in Names(prefix) {
        NamesSnoc(FirstPerName(prefix), last);
      }
    }
  }

  /** No name is kept twice. */
  lemma {:induction false} FirstPerNameDistinct(rows: seq<BpRow>)
    ensures DistinctNames(FirstPerName(rows))
  {
    if rows != [] {
      var prefix, last := rows[..|rows| - 1], rows[|rows| - 1];
      var kept := FirstPerName(prefix);
      FirstPerNameDistinct(prefix);
      FirstPerNameNames(prefix);
      if last.name !in Names(prefix) {
        forall i | 0 <= i < |kept| ensures kept[i].name != last.name {
          assert kept[i] in kept;
        }
      }
    }
  }

  /** One row per distinct name: the result is exactly as long as the set of names. */
  lemma {:induction false} FirstPerNameLength(rows: seq<BpRow>)
    ensures |FirstPerName(rows)| == |Names(rows)|
  {
    if rows != [] {
      var prefix, last := rows[..|rows| - 1], rows[|rows| - 1];
      assert rows == prefix + [last];
      FirstPerNameLength(prefix);
      NamesSnoc(prefix, last);
      if last.name !in Names(prefix) {
        assert |Names(prefix) + {last.name}| == |Names(prefix)| + 1;
      } else {
        assert Names(prefix) + {last.name} == Names(prefix);
      }
    }
  }

  /** The kept rows are the input rows at increasing positions, each the first of its name. */
  lemma {:induction false} FirstPerNameEmbeds(rows: seq<BpRow>)
    ensures Embeds(FirstPositions(rows), FirstPerName(rows), rows)
    ensures forall k :: 0 <= k < |FirstPositions(rows)| ==> IsFirstOf(rows, FirstPositions(rows)[k])
  {
    if rows != [] {
      var prefix, last := rows[..|rows| - 1], rows[|rows| - 1];
      var pos, kept := FirstPositions(prefix), FirstPerName(prefix);
      FirstPerNameEmbeds(prefix);
      assert forall k :: 0 <= k < |pos| ==> rows[pos[k]] == prefix[pos[k]];
      if last.name !in Names(prefix) {
        forall k | 0 <= k < |prefix| ensures rows[k].name != last.name {
          assert prefix[k] in prefix;
        }
      }
    }
  }

  /** The result is a subsequence of the input: order is preserved. */
  lemma FirstPerNameIsSubsequence(rows: seq<BpRow>)
    ensures IsSubsequence(FirstPerName(rows), rows)
  {
    FirstPerNameEmbeds(rows);
  }

  /** The first row of each name is kept, and it is the only kept row with that name. */
  lemma {:induction false} FirstPerNameKeepsFirst(rows: seq<BpRow>, i: int)
    requires 0 <= i < |rows| && IsFirstOf(rows, i)
    ensures rows[i] in FirstPerName(rows)
    ensures forall r :: r in FirstPerName(rows) && r.name == rows[i].name ==> r == rows[i]
  {
    var prefix, last := rows[..|rows| - 1], rows[|rows| - 1];
    if i < |prefix| {
      assert prefix[i] == rows[i];
      FirstPerNameKeepsFirst(prefix, i);
    }
    var kept := FirstPerName(rows);
    FirstPerNameDistinct(rows);
    forall r | r in kept && r.name == rows[i].name ensures r == rows[i] {
      var a :| 0 <= a < |kept| && kept[a] == r;
      var b :| 0 <= b < |kept| && kept[b] == rows[i];
      assert a == b;
    }
  }

  /** A newest-first input gives a newest-first result. */
  lemma FirstPerNameSortedDesc(rows: seq<BpRow>)
    requires SortedDesc(rows)
    ensures SortedDesc(FirstPerName(rows))
  {
    FirstPerNameEmbeds(rows);
  }

  lemma {:induction false} RowsForMembership(ps: seq<Patient>, m: Measurement, r: BpRow)
    ensures r in RowsFor(ps, m) <==> exists p :: p in ps && p.id == m.patientId && r == Joined(p, m)
  {
    if ps != [] {
      RowsForMembership(ps[1..], m, r);
      if exists p :: p in ps && p.id == m.patientId && r == Joined(p, m) {
        var p :| p in ps && p.id == m.patientId && r == Joined(p, m);
        if p != ps[0] {
          assert p in ps[1..];
        }
      }
      if r in RowsFor(ps[1..], m) {
        var p :| p in ps[1..] && p.id == m.patientId && r == Joined(p, m);
        assert p in ps;
      }
    }
  }

  /** The join holds exactly the rows of (patient, measurement) pairs whose keys match. */
  lemma {:induction false} JoinMembership(ps: seq<Patient>, ms: seq<Measurement>, r: BpRow)
    ensures r in Join(ps, ms) <==>
      exists p, m :: p in ps && m in ms && p.id == m.patientId && r == Joined(p, m)
  {
    if ms != [] {
      JoinMembership(ps, ms[1..], r);
      RowsForMembership(ps, ms[0], r);
      if exists p, m :: p in ps && m in ms && p.id == m.patientId && r == Joined(p, m) {
        var p, m :| p in ps && m in ms && p.id == m.patientId && r == Joined(p, m);
        if m != ms[0] {
          assert m in ms[1..];
        }
      }
      if r in Join(ps, ms[1..]) {
        var p, m :| p in ps && m in ms[1..] && p.id == m.patientId && r == Joined(p, m);
        assert m in ms;
      }
    }
  }

  /**
   * Latest wins: over a newest-first scan of the store, every kept row is a join row,
   * and no join row with the same name is newer.
   */
  lemma LatestReadingWins(ps: seq<Patient>, ms: seq<Measurement>, rows: seq<BpRow>)
    requires IsLatestFirstScan(ps, ms, rows)
    ensures forall r :: r in FirstPerName(rows) ==> r in Join(ps, ms)
    ensures forall r, j :: r in FirstPerName(rows) && j in Join(ps, ms) && j.name == r.name ==>
      j.timestamp <= r.timestamp
  {
    var kept, pos := FirstPerName(rows), FirstPositions(rows);
    FirstPerNameEmbeds(rows);
    forall r | r in kept ensures r in Join(ps, ms) {
      var a :| 0 <= a < |kept| && kept[a] == r;
      assert rows[pos[a]] in multiset(rows);
    }
    forall r, j | r in kept && j in Join(ps, ms) && j.name == r.name ensures j.timestamp <= r.timestamp {
      var a :| 0 <= a < |kept| && kept[a] == r;
      assert j in multiset(rows);
      var b :| 0 <= b < |rows| && rows[b] == j;
      assert IsFirstOf(rows, pos[a]);
      assert pos[a] <= b;
    }
  }

  /**
   * Coverage: the kept rows name exactly the patients with at least one measurement;
   * a patient with no measurement has no row. There is one row per distinct name, so
   * patients who share a name share a row.
   */
  lemma Coverage(ps: seq<Patient>, ms: seq<Measurement>, rows: seq<BpRow>)
    requires IsLatestFirstScan(ps, ms, rows)
    ensures Names(FirstPerName(rows)) == JoinedNames(ps, ms)
    ensures |FirstPerName(rows)| == |JoinedNames(ps, ms)|
  {
    FirstPerNameNames(rows);
    FirstPerNameLength(rows);
    var join := Join(ps, ms);
    forall n | n in Names(rows) ensures n in JoinedNames(ps, ms) {
      var r :| r in rows && r.name == n;
      assert r in multiset(join);
      JoinMembership(ps, ms, r);
      var p, m :| p in ps && m in ms && p.id == m.patientId && r == Joined(p, m);
    }
    forall n | n in JoinedNames(ps, ms) ensures n in Names(rows) {
      var p :| p in ps && (exists m :: m in ms && m.patientId == p.id) && p.name == n;
      var m :| m in ms && m.patientId == p.id;
      JoinMembership(ps, ms, Joined(p, m));
      assert Joined(p, m) in multiset(rows);
    }
  }
}
