# Blood-pressure tracker: cached latest reading per patient

A Dafny model of the data layer of a small blood-pressure tracking API. Patients and
their time-stamped readings live in a relational store. The API serves an aggregate
that holds the latest reading for each patient. The aggregate goes through a
read-through cache in Redis with a 300-second TTL. Every write deletes the cached
aggregate.

The model has seven modules:

- `Wrappers` holds `Option` and `Result`.
- `JsonValue` holds a decoded JSON document and Python's truthiness test on it.
- `Models` holds the patient and measurement rows. It also holds the `Database` class: two
  tables in insertion order, and the next free primary keys.
- `Schemas` holds request validation: required and optional fields, and the inclusive
  integer ranges on readings.
- `RedisCache` holds the `Redis` class, a map from key to (payload, expiry) with an
  explicit integer clock, and the three JSON helpers `GetJson`, `SetJson` and
  `InvalidateStats`.
- `BpAggregate` holds the inner join of patients and measurements, the first-row-per-name
  pass (`FirstPerName`), and what is proved about them.
- `Crud` holds the writes with their invalidation, the measurement listing, the loop that
  builds the aggregate, and the cached read `LastBpPerPatient`.

The aggregate's rows are keyed on the patient's name, as in the code. Two patients who
share a name collapse to one row, the newest of all their readings.

The store's query (`ORDER BY timestamp DESC` over the join) is an input of
`LastBpPerPatient`. `IsLatestFirstScan` says what the store may return: every join row
exactly once, newest first. It fixes no order among equal timestamps. The measurement
listing is handled the same way: its contract promises ascending order and the right
rows, but no tie-break.

Three behaviours of the code are kept as written:

- Deduplication is by name, not by patient identity.
- No secondary tie-break key is added for equal timestamps.
- Redis errors are not handled. They propagate as exceptions and there is no fallback
  to the store, so the model has no cache-failure path.

## Model

| member | source | states |
|---|---|---|
| `Schemas.Required` | api/schemas.py:26-27 | A required field has no error iff it is given a value. An omitted field gives `Missing` ("field required") and a null gives `NotNull` ("none is not an allowed value"). |
| `Schemas.Present` | api/schemas.py:9 | An optional field is `Some` of its value iff it is given one. Omitted and null both give the default `None`. |
| `Schemas.RequiredInt` | api/schemas.py:7-8 | A required integer field has no error iff it is given a value within its inclusive range. Otherwise the error is exactly `Missing` (omitted), `NotNull` (null) or `OutOfRange` (out of range). |
| `Schemas.OptionalInt` | api/schemas.py:9 | An optional integer field has no error iff it is omitted, null, or within its inclusive range. A present value outside the range gives `OutOfRange`. |
| `Schemas.ValidateMeasurementCreate` | api/schemas.py:6-13 | Accepted iff systolic is given with 60 ≤ systolic ≤ 260, diastolic is given with 30 ≤ diastolic ≤ 180, and heart_rate is not given or 30 ≤ heart_rate ≤ 220. The accepted value copies the fields. Heart rate and timestamp stay optional, and are `None` when omitted or null. A rejection has at least one error. It lists `Missing` for exactly the omitted required fields and `NotNull` for exactly the null ones. |
| `Schemas.ValidatePatientCreate` | api/schemas.py:25-32 | Accepted iff name and dob are both given values. Gender passes through, and is `None` when omitted or null. A rejection lists `Missing` for exactly the omitted required fields and `NotNull` for exactly the null ones. |
| `Models.Database.InsertPatient` | api/crud.py:11-14 | Appends one patient row with the given fields and a key that no existing patient has. Measurements are unchanged. |
| `Models.Database.InsertMeasurement` | api/crud.py:22-26 | Appends one measurement row with the given fields and a key that no existing measurement has. The patient key is not checked. Patients are unchanged. |
| `RedisCache.GetAfterSet` | api/cache.py:12-18 | A value written with a positive TTL reads back unchanged at every instant before the TTL elapses. |
| `RedisCache.ExpiredAfterTtl` | api/cache.py:13-18 | Once the TTL has elapsed, the key reads as absent without any delete. |
| `RedisCache.OtherKeysUnaffected` | api/cache.py:17-22 | Writing or deleting one key leaves what every other key reads unchanged. |
| `RedisCache.Redis.GetJson` | api/cache.py:12-14 | Returns the stored payload iff the key is present and not yet expired. Otherwise it returns `None`. |
| `RedisCache.Redis.SetJson` | api/cache.py:17-18 | Overwrites any entry under the key and resets its expiry to now + ttl. A ttl that is not positive is refused and nothing changes. |
| `RedisCache.Redis.ReadAfterWait` | api/cache.py:12-18 | A write with a positive TTL, a wait of `dt`, then a read: the read returns the written payload iff `dt` is below the TTL, and `None` once the TTL has elapsed. |
| `RedisCache.Redis.InvalidateStats` | api/cache.py:21-22 | Deletes `"last_bp_by_patient"` and nothing else. It is a no-op when the key is absent. The database handle is ignored, and only the cache may change. |
| `Crud.InvalidationTargetsStatsKey` | api/cache.py:22 | The key that invalidation deletes is the same constant that the aggregate read reads and writes (api/crud.py:40). |
| `BpAggregate.FirstPerNameNames` | api/crud.py:52-62 | The kept rows carry exactly the names of the scanned rows, so every scanned name gets a row. |
| `BpAggregate.FirstPerNameDistinct` | api/crud.py:52-62 | No name appears twice in the result. |
| `BpAggregate.FirstPerNameLength` | api/crud.py:52-62 | The result has exactly as many rows as there are distinct names in the input. |
| `BpAggregate.FirstPerNameEmbeds` | api/crud.py:54-62 | The kept rows are input rows at strictly increasing positions. Each one is the first input row that carries its name. |
| `BpAggregate.FirstPerNameIsSubsequence` | api/crud.py:54-62 | The result is a subsequence of the input in the same relative order. |
| `BpAggregate.FirstPerNameKeepsFirst` | api/crud.py:54-62 | The first input row with a given name is kept, and it is the only kept row with that name. |
| `BpAggregate.FirstPerNameSortedDesc` | api/crud.py:49-62 | A newest-first input gives a newest-first result. |
| `BpAggregate.RowsForMembership` | api/crud.py:44-48 | The join rows of one measurement are exactly those of the patients whose key it references. |
| `BpAggregate.JoinMembership` | api/crud.py:44-48 | The inner join holds exactly the rows of the (patient, measurement) pairs whose keys match. |
| `BpAggregate.LatestReadingWins` | api/crud.py:44-62 | Over a newest-first scan of the store, every kept row is a join row, and no join row with the same name has a later timestamp. |
| `BpAggregate.Coverage` | api/crud.py:44-62 | Over a scan of the store, the result names exactly the patients with at least one measurement, with one row per distinct name. A patient with no measurement has no row. |
| `Crud.CreatePatient` | api/crud.py:10-16 | Appends the patient with a fresh key, then deletes the cached aggregate. Afterwards that key reads as absent and every other cache entry is unchanged. |
| `Crud.AddMeasurement` | api/crud.py:20-28 | Appends the reading with a fresh key and the given patient key. Its timestamp is the body's, or `now` when the body has none. It then deletes the cached aggregate, and afterwards that key reads as absent. |
| `Crud.OfPatientCount` | api/crud.py:33-34 | Filtering by patient keeps every reading of that patient as often as it occurs, and no other reading. |
| `Crud.SortByTimestampCorrect` | api/crud.py:35 | The ordering step returns a permutation of its input, sorted by ascending timestamp. |
| `Crud.GetMeasurements` | api/crud.py:31-35 | The result is sorted by ascending timestamp. With a truthy patient filter, it holds exactly that patient's readings. With `None` or `0`, it holds every reading. Multiplicities are preserved. |
| `Crud.RowsJsonRoundTrip` | api/crud.py:56-61 | The JSON list of objects built from the rows decodes back to the same rows, with every field, in the same order. |
| `Crud.RowsJsonTruthy` | api/crud.py:41 | The cached JSON of an aggregate is falsy exactly when the aggregate has no rows, so a cached empty list is a miss. |
| `Crud.KeepFirstPerName` | api/crud.py:52-62 | The loop with its `seen` set returns exactly `FirstPerName` of the scanned rows. |
| `Crud.LastBpPerPatient` | api/crud.py:39-65 | A live, truthy cached value is returned unchanged, and the scan result is not used. On a miss (absent, expired, or an empty list), a failed scan is propagated and the cache is untouched. On a successful scan, the first row per name is returned, and the cache then holds that same value under the key with expiry now + 300. |
| `Crud.ServeTwice` | api/crud.py:39-65 | Two reads with no time passing: if the first returns a non-empty aggregate, the second returns the same value whatever its own scan gives. With identical scans, both reads agree. |
| `Crud.ReadAfterWrite` | api/crud.py:20-65 | After a new reading is added, the next read recomputes from the scan of the updated store, whatever was cached before. |

## Left out

- `get_patients` (api/crud.py:6-7) returns the patient table unchanged. It is the `patients` field of `Models.Database` and has no logic of its own.
- SQL execution and ordering are not modelled. The joined, newest-first query result is an input, described by `IsLatestFirstScan`.
- `GetMeasurements` sorts with one admissible order for equal timestamps. Its contract, like the SQL query, fixes none.
- JSON text is not modelled. The cache stores the decoded document, so `json.loads(json.dumps(d)) == d` is taken as given. `if val` in `redis_get_json` is always true for a stored entry, because serialised JSON is never empty text.
- ISO-8601 formatting (api/crud.py:60) is not modelled. Timestamps are integers, and the JSON `timestamp` field is an integer.
- The Redis connection set-up (api/cache.py:6-9) and connection errors are not modelled. In the code those errors propagate as exceptions.
- Commit failures in `create_patient`/`add_measurement` are not modelled. In the code they raise before the invalidation runs.
- Pydantic type coercion (numeric strings, floats, booleans to `int`) and date parsing are not modelled. Raw fields are already typed, and a date is a day number.
- An explicit `null` timestamp and an omitted one both become `None` after validation, and both get the insertion time.
- The output `Patient` schema's nested `measurements` list (api/schemas.py:35-37) is not modelled. It is ORM relationship loading.
- Lazy deletion of expired Redis entries is not modelled. Expired entries stay in the map and read as absent.
- HTTP routing, the 500 wrapper, the dashboard, database configuration and seeding are not modelled.
- Concurrency is not modelled: set/delete races and several readers recomputing at once on a miss.
