/**
 * Request validation of the API's input schemas: required and optional fields
 * and the inclusive integer ranges on blood-pressure readings.
 * A raw field is omitted, sent as null, or given a value; a required field reports
 * the first two with different errors, an optional one treats both as `None`.
 */
module Schemas {
  import opened Wrappers
  import opened Models

  const SystolicMin: int := 60
  const SystolicMax: int := 260
  const DiastolicMin: int := 30
  const DiastolicMax: int := 180
  const HeartRateMin: int := 30
  const HeartRateMax: int := 220

  /** One field of a request body as received. */
  datatype Raw<+T> = Omitted | Null | Given(value: T)

  /** `Missing` is "field required"; `NotNull` is "none is not an allowed value". */
  datatype FieldError = Missing(field: string) | NotNull(field: string) | OutOfRange(field: string, value: int)

  /** An optional field's value: omitted and null both give the default `None`. */
  function Present<T>(r: Raw<T>): (o: Option<T>)
    ensures o.Some? <==> r.Given?
    ensures o.Some? ==> o.value == r.value
  {
    match r
    case Given(v) => Some(v)
    case _ => None
  }

  /** A measurement body as received, before validation. */
  datatype MeasurementInput = MeasurementInput(
    systolic: Raw<int>,
    diastolic: Raw<int>,
    heartRate: Raw<int>,
    timestamp: Raw<int>)

  /** A validated measurement body; the timestamp stays optional. */
  datatype MeasurementCreate = MeasurementCreate(
    systolic: int,
    diastolic: int,
    heartRate: Option<int>,
    timestamp: Option<int>)

  /** A patient body as received, before validation. */
  datatype PatientInput = PatientInput(name: Raw<string>, dob: Raw<Date>, gender: Raw<string>)

  /** A validated patient body; gender stays optional and is `None` when not given. */
  datatype PatientCreate = PatientCreate(name: string, dob: Date, gender: Option<string>)

  predicate InRange(v: int, lo: int, hi: int)
  {
    lo <= v <= hi
  }

  /** The error, if any, for a required field that must not be null. */
  function Required<T>(field: string, r: Raw<T>): (errs: seq<FieldError>)
    ensures errs == [] <==> r.Given?
    ensures r.Omitted? ==> errs == [Missing(field)]
    ensures r.Null? ==> errs == [NotNull(field)]
  {
    match r
    case Omitted => [Missing(field)]
    case Null => [NotNull(field)]
    case Given(_) => []
  }

  /** The error, if any, for a required integer field with an inclusive range. */
  function RequiredInt(field: string, v: Raw<int>, lo: int, hi: int): (errs: seq<FieldError>)
    ensures errs == [] <==> v.Given? && lo <= v.value <= hi
    ensures v.Omitted? ==> errs == [Missing(field)]
    ensures v.Null? ==> errs == [NotNull(field)]
    ensures v.Given? && !(lo <= v.value <= hi) ==> errs == [OutOfRange(field, v.value)]
  {
    match v
    case Given(x) => if InRange(x, lo, hi) then [] else [OutOfRange(field, x)]
    case _ => Required(field, v)
  }

  /** The error, if any, for an optional integer field with an inclusive range. */
  function OptionalInt(field: string, v: Raw<int>, lo: int, hi: int): (errs: seq<FieldError>)
    ensures errs == [] <==> (v.Given? ==> lo <= v.value <= hi)
    ensures v.Given? && !(lo <= v.value <= hi) ==> errs == [OutOfRange(field, v.value)]
  {
    match v
    case Given(x) => if InRange(x, lo, hi) then [] else [OutOfRange(field, x)]
    case _ => []
  }

  /** Every field error of a measurement body, in field order (all of them, not only the first). */
  function MeasurementErrors(raw: MeasurementInput): seq<FieldError>
  {
    RequiredInt("systolic", raw.systolic, SystolicMin, SystolicMax)
    + RequiredInt("diastolic", raw.diastolic, DiastolicMin, DiastolicMax)
    + OptionalInt("heart_rate", raw.heartRate, HeartRateMin, HeartRateMax)
  }

  /** The validated body, or the list of what is wrong with it. */
  function ValidateMeasurementCreate(raw: MeasurementInput): (r: Result<MeasurementCreate, seq<FieldError>>)
    ensures r.Success? <==>
      && raw.systolic.Given? && 60 <= raw.systolic.value <= 260
      && raw.diastolic.Given? && 30 <= raw.diastolic.value <= 180
      && (raw.heartRate.Given? ==> 30 <= raw.heartRate.value <= 220)
    ensures r.Success? ==>
      && r.value.systolic == raw.systolic.value
      && r.value.diastolic == raw.diastolic.value
      && r.value.heartRate == (if raw.heartRate.Given? then Some(raw.heartRate.value) else None)
      && r.value.timestamp == (if raw.timestamp.Given? then Some(raw.timestamp.value) else None)
    ensures r.Failure? ==> r.error != []
    ensures r.Failure? ==> (Missing("systolic") in r.error <==> raw.systolic.Omitted?)
    ensures r.Failure? ==> (NotNull("systolic") in r.error <==> raw.systolic.Null?)
    ensures r.Failure? ==> (Missing("diastolic") in r.error <==> raw.diastolic.Omitted?)
    ensures r.Failure? ==> (NotNull("diastolic") in r.error <==> raw.diastolic.Null?)
  {
    var errs := MeasurementErrors(raw);
    if errs == [] then
      Success(MeasurementCreate(raw.systolic.value, raw.diastolic.value, Present(raw.heartRate),
                                Present(raw.timestamp)))
    else
      Failure(errs)
  }

  /** The validated body, or the list of required fields that are omitted or null. */
  function ValidatePatientCreate(raw: PatientInput): (r: Result<PatientCreate, seq<FieldError>>)
    ensures r.Success? <==> raw.name.Given? && raw.dob.Given?
    ensures r.Success? ==>
      && r.value.name == raw.name.value && r.value.dob == raw.dob.value
      && r.value.gender == (if raw.gender.Given? then Some(raw.gender.value) else None)
    ensures r.Failure? ==> (Missing("name") in r.error <==> raw.name.Omitted?)
    ensures r.Failure? ==> (NotNull("name") in r.error <==> raw.name.Null?)
    ensures r.Failure? ==> (Missing("dob") in r.error <==> raw.dob.Omitted?)
    ensures r.Failure? ==> (NotNull("dob") in r.error <==> raw.dob.Null?)
  {
    var errs := Required("name", raw.name) + Required("dob", raw.dob);
    if errs == [] then Success(PatientCreate(raw.name.value, raw.dob.value, Present(raw.gender)))
    else Failure(errs)
  }
}
