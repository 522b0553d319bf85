/**
 * The two tables of the store (patients and measurements) and the store itself.
 * The store assigns primary keys on insert, as SQLite does for an integer key.
 */
module Models {
  import opened Wrappers

  /** A calendar date, as a day number. */
  type Date = int

  datatype Patient = Patient(id: int, name: string, dob: Date, gender: Option<string>)

  datatype Measurement = Measurement(
    id: int,
    patientId: int,
    timestamp: int,
    systolic: int,
    diastolic: int,
    heartRate: Option<int>)

  /** The store's two tables, in insertion order, and the next free primary keys. */
  class Database {
    var patients: seq<Patient>
    var measurements: seq<Measurement>
    var nextPatientId: int
    var nextMeasurementId: int

    ghost predicate Valid()
      reads this
    {
      && 0 < nextPatientId && 0 < nextMeasurementId
      && (forall i :: 0 <= i < |patients| ==> 0 < patients[i].id < nextPatientId)
      && (forall i :: 0 <= i < |measurements| ==> 0 < measurements[i].id < nextMeasurementId)
    }

    constructor ()
      ensures Valid()
      ensures patients == [] && measurements == []
    {
      patients, measurements := [], [];
      nextPatientId, nextMeasurementId := 1, 1;
    }

    /** Inserts and commits a patient row; the store picks a key no existing patient has. */
    method InsertPatient(name: string, dob: Date, gender: Option<string>) returns (p: Patient)
      requires Valid()
      modifies this
      ensures Valid()
      ensures p.name == name && p.dob == dob && p.gender == gender
      ensures p.id == old(nextPatientId)
      ensures forall q :: q in old(patients) ==> q.id != p.id
      ensures patients == old(patients) + [p]
      ensures measurements == old(measurements)
    {
      p := Patient(nextPatientId, name, dob, gender);
      patients := patients + [p];
      nextPatientId := nextPatientId + 1;
    }

    /**
     * Inserts and commits a measurement row; the store picks a key no existing
     * measurement has. The patient key is not checked against the patients table
     * (SQLite does not enforce foreign keys unless asked to).
     */
    method InsertMeasurement(patientId: int, timestamp: int, systolic: int, diastolic: int,
                             heartRate: Option<int>) returns (m: Measurement)
      requires Valid()
      modifies this
      ensures Valid()
      ensures m.patientId == patientId && m.timestamp == timestamp
      ensures m.systolic == systolic && m.diastolic == diastolic && m.heartRate == heartRate
      ensures m.id == old(nextMeasurementId)
      ensures forall q :: q in old(measurements) ==> q.id != m.id
      ensures measurements == old(measurements) + [m]
      ensures patients == old(patients)
    {
      m := Measurement(nextMeasurementId, patientId, timestamp, systolic, diastolic, heartRate);
      measurements := measurements + [m];
      nextMeasurementId := nextMeasurementId + 1;
    }
  }
}
