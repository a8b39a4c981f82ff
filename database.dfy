/**
  AppDbContext: the four tables and their identity counters, with the row
  operations the endpoints perform (Add, Remove, RemoveRange and edits of
  tracked rows, each followed by SaveChanges). Every operation keeps the
  table invariant; its precondition is what the calling endpoint has
  checked before it reaches SaveChanges.
 */
module Data {
  import opened Wrappers
  import opened Linq
  import opened Models

  class Database {
    var admins: seq<Admin>
    var doctors: seq<Doctor>
    var patients: seq<Patient>
    var histories: seq<PatientHistory>
    /** The identity value each table hands out next. */
    var nextAdminId: int
    var nextDoctorId: int
    var nextPatientId: int
    var nextHistoryId: int

    function State(): Store
      reads this
    {
      Store(admins, doctors, patients, histories)
    }

    ghost predicate Valid()
      reads this
    {
      && Consistent(State())
      && 0 < nextAdminId && 0 < nextDoctorId && 0 < nextPatientId && 0 < nextHistoryId
      && (forall i :: 0 <= i < |admins| ==> admins[i].id < nextAdminId)
      && (forall i :: 0 <= i < |doctors| ==> doctors[i].id < nextDoctorId)
      && (forall i :: 0 <= i < |patients| ==> patients[i].id < nextPatientId)
      && (forall i :: 0 <= i < |histories| ==> histories[i].id < nextHistoryId)
    }

    constructor ()
      ensures Valid()
      ensures State() == Store([], [], [], [])
    {
      admins, doctors, patients, histories := [], [], [], [];
      nextAdminId, nextDoctorId, nextPatientId, nextHistoryId := 1, 1, 1, 1;
    }

    /** Admins.Add: the new row gets the next identity value. */
    method AddAdmin(email: string, passwordHash: string) returns (id: int)
      requires Valid()
      requires forall i :: 0 <= i < |admins| ==> admins[i].email != email
      modifies this
      ensures Valid()
      ensures id == old(nextAdminId) && id > 0
      ensures admins == old(admins) + [Admin(id, email, passwordHash)]
      ensures doctors == old(doctors) && patients == old(patients) && histories == old(histories)
      ensures nextAdminId == old(nextAdminId) + 1 && nextDoctorId == old(nextDoctorId) && nextPatientId == old(nextPatientId) && nextHistoryId == old(nextHistoryId)
    {
      id := nextAdminId;
      var row := Admin(id, email, passwordHash);
      AppendKeepsIncreasing(admins, row, AdminId);
      AppendKeepsDistinct(admins, row, AdminEmail);
      admins := admins + [row];
      nextAdminId := nextAdminId + 1;
    }

    /** Doctors.Add of a new row built from d: the row gets the next identity value. */
    method AddDoctor(d: Doctor) returns (id: int)
      requires Valid()
      requires forall i :: 0 <= i < |doctors| ==> doctors[i].email != d.email
      modifies this
      ensures Valid()
      ensures id == old(nextDoctorId) && id > 0
      ensures doctors == old(doctors) + [d.(id := id)]
      ensures admins == old(admins) && patients == old(patients) && histories == old(histories)
      ensures nextAdminId == old(nextAdminId) && nextDoctorId == old(nextDoctorId) + 1 && nextPatientId == old(nextPatientId) && nextHistoryId == old(nextHistoryId)
    {
      id := nextDoctorId;
      var row := d.(id := id);
      AppendKeepsIncreasing(doctors, row, DoctorId);
      AppendKeepsDistinct(doctors, row, DoctorEmail);
      SelectAppend(doctors, row, DoctorId);
      doctors := doctors + [row];
      nextDoctorId := nextDoctorId + 1;
    }

    /** Patients.Add of a new row built from p: the row gets the next identity value. */
    method AddPatient(p: Patient) returns (id: int)
      requires Valid()
      requires forall i :: 0 <= i < |patients| ==> patients[i].email != p.email
      modifies this
      ensures Valid()
      ensures id == old(nextPatientId) && id > 0
      ensures patients == old(patients) + [p.(id := id)]
      ensures forall i :: 0 <= i < |histories| ==> histories[i].patientId != id
      ensures admins == old(admins) && doctors == old(doctors) && histories == old(histories)
      ensures nextAdminId == old(nextAdminId) && nextDoctorId == old(nextDoctorId) && nextPatientId == old(nextPatientId) + 1 && nextHistoryId == old(nextHistoryId)
    {
      id := nextPatientId;
      var row := p.(id := id);
      AppendKeepsIncreasing(patients, row, PatientId);
      AppendKeepsDistinct(patients, row, PatientEmail);
      SelectAppend(patients, row, PatientId);
      forall i | 0 <= i < |histories|
        ensures histories[i].patientId != id
      {
        assert histories[i].patientId in Select(patients, PatientId);
        var j :| 0 <= j < |patients| && Select(patients, PatientId)[j] == histories[i].patientId;
      }
      patients := patients + [row];
      nextPatientId := nextPatientId + 1;
    }

    /** PatientHistories.Add: a new link between an existing patient and an existing doctor. */
    method AddHistory(patientId: int, doctorId: int, diagnosis: string, treatment: string, date: Instant) returns (id: int)
      requires Valid()
      requires patientId in Select(patients, PatientId) && doctorId in Select(doctors, DoctorId)
      requires FindHistory(histories, patientId, doctorId).None?
      modifies this
      ensures Valid()
      ensures id == old(nextHistoryId) && id > 0
      ensures histories == old(histories) + [PatientHistory(id, patientId, doctorId, diagnosis, treatment, date)]
      ensures admins == old(admins) && doctors == old(doctors) && patients == old(patients)
      ensures nextAdminId == old(nextAdminId) && nextDoctorId == old(nextDoctorId) && nextPatientId == old(nextPatientId) && nextHistoryId == old(nextHistoryId) + 1
    {
      id := nextHistoryId;
      var row := PatientHistory(id, patientId, doctorId, diagnosis, treatment, date);
      AppendKeepsIncreasing(histories, row, HistoryId);
      AppendKeepsDistinct(histories, row, HistoryPair);
      histories := histories + [row];
      nextHistoryId := nextHistoryId + 1;
    }

    /** Saving the edits made to a tracked doctor row: same key, an email no other doctor has. */
    method SetDoctor(i: nat, d: Doctor)
      requires Valid()
      requires i < |doctors| && d.id == doctors[i].id
      requires forall j :: 0 <= j < |doctors| && j != i ==> doctors[j].email != d.email
      modifies this
      ensures Valid()
      ensures doctors == old(doctors)[i := d]
      ensures admins == old(admins) && patients == old(patients) && histories == old(histories)
      ensures nextAdminId == old(nextAdminId) && nextDoctorId == old(nextDoctorId) && nextPatientId == old(nextPatientId) && nextHistoryId == old(nextHistoryId)
    {
      SelectUpdateSameKey(doctors, i, d, DoctorId);
      doctors := doctors[i := d];
    }

    /** Saving the edits made to a tracked patient row: same key, an email no other patient has. */
    method SetPatient(i: nat, p: Patient)
      requires Valid()
      requires i < |patients| && p.id == patients[i].id
      requires forall j :: 0 <= j < |patients| && j != i ==> patients[j].email != p.email
      modifies this
      ensures Valid()
      ensures patients == old(patients)[i := p]
      ensures admins == old(admins) && doctors == old(doctors) && histories == old(histories)
      ensures nextAdminId == old(nextAdminId) && nextDoctorId == old(nextDoctorId) && nextPatientId == old(nextPatientId) && nextHistoryId == old(nextHistoryId)
    {
      SelectUpdateSameKey(patients, i, p, PatientId);
      patients := patients[i := p];
    }

    /** Saving the edits made to a tracked admin row: same key and email. */
    method SetAdmin(i: nat, a: Admin)
      requires Valid()
      requires i < |admins| && a.id == admins[i].id && a.email == admins[i].email
      modifies this
      ensures Valid()
      ensures admins == old(admins)[i := a]
      ensures doctors == old(doctors) && patients == old(patients) && histories == old(histories)
      ensures nextAdminId == old(nextAdminId) && nextDoctorId == old(nextDoctorId) && nextPatientId == old(nextPatientId) && nextHistoryId == old(nextHistoryId)
    {
      admins := admins[i := a];
    }

    /** Saving the edits made to a tracked history row: its diagnosis, treatment and date. */
    method SetHistory(i: nat, diagnosis: string, treatment: string, date: Instant)
      requires Valid()
      requires i < |histories|
      modifies this
      ensures Valid()
      ensures histories == old(histories)[i := old(histories)[i].(diagnosis := diagnosis, treatment := treatment, treatmentDate := date)]
      ensures admins == old(admins) && doctors == old(doctors) && patients == old(patients)
      ensures nextAdminId == old(nextAdminId) && nextDoctorId == old(nextDoctorId) && nextPatientId == old(nextPatientId) && nextHistoryId == old(nextHistoryId)
    {
      histories := histories[i := histories[i].(diagnosis := diagnosis, treatment := treatment, treatmentDate := date)];
    }

    /** PatientHistories.RemoveRange of the rows keep rejects. */
    method RemoveHistories(keep: PatientHistory -> bool)
      requires Valid()
      modifies this
      ensures Valid()
      ensures histories == Where(old(histories), keep)
      ensures admins == old(admins) && doctors == old(doctors) && patients == old(patients)
      ensures nextAdminId == old(nextAdminId) && nextDoctorId == old(nextDoctorId) && nextPatientId == old(nextPatientId) && nextHistoryId == old(nextHistoryId)
    {
      var rest := Where(histories, keep);
      WhereKeepsIncreasing(histories, keep, HistoryId);
      WhereKeepsDistinct(histories, keep, HistoryPair);
      forall k | 0 <= k < |rest|
        ensures rest[k].id > 0 && rest[k].id < nextHistoryId
        ensures rest[k].patientId in Select(patients, PatientId) && rest[k].doctorId in Select(doctors, DoctorId)
      {
        var j :| 0 <= j < |histories| && histories[j] == rest[k];
        assert HistoryId(histories[j]) > 0;
      }
      histories := rest;
    }

    /** Doctors.Remove of the row with the id, once no history refers to it. */
    method RemoveDoctor(id: int)
      requires Valid()
      requires forall i :: 0 <= i < |histories| ==> histories[i].doctorId != id
      modifies this
      ensures Valid()
      ensures doctors == Where(old(doctors), DoctorOtherThan(id))
      ensures admins == old(admins) && patients == old(patients) && histories == old(histories)
      ensures nextAdminId == old(nextAdminId) && nextDoctorId == old(nextDoctorId) && nextPatientId == old(nextPatientId) && nextHistoryId == old(nextHistoryId)
    {
      var rest := Where(doctors, DoctorOtherThan(id));
      WhereKeepsIncreasing(doctors, DoctorOtherThan(id), DoctorId);
      WhereKeepsDistinct(doctors, DoctorOtherThan(id), DoctorEmail);
      forall k | 0 <= k < |rest|
        ensures rest[k].id > 0 && rest[k].id < nextDoctorId
      {
        var j :| 0 <= j < |doctors| && doctors[j] == rest[k];
        assert DoctorId(doctors[j]) > 0;
      }
      forall i | 0 <= i < |histories|
        ensures histories[i].doctorId in Select(rest, DoctorId)
      {
        var j :| 0 <= j < |doctors| && Select(doctors, DoctorId)[j] == histories[i].doctorId;
        SelectWhereMember(doctors, j, DoctorOtherThan(id), DoctorId);
      }
      doctors := rest;
    }

    /** Patients.Remove of the row with the id, once no history refers to it. */
    method RemovePatient(id: int)
      requires Valid()
      requires forall i :: 0 <= i < |histories| ==> histories[i].patientId != id
      modifies this
      ensures Valid()
      ensures patients == Where(old(patients), PatientOtherThan(id))
      ensures admins == old(admins) && doctors == old(doctors) && histories == old(histories)
      ensures nextAdminId == old(nextAdminId) && nextDoctorId == old(nextDoctorId) && nextPatientId == old(nextPatientId) && nextHistoryId == old(nextHistoryId)
    {
      var rest := Where(patients, PatientOtherThan(id));
      WhereKeepsIncreasing(patients, PatientOtherThan(id), PatientId);
      WhereKeepsDistinct(patients, PatientOtherThan(id), PatientEmail);
      forall k | 0 <= k < |rest|
        ensures rest[k].id > 0 && rest[k].id < nextPatientId
      {
        var j :| 0 <= j < |patients| && patients[j] == rest[k];
        assert PatientId(patients[j]) > 0;
      }
      forall i | 0 <= i < |histories|
        ensures histories[i].patientId in Select(rest, PatientId)
      {
        var j :| 0 <= j < |patients| && Select(patients, PatientId)[j] == histories[i].patientId;
        SelectWhereMember(patients, j, PatientOtherThan(id), PatientId);
      }
      patients := rest;
    }
  }
}
