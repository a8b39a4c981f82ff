/**
  The persisted entities (Admin, Doctor, Patient, PatientHistory), the four
  tables that hold them, the invariants the endpoints maintain over the
  tables, and the lookups the endpoints run against them.

  A table is a sequence of rows in primary-key order: identity keys are
  handed out in increasing order and rows are only ever appended, updated in
  place or removed, so the insertion order is the key order. FirstOrDefault
  without an OrderBy is taken to scan a table in that order.
 */
module Models {
  import opened Wrappers
  import opened Linq
  import opened Dates

  /** A DateTime instant, as a count of clock ticks. */
  type Instant = int

  datatype Admin = Admin(id: int, email: string, passwordHash: string)

  datatype Doctor = Doctor(
    id: int,
    firstName: string,
    lastName: string,
    gender: string,
    birthDate: Option<Date>,
    age: int,
    specialty: string,
    email: string,
    passwordHash: string,
    imageUrl: Option<string>)

  datatype Patient = Patient(
    id: int,
    firstName: string,
    lastName: string,
    gender: string,
    birthDate: Option<Date>,
    age: int,
    bloodType: string,
    email: string,
    passwordHash: string,
    imageUrl: Option<string>,
    xRayImageUrl: Option<string>,
    labResultsImageUrl: Option<string>,
    createdAt: Instant)

  /** One treatment link between a patient and a doctor (foreign keys PatientId and DoctorId). */
  datatype PatientHistory = PatientHistory(
    id: int,
    patientId: int,
    doctorId: int,
    diagnosis: string,
    treatment: string,
    treatmentDate: Instant)

  /** The contents of the four tables. */
  datatype Store = Store(
    admins: seq<Admin>,
    doctors: seq<Doctor>,
    patients: seq<Patient>,
    histories: seq<PatientHistory>)

  /** BCrypt's HashPassword and Verify, supplied from outside. */
  datatype Hasher = Hasher(hash: string -> string, verify: (string, string) -> bool)

  /** Verify accepts the password a hash was made from. */
  ghost predicate Sound(h: Hasher) {
    forall p :: h.verify(p, h.hash(p))
  }

  /** The readings of the clock one request takes: DateTime.UtcNow as an instant and as a date, and DateTime.Now as "yyyyMMddHHmmss". */
  datatype Clock = Clock(now: Instant, today: Date, stamp: string)

  // ---------------------------------------------------------------------
  // Columns

  function AdminId(a: Admin): int { a.id }
  function DoctorId(d: Doctor): int { d.id }
  function PatientId(p: Patient): int { p.id }
  function HistoryId(h: PatientHistory): int { h.id }
  function AdminEmail(a: Admin): string { a.email }
  function DoctorEmail(d: Doctor): string { d.email }
  function PatientEmail(p: Patient): string { p.email }
  function HistoryPair(h: PatientHistory): (int, int) { (h.patientId, h.doctorId) }

  // ---------------------------------------------------------------------
  // Row filters, as the lambdas the queries pass to LINQ

  function AdminWithId(id: int): Admin -> bool { (a: Admin) => a.id == id }
  function DoctorWithId(id: int): Doctor -> bool { (d: Doctor) => d.id == id }
  function PatientWithId(id: int): Patient -> bool { (p: Patient) => p.id == id }
  function AdminWithEmail(email: string): Admin -> bool { (a: Admin) => a.email == email }
  function DoctorWithEmail(email: string): Doctor -> bool { (d: Doctor) => d.email == email }
  function PatientWithEmail(email: string): Patient -> bool { (p: Patient) => p.email == email }
  function DoctorOtherThan(id: int): Doctor -> bool { (d: Doctor) => d.id != id }
  function PatientOtherThan(id: int): Patient -> bool { (p: Patient) => p.id != id }
  function HistoryOfDoctor(doctorId: int): PatientHistory -> bool { (h: PatientHistory) => h.doctorId == doctorId }
  function HistoryOfPatient(patientId: int): PatientHistory -> bool { (h: PatientHistory) => h.patientId == patientId }
  function HistoryNotOfDoctor(doctorId: int): PatientHistory -> bool { (h: PatientHistory) => h.doctorId != doctorId }
  function HistoryNotOfPatient(patientId: int): PatientHistory -> bool { (h: PatientHistory) => h.patientId != patientId }
  function HistoryOfPair(patientId: int, doctorId: int): PatientHistory -> bool {
    (h: PatientHistory) => h.patientId == patientId && h.doctorId == doctorId
  }

  // ---------------------------------------------------------------------
  // Store invariants

  /** Positive identity keys in increasing order. */
  ghost predicate KeyedBy<T>(rows: seq<T>, key: T -> int) {
    IncreasingBy(rows, key) && forall i :: 0 <= i < |rows| ==> key(rows[i]) > 0
  }

  /** Every history row points at an existing patient and an existing doctor. */
  ghost predicate HistoriesLinked(s: Store) {
    forall i :: 0 <= i < |s.histories| ==>
      && s.histories[i].patientId in Select(s.patients, PatientId)
      && s.histories[i].doctorId in Select(s.doctors, DoctorId)
  }

  /**
    What every endpoint keeps true of the tables: keyed rows, no email used
    twice within one kind of principal, histories pointing at existing rows,
    and at most one history per (patient, doctor) pair.
   */
  ghost predicate Consistent(s: Store) {
    && KeyedBy(s.admins, AdminId)
    && KeyedBy(s.doctors, DoctorId)
    && KeyedBy(s.patients, PatientId)
    && KeyedBy(s.histories, HistoryId)
    && DistinctBy(s.admins, AdminEmail)
    && DistinctBy(s.doctors, DoctorEmail)
    && DistinctBy(s.patients, PatientEmail)
    && HistoriesLinked(s)
    && DistinctBy(s.histories, HistoryPair)
  }

  // ---------------------------------------------------------------------
  // Lookups

  /** FirstOrDefault(a => a.Email == email) on Admins, by position. */
  function FindAdminByEmail(admins: seq<Admin>, email: string): (r: Option<nat>)
    ensures r.Some? ==> r.value < |admins| && admins[r.value].email == email
    ensures r.Some? ==> forall i :: 0 <= i < r.value ==> admins[i].email != email
    ensures r.None? <==> forall i :: 0 <= i < |admins| ==> admins[i].email != email
  {
    FirstWhere(admins, AdminWithEmail(email))
  }

  function FindDoctorByEmail(doctors: seq<Doctor>, email: string): (r: Option<nat>)
    ensures r.Some? ==> r.value < |doctors| && doctors[r.value].email == email
    ensures r.Some? ==> forall i :: 0 <= i < r.value ==> doctors[i].email != email
    ensures r.None? <==> forall i :: 0 <= i < |doctors| ==> doctors[i].email != email
  {
    FirstWhere(doctors, DoctorWithEmail(email))
  }

  function FindPatientByEmail(patients: seq<Patient>, email: string): (r: Option<nat>)
    ensures r.Some? ==> r.value < |patients| && patients[r.value].email == email
    ensures r.Some? ==> forall i :: 0 <= i < r.value ==> patients[i].email != email
    ensures r.None? <==> forall i :: 0 <= i < |patients| ==> patients[i].email != email
  {
    FirstWhere(patients, PatientWithEmail(email))
  }

  /** Find(id) on Admins, or FirstOrDefault(a => a.Id == id), by position. */
  function FindAdmin(admins: seq<Admin>, id: int): (r: Option<nat>)
    ensures r.Some? ==> r.value < |admins| && admins[r.value].id == id
    ensures r.None? <==> forall i :: 0 <= i < |admins| ==> admins[i].id != id
  {
    FirstWhere(admins, AdminWithId(id))
  }

  function FindDoctor(doctors: seq<Doctor>, id: int): (r: Option<nat>)
    ensures r.Some? ==> r.value < |doctors| && doctors[r.value].id == id
    ensures r.None? <==> forall i :: 0 <= i < |doctors| ==> doctors[i].id != id
  {
    FirstWhere(doctors, DoctorWithId(id))
  }

  function FindPatient(patients: seq<Patient>, id: int): (r: Option<nat>)
    ensures r.Some? ==> r.value < |patients| && patients[r.value].id == id
    ensures r.None? <==> forall i :: 0 <= i < |patients| ==> patients[i].id != id
  {
    FirstWhere(patients, PatientWithId(id))
  }

  /** The first history row of the patient with the doctor, by position. */
  function FindHistory(hs: seq<PatientHistory>, patientId: int, doctorId: int): (r: Option<nat>)
    ensures r.Some? ==> r.value < |hs| && hs[r.value].patientId == patientId && hs[r.value].doctorId == doctorId
    ensures r.None? <==> forall i :: 0 <= i < |hs| ==> hs[i].patientId != patientId || hs[i].doctorId != doctorId
  {
    FirstWhere(hs, HistoryOfPair(patientId, doctorId))
  }

  /** Under the invariant the first row with an email is the only one, whatever its position. */
  lemma EmailFindsTheOnlyDoctor(s: Store, email: string, k: nat)
    requires Consistent(s)
    requires k < |s.doctors| && s.doctors[k].email == email
    ensures FindDoctorByEmail(s.doctors, email) == Some(k)
  {
    var r := FindDoctorByEmail(s.doctors, email);
    assert DoctorEmail(s.doctors[r.value]) == DoctorEmail(s.doctors[k]);
  }

  /** Under the invariant an id names at most one row. */
  lemma IdFindsTheOnlyPatient(s: Store, k: nat)
    requires Consistent(s)
    requires k < |s.patients|
    ensures FindPatient(s.patients, s.patients[k].id) == Some(k)
  {
    var r := FindPatient(s.patients, s.patients[k].id);
    assert PatientId(s.patients[r.value]) == PatientId(s.patients[k]);
  }

  lemma IdFindsTheOnlyDoctor(s: Store, k: nat)
    requires Consistent(s)
    requires k < |s.doctors|
    ensures FindDoctor(s.doctors, s.doctors[k].id) == Some(k)
  {
    var r := FindDoctor(s.doctors, s.doctors[k].id);
    assert DoctorId(s.doctors[r.value]) == DoctorId(s.doctors[k]);
  }
}
