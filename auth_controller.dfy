/**
  AuthController: registration of admins, doctors and patients, login, and
  the two-step password reset. Each endpoint runs its checks against the
  tables first and changes them only once every check has passed, as the
  endpoints do by calling SaveChanges at the end; the checks are the pure
  guard chains below, the changes are the methods.
 */
module AuthController {
  import opened Wrappers
  import opened Text
  import opened Numbers
  import opened Linq
  import opened Dates
  import opened Models
  import opened Data
  import opened ResetCodes
  import opened AuthRules
  import opened Dtos

  const MaxAdmins: nat := 6

  const InvalidEmailFormat: string := "Invalid email format"
  const EmailAlreadyExists: string := "Email already exists"
  const InvalidCredentials: string := "Invalid email or password"
  const EmailNotFound: string := "Email not found"
  const AdminFieldsRequired: string := "Email and password are required"
  const AdminCapReached: string := "Maximum number of admins (6) has been reached"
  const DoctorFieldsRequired: string := "First name, last name, gender, birth date, email, password, and specialty are required"
  const PatientFieldsRequired: string := "First name, last name, gender, birth date, email, password, doctor ID, diagnosis, and treatment are required"
  const DoctorNotFound: string := "Doctor not found"
  const InvalidBirthDate: string := "Invalid BirthDate"
  const WrongPatientPassword: string := "Invalid password for existing patient"
  const HistoryExists: string := "Patient already has a treatment history with this doctor"

  /** string.Join(separator, items) */
  function Join(separator: string, items: seq<string>): string
    decreases |items|
  {
    if items == [] then ""
    else if |items| == 1 then items[0]
    else items[0] + separator + Join(separator, items[1..])
  }

  function InvalidSpecialty(): string {
    "Invalid specialty. Specialty must be one of the following: " + Join(", ", AllowedSpecialties)
  }

  /** Some principal of any kind has the email. */
  predicate HasAccount(s: Store, email: string) {
    FindAdminByEmail(s.admins, email).Some? || FindDoctorByEmail(s.doctors, email).Some? || FindPatientByEmail(s.patients, email).Some?
  }

  // ---------------------------------------------------------------------
  // RegisterAdmin

  /** The first check RegisterAdmin fails, if any. */
  function AdminRegistrationError(s: Store, dto: AdminDto, validEmail: string -> bool): Option<string> {
    if dto.email == "" || dto.password == "" then Some(AdminFieldsRequired)
    else if !validEmail(dto.email) then Some(InvalidEmailFormat)
    else if Any(s.admins, AdminWithEmail(dto.email)) then Some(EmailAlreadyExists)
    else if |s.admins| >= MaxAdmins then Some(AdminCapReached)
    else None
  }

  /**
    A registration gets through only with a new admin email while fewer than
    six admins exist; a taken email is reported as such whatever the count.
   */
  lemma AdminRegistrationRules(s: Store, dto: AdminDto, validEmail: string -> bool)
    ensures AdminRegistrationError(s, dto, validEmail).None? <==>
      dto.email != "" && dto.password != "" && validEmail(dto.email)
      && (forall i :: 0 <= i < |s.admins| ==> s.admins[i].email != dto.email)
      && |s.admins| < MaxAdmins
    ensures (dto.email != "" && dto.password != "" && validEmail(dto.email)
      && exists i :: 0 <= i < |s.admins| && s.admins[i].email == dto.email) ==>
      AdminRegistrationError(s, dto, validEmail) == Some(EmailAlreadyExists)
  {
    AnyIffFirstWhere(s.admins, AdminWithEmail(dto.email));
  }

  method RegisterAdmin(db: Database, dto: AdminDto, validEmail: string -> bool, h: Hasher) returns (r: Response<AdminResponse>)
    requires db.Valid()
    modifies db
    ensures db.Valid()
    ensures AdminRegistrationError(old(db.State()), dto, validEmail).Some? ==>
      r == BadRequest(AdminRegistrationError(old(db.State()), dto, validEmail).value) && db.State() == old(db.State())
    ensures AdminRegistrationError(old(db.State()), dto, validEmail).None? ==>
      var row := Admin(old(db.nextAdminId), dto.email, h.hash(dto.password));
      && db.admins == old(db.admins) + [row]
      && r == Ok("Admin registered successfully", AdminView(row))
    ensures db.doctors == old(db.doctors) && db.patients == old(db.patients) && db.histories == old(db.histories)
    ensures |old(db.admins)| <= MaxAdmins ==> |db.admins| <= MaxAdmins
  {
    var error := AdminRegistrationError(db.State(), dto, validEmail);
    if error.Some? {
      return BadRequest(error.value);
    }
    AnyIffFirstWhere(db.admins, AdminWithEmail(dto.email));
    var passwordHash := h.hash(dto.password);
    var id := db.AddAdmin(dto.email, passwordHash);
    r := Ok("Admin registered successfully", AdminView(Admin(id, dto.email, passwordHash)));
  }

  // ---------------------------------------------------------------------
  // RegisterDoctor

  /** The first check RegisterDoctor fails, if any. */
  function DoctorRegistrationError(s: Store, dto: DoctorDto, validEmail: string -> bool): Option<string> {
    if dto.firstName == "" || dto.lastName == "" || dto.gender == "" || dto.birthDate.None?
      || dto.email == "" || dto.password == "" || dto.specialty == "" then Some(DoctorFieldsRequired)
    else if !validEmail(dto.email) then Some(InvalidEmailFormat)
    else if !IsAllowedSpecialty(dto.specialty) then Some(InvalidSpecialty())
    else if Any(s.doctors, DoctorWithEmail(dto.email)) then Some(EmailAlreadyExists)
    else None
  }

  /**
    A complete doctor form with a valid email gets through exactly when its
    specialty is one of the five, in any case, and no doctor has its email;
    admins and patients with that email do not matter.
   */
  lemma DoctorRegistrationRules(s: Store, dto: DoctorDto, validEmail: string -> bool, others: Store)
    requires others.doctors == s.doctors
    ensures DoctorRegistrationError(s, dto, validEmail).None? <==>
      && dto.firstName != "" && dto.lastName != "" && dto.gender != "" && dto.birthDate.Some?
      && dto.email != "" && dto.password != "" && dto.specialty != ""
      && validEmail(dto.email)
      && Lower(dto.specialty) in LowerSpecialties
      && (forall i :: 0 <= i < |s.doctors| ==> s.doctors[i].email != dto.email)
    ensures DoctorRegistrationError(others, dto, validEmail) == DoctorRegistrationError(s, dto, validEmail)
  {
    SpecialtyAllowedIff(dto.specialty);
    AnyIffFirstWhere(s.doctors, DoctorWithEmail(dto.email));
  }

  method RegisterDoctor(db: Database, dto: DoctorDto, validEmail: string -> bool, h: Hasher, clock: Clock) returns (r: Response<DoctorResponse>)
    requires db.Valid()
    modifies db
    ensures db.Valid()
    ensures DoctorRegistrationError(old(db.State()), dto, validEmail).Some? ==>
      r == BadRequest(DoctorRegistrationError(old(db.State()), dto, validEmail).value) && db.State() == old(db.State())
    ensures DoctorRegistrationError(old(db.State()), dto, validEmail).None? ==>
      var id := old(db.nextDoctorId);
      var age := AgeInYears(dto.birthDate.value, clock.today);
      var row := Doctor(id, dto.firstName, dto.lastName, dto.gender, dto.birthDate, age, dto.specialty, dto.email, h.hash(dto.password), None);
      var image := SaveImage(dto.image, "doctor", id, clock.stamp);
      && (image.Failure? ==> db.doctors == old(db.doctors) + [row] && r == BadRequest(image.error))
      && (image.Success? ==>
            db.doctors == old(db.doctors) + [row.(imageUrl := image.value)]
            && r == Ok("Doctor registered successfully", DoctorView(row.(imageUrl := image.value))))
    ensures db.admins == old(db.admins) && db.patients == old(db.patients) && db.histories == old(db.histories)
  {
    var error := DoctorRegistrationError(db.State(), dto, validEmail);
    if error.Some? {
      return BadRequest(error.value);
    }
    AnyIffFirstWhere(db.doctors, DoctorWithEmail(dto.email));
    var age := AgeInYears(dto.birthDate.value, clock.today);
    var doctor := Doctor(0, dto.firstName, dto.lastName, dto.gender, dto.birthDate, age, dto.specialty, dto.email, h.hash(dto.password), None);
    var id := db.AddDoctor(doctor);
    doctor := doctor.(id := id);
    var image := SaveImage(dto.image, "doctor", id, clock.stamp);
    if image.Failure? {
      // the doctor row is already saved; only the picture is refused
      return BadRequest(image.error);
    }
    var k := |db.doctors| - 1;
    DistinctFromOthers(db.doctors, k, DoctorEmail);
    doctor := doctor.(imageUrl := image.value);
    db.SetDoctor(k, doctor);
    r := Ok("Doctor registered successfully", DoctorView(doctor));
  }

  // ---------------------------------------------------------------------
  // RegisterPatient

  /**
    The first check RegisterPatient fails, if any. The BirthDate == default
    test compares a DateTime? with null, which the first check has already
    excluded, so its message is never produced.
   */
  function PatientRegistrationError(s: Store, dto: PatientDto, validEmail: string -> bool, h: Hasher): Option<string> {
    if dto.firstName == "" || dto.lastName == "" || dto.gender == "" || dto.birthDate.None?
      || dto.email == "" || dto.password == "" || dto.doctorId <= 0 || dto.diagnosis == "" || dto.treatment == "" then Some(PatientFieldsRequired)
    else if !validEmail(dto.email) then Some(InvalidEmailFormat)
    else if FindDoctor(s.doctors, dto.doctorId).None? then Some(DoctorNotFound)
    else if dto.birthDate.None? then Some(InvalidBirthDate)
    else
      match FindPatientByEmail(s.patients, dto.email)
      case None => None
      case Some(k) =>
        if !h.verify(dto.password, s.patients[k].passwordHash) then Some(WrongPatientPassword)
        else if s.patients[k].id != 0 && FindHistory(s.histories, s.patients[k].id, dto.doctorId).Some? then Some(HistoryExists)
        else None
  }

  /**
    For every registration, first or repeated: a missing field is refused
    first, then a malformed email, then a doctor id no doctor has; the
    "Invalid BirthDate" answer is never given, and an accepted form names
    an existing doctor.
   */
  lemma PatientRegistrationChecks(s: Store, dto: PatientDto, validEmail: string -> bool, h: Hasher)
    ensures PatientRegistrationError(s, dto, validEmail, h) == Some(PatientFieldsRequired) <==>
      (dto.firstName == "" || dto.lastName == "" || dto.gender == "" || dto.birthDate.None?
       || dto.email == "" || dto.password == "" || dto.doctorId <= 0 || dto.diagnosis == "" || dto.treatment == "")
    ensures PatientRegistrationError(s, dto, validEmail, h) == Some(DoctorNotFound) <==>
      (PatientRegistrationError(s, dto, validEmail, h) != Some(PatientFieldsRequired) && validEmail(dto.email)
       && forall i :: 0 <= i < |s.doctors| ==> s.doctors[i].id != dto.doctorId)
    ensures PatientRegistrationError(s, dto, validEmail, h) != Some(InvalidBirthDate)
    ensures PatientRegistrationError(s, dto, validEmail, h).None? ==>
      validEmail(dto.email) && dto.birthDate.Some? && FindDoctor(s.doctors, dto.doctorId).Some?
  {
  }

  /**
    An existing patient email needs a password that verifies against the
    stored hash, and a second history with the same doctor is refused.
   */
  lemma PatientRegistrationRules(s: Store, dto: PatientDto, validEmail: string -> bool, h: Hasher, k: nat)
    requires Consistent(s)
    requires k < |s.patients| && s.patients[k].email == dto.email
    ensures PatientRegistrationError(s, dto, validEmail, h).None? ==>
      h.verify(dto.password, s.patients[k].passwordHash)
      && FindHistory(s.histories, s.patients[k].id, dto.doctorId).None?
    ensures PatientRegistrationError(s, dto, validEmail, h).None? ==>
      forall i :: 0 <= i < |s.histories| ==> HistoryPair(s.histories[i]) != (s.patients[k].id, dto.doctorId)
  {
    var found := FindPatientByEmail(s.patients, dto.email);
    assert PatientEmail(s.patients[found.value]) == PatientEmail(s.patients[k]);
    assert found == Some(k);
    assert PatientId(s.patients[k]) > 0;
  }

  /**
    The patient row RegisterPatient saves before the images: the row that
    already has the email, with its age and blood type refreshed, or else a
    new row with the next identity value nextId.
   */
  function RegisteredRow(s: Store, dto: PatientDto, h: Hasher, clock: Clock, nextId: int): Patient
    requires dto.birthDate.Some?
  {
    var age := AgeInYears(dto.birthDate.value, clock.today);
    var bloodType := dto.bloodType.GetOr("A+");
    match FindPatientByEmail(s.patients, dto.email)
    case Some(k) => s.patients[k].(age := age, bloodType := bloodType)
    case None =>
      Patient(nextId, dto.firstName, dto.lastName, dto.gender, dto.birthDate, age, bloodType, dto.email,
        h.hash(dto.password), None, None, None, clock.now)
  }

  /** The patients table with p saved under its email: in place of the row holding it, or appended. */
  function PutPatient(patients: seq<Patient>, p: Patient): (r: seq<Patient>)
    ensures FindPatientByEmail(patients, p.email).Some? ==> |r| == |patients|
    ensures FindPatientByEmail(patients, p.email).None? ==> |r| == |patients| + 1
    ensures p in r
    ensures forall i :: 0 <= i < |patients| && patients[i].email != p.email ==> r[i] == patients[i]
  {
    match FindPatientByEmail(patients, p.email)
    case Some(k) => assert patients[k := p][k] == p; patients[k := p]
    case None => assert (patients + [p])[|patients|] == p; patients + [p]
  }

  /** The three image URLs written into a patient row, null ones included. */
  function WithImageUrls(p: Patient, urls: PatientImageUrls): Patient {
    p.(imageUrl := urls.image, xRayImageUrl := urls.xRay, labResultsImageUrl := urls.labResults)
  }

  /**
    A registration that passes its checks finds or creates the patient
    under the form's email, keeps the existing row's id and password, and
    links it with the form's doctor for the first time.
   */
  lemma RegisteredRowRules(s: Store, dto: PatientDto, validEmail: string -> bool, h: Hasher, clock: Clock, nextId: int)
    requires Consistent(s) && nextId > 0
    requires forall i :: 0 <= i < |s.patients| ==> s.patients[i].id < nextId
    requires forall i :: 0 <= i < |s.histories| ==> s.histories[i].patientId in Select(s.patients, PatientId)
    requires PatientRegistrationError(s, dto, validEmail, h).None?
    ensures var row := RegisteredRow(s, dto, h, clock, nextId);
      && row.email == dto.email && row.id > 0
      && row.age == AgeInYears(dto.birthDate.value, clock.today)
      && (dto.bloodType.None? ==> row.bloodType == "A+")
      && (dto.bloodType.Some? ==> row.bloodType == dto.bloodType.value)
      && (FindPatientByEmail(s.patients, dto.email).None? ==> row.id == nextId && row.passwordHash == h.hash(dto.password))
      && (forall k :: 0 <= k < |s.patients| && s.patients[k].email == dto.email ==>
            row.id == s.patients[k].id && row.passwordHash == s.patients[k].passwordHash && h.verify(dto.password, row.passwordHash))
      && FindHistory(s.histories, row.id, dto.doctorId).None?
  {
    var row := RegisteredRow(s, dto, h, clock, nextId);
    var found := FindPatientByEmail(s.patients, dto.email);
    if found.Some? {
      forall k | 0 <= k < |s.patients| && s.patients[k].email == dto.email
        ensures k == found.value
      {
        assert PatientEmail(s.patients[found.value]) == PatientEmail(s.patients[k]);
      }
      assert PatientId(s.patients[found.value]) > 0;
    } else {
      forall i | 0 <= i < |s.histories|
        ensures s.histories[i].patientId != nextId
      {
        var j :| 0 <= j < |s.patients| && Select(s.patients, PatientId)[j] == s.histories[i].patientId;
      }
    }
  }

  /** Saving over the row just saved under the same email is saving the last row alone. */
  lemma PutPatientOverwrite(patients: seq<Patient>, row: Patient, final: Patient, k: nat)
    requires final.email == row.email
    requires k == (match FindPatientByEmail(patients, row.email) case Some(j) => j case None => |patients|)
    ensures k < |PutPatient(patients, row)|
    ensures PutPatient(patients, row)[k := final] == PutPatient(patients, final)
  {
  }

  /** Saves the patient row of a registration that passed its checks; k is where it now stands. */
  method SaveRegisteredRow(db: Database, dto: PatientDto, validEmail: string -> bool, h: Hasher, clock: Clock) returns (k: nat)
    requires db.Valid()
    requires PatientRegistrationError(db.State(), dto, validEmail, h).None?
    modifies db
    ensures db.Valid()
    ensures var row := RegisteredRow(old(db.State()), dto, h, clock, old(db.nextPatientId));
      && k == (match FindPatientByEmail(old(db.patients), dto.email) case Some(j) => j case None => |old(db.patients)|)
      && k < |db.patients| && db.patients[k] == row
      && db.patients == PutPatient(old(db.patients), row)
      && FindHistory(db.histories, row.id, dto.doctorId).None?
    ensures db.admins == old(db.admins) && db.doctors == old(db.doctors) && db.histories == old(db.histories)
    ensures db.nextHistoryId == old(db.nextHistoryId)
  {
    RegisteredRowRules(db.State(), dto, validEmail, h, clock, db.nextPatientId);
    var row := RegisteredRow(db.State(), dto, h, clock, db.nextPatientId);
    var found := FindPatientByEmail(db.patients, dto.email);
    if found.None? {
      var _ := db.AddPatient(row);
      k := |db.patients| - 1;
    } else {
      k := found.value;
      DistinctFromOthers(db.patients, k, PatientEmail);
      db.SetPatient(k, row);
    }
  }

  /** Adds the history linking the patient at k with the doctor, and returns it. */
  method LinkHistory(db: Database, k: nat, doctorId: int, diagnosis: string, treatment: string, now: Instant) returns (history: PatientHistory)
    requires db.Valid()
    requires k < |db.patients| && FindDoctor(db.doctors, doctorId).Some?
    requires FindHistory(db.histories, db.patients[k].id, doctorId).None?
    modifies db
    ensures db.Valid()
    ensures history == PatientHistory(old(db.nextHistoryId), old(db.patients)[k].id, doctorId, diagnosis, treatment, now)
    ensures db.histories == old(db.histories) + [history]
    ensures db.admins == old(db.admins) && db.doctors == old(db.doctors) && db.patients == old(db.patients)
  {
    var doctorIndex := FindDoctor(db.doctors, doctorId).value;
    assert Select(db.doctors, DoctorId)[doctorIndex] == doctorId;
    var id := db.patients[k].id;
    assert Select(db.patients, PatientId)[k] == id;
    var historyId := db.AddHistory(id, doctorId, diagnosis, treatment, now);
    history := PatientHistory(historyId, id, doctorId, diagnosis, treatment, now);
  }

  /** Writes the image URLs into the patient row at k. */
  method AttachImages(db: Database, k: nat, urls: PatientImageUrls)
    requires db.Valid() && k < |db.patients|
    modifies db
    ensures db.Valid()
    ensures db.patients == old(db.patients)[k := WithImageUrls(old(db.patients)[k], urls)]
    ensures db.admins == old(db.admins) && db.doctors == old(db.doctors) && db.histories == old(db.histories)
  {
    DistinctFromOthers(db.patients, k, PatientEmail);
    db.SetPatient(k, WithImageUrls(db.patients[k], urls));
  }

  method RegisterPatient(db: Database, dto: PatientDto, validEmail: string -> bool, h: Hasher, clock: Clock) returns (r: Response<PatientResponse>)
    requires db.Valid()
    modifies db
    ensures db.Valid()
    ensures PatientRegistrationError(old(db.State()), dto, validEmail, h).Some? ==>
      r == BadRequest(PatientRegistrationError(old(db.State()), dto, validEmail, h).value) && db.State() == old(db.State())
    ensures PatientRegistrationError(old(db.State()), dto, validEmail, h).None? ==>
      var row := RegisteredRow(old(db.State()), dto, h, clock, old(db.nextPatientId));
      var history := PatientHistory(old(db.nextHistoryId), row.id, dto.doctorId, dto.diagnosis, dto.treatment, clock.now);
      var images := PatientImages(dto.image, dto.xRayImage, dto.labResultsImage, row.id, clock.stamp);
      var final := if images.Success? then WithImageUrls(row, images.value) else row;
      && db.histories == old(db.histories) + [history]
      && db.patients == PutPatient(old(db.patients), final)
      && r == (if images.Failure? then BadRequest(images.error)
               else Ok("Patient registered successfully", PatientView(final, [TreatmentOf(old(db.doctors))(history)])))
    ensures db.admins == old(db.admins) && db.doctors == old(db.doctors)
  {
    var error := PatientRegistrationError(db.State(), dto, validEmail, h);
    if error.Some? {
      return BadRequest(error.value);
    }
    r := SavePatientRegistration(db, dto, validEmail, h, clock);
  }

  /** The saving half of a patient registration that passed its checks. */
  method SavePatientRegistration(db: Database, dto: PatientDto, validEmail: string -> bool, h: Hasher, clock: Clock) returns (r: Response<PatientResponse>)
    requires db.Valid()
    requires PatientRegistrationError(db.State(), dto, validEmail, h).None?
    modifies db
    ensures db.Valid()
    ensures var row := RegisteredRow(old(db.State()), dto, h, clock, old(db.nextPatientId));
      var history := PatientHistory(old(db.nextHistoryId), row.id, dto.doctorId, dto.diagnosis, dto.treatment, clock.now);
      var images := PatientImages(dto.image, dto.xRayImage, dto.labResultsImage, row.id, clock.stamp);
      var final := if images.Success? then WithImageUrls(row, images.value) else row;
      && db.histories == old(db.histories) + [history]
      && db.patients == PutPatient(old(db.patients), final)
      && r == (if images.Failure? then BadRequest(images.error)
               else Ok("Patient registered successfully", PatientView(final, [TreatmentOf(old(db.doctors))(history)])))
    ensures db.admins == old(db.admins) && db.doctors == old(db.doctors)
  {
    ghost var patients0 := db.patients;
    ghost var row := RegisteredRow(db.State(), dto, h, clock, db.nextPatientId);
    var k := SaveRegisteredRow(db, dto, validEmail, h, clock);
    var history := LinkHistory(db, k, dto.doctorId, dto.diagnosis, dto.treatment, clock.now);
    var images := PatientImages(dto.image, dto.xRayImage, dto.labResultsImage, db.patients[k].id, clock.stamp);
    if images.Failure? {
      // the patient and the history are already saved; only the pictures are refused
      return BadRequest(images.error);
    }
    AttachImages(db, k, images.value);
    PutPatientOverwrite(patients0, row, WithImageUrls(row, images.value), k);
    r := Ok("Patient registered successfully", PatientView(db.patients[k], [TreatmentOf(db.doctors)(history)]));
  }

  // ---------------------------------------------------------------------
  // Login

  /**
    Login: the admins are asked first, then the doctors, then the patients;
    the first kind that has the email decides, and a wrong password there is
    refused without looking further.
   */
  function Login(s: Store, dto: LoginDto, h: Hasher): Response<LoginResult> {
    if dto.email == "" || dto.password == "" then BadRequest(AdminFieldsRequired)
    else
      match FindAdminByEmail(s.admins, dto.email)
      case Some(k) =>
        var a := s.admins[k];
        if !h.verify(dto.password, a.passwordHash) then BadRequest(InvalidCredentials)
        else Ok("Login successful", LoginResult("admin", a.id, true, TokenClaims(a.email, "admin", a.id, true)))
      case None =>
        match FindDoctorByEmail(s.doctors, dto.email)
        case Some(k) =>
          var d := s.doctors[k];
          if !h.verify(dto.password, d.passwordHash) then BadRequest(InvalidCredentials)
          else Ok("Login successful", LoginResult("doctor", d.id, false, TokenClaims(d.email, "doctor", d.id, false)))
        case None =>
          match FindPatientByEmail(s.patients, dto.email)
          case Some(k) =>
            var p := s.patients[k];
            if !h.verify(dto.password, p.passwordHash) then BadRequest(InvalidCredentials)
            else Ok("Login successful", LoginResult("patient", p.id, false, TokenClaims(p.email, "patient", p.id, false)))
          case None => BadRequest(InvalidCredentials)
  }

  /**
    With both fields given, a login fails only with "Invalid email or
    password", whether the email is unknown or the password wrong; it
    succeeds exactly when the first kind holding the email verifies the
    password.
   */
  lemma LoginOutcome(s: Store, dto: LoginDto, h: Hasher)
    requires dto.email != "" && dto.password != ""
    ensures !Login(s, dto, h).Ok? ==> Login(s, dto, h) == BadRequest(InvalidCredentials)
    ensures !HasAccount(s, dto.email) ==> Login(s, dto, h) == BadRequest(InvalidCredentials)
    ensures Login(s, dto, h).Ok? <==>
      match FindAdminByEmail(s.admins, dto.email)
      case Some(k) => h.verify(dto.password, s.admins[k].passwordHash)
      case None =>
        match FindDoctorByEmail(s.doctors, dto.email)
        case Some(k) => h.verify(dto.password, s.doctors[k].passwordHash)
        case None =>
          match FindPatientByEmail(s.patients, dto.email)
          case Some(k) => h.verify(dto.password, s.patients[k].passwordHash)
          case None => false
  {
  }

  /**
    What a successful login returns: role "admin" with isAdmin true, or
    "doctor" or "patient" with isAdmin false; the id of a row of that kind
    holding the email; and a token carrying the same email, role, id and
    flag.
   */
  lemma LoginResultMatchesClaims(s: Store, dto: LoginDto, h: Hasher)
    requires Login(s, dto, h).Ok?
    ensures var b := Login(s, dto, h).body;
      && (b.role == "admin" || b.role == "doctor" || b.role == "patient")
      && (b.isAdmin <==> b.role == "admin")
      && b.token == TokenClaims(dto.email, b.role, b.userId, b.isAdmin)
      && (b.role == "admin" ==> exists i :: 0 <= i < |s.admins| && s.admins[i].id == b.userId && s.admins[i].email == dto.email)
      && (b.role == "doctor" ==> exists i :: 0 <= i < |s.doctors| && s.doctors[i].id == b.userId && s.doctors[i].email == dto.email)
      && (b.role == "patient" ==> exists i :: 0 <= i < |s.patients| && s.patients[i].id == b.userId && s.patients[i].email == dto.email)
  {
    match FindAdminByEmail(s.admins, dto.email)
    case Some(k) =>
    case None =>
      match FindDoctorByEmail(s.doctors, dto.email)
      case Some(k) =>
      case None =>
        var k := FindPatientByEmail(s.patients, dto.email).value;
  }

  /** An admin registered with a password logs in with it, as admin. */
  lemma RegisteredAdminLogsIn(s: Store, k: nat, password: string, h: Hasher)
    requires Consistent(s) && Sound(h)
    requires k < |s.admins| && s.admins[k].email != "" && password != ""
    requires s.admins[k].passwordHash == h.hash(password)
    ensures Login(s, LoginDto(s.admins[k].email, password), h) ==
      Ok("Login successful", LoginResult("admin", s.admins[k].id, true, TokenClaims(s.admins[k].email, "admin", s.admins[k].id, true)))
  {
    var found := FindAdminByEmail(s.admins, s.admins[k].email);
    assert AdminEmail(s.admins[found.value]) == AdminEmail(s.admins[k]);
    assert found == Some(k);
  }

  // ---------------------------------------------------------------------
  // RequestPasswordReset

  method RequestPasswordReset(db: Database, codes: ResetCodeStore, dto: PasswordResetRequestDto, validEmail: string -> bool,
                              b0: byte, b1: byte, b2: byte, b3: byte, now: Instant, delivered: bool) returns (r: Response<()>)
    modifies codes
    ensures dto.email == "" ==> r == BadRequest("Email is required") && codes.codes == old(codes.codes)
    ensures dto.email != "" && !validEmail(dto.email) ==> r == BadRequest(InvalidEmailFormat) && codes.codes == old(codes.codes)
    ensures dto.email != "" && validEmail(dto.email) && !HasAccount(db.State(), dto.email) ==>
      r == NotFound(EmailNotFound) && codes.codes == old(codes.codes)
    ensures dto.email != "" && validEmail(dto.email) && HasAccount(db.State(), dto.email) ==>
      && codes.codes == Stored(old(codes.codes), dto.email, GenerateResetCode(b0, b1, b2, b3), ResetCodeLifetime, now)
      && r == (if delivered then Ok("Password reset code sent to your email", ()) else ServerError("Failed to send reset code email. Please try again.", None))
  {
    if dto.email == "" {
      return BadRequest("Email is required");
    }
    if !validEmail(dto.email) {
      return BadRequest(InvalidEmailFormat);
    }
    var admin := FindAdminByEmail(db.admins, dto.email);
    var doctor := FindDoctorByEmail(db.doctors, dto.email);
    var patient := FindPatientByEmail(db.patients, dto.email);
    if admin.None? && doctor.None? && patient.None? {
      return NotFound(EmailNotFound);
    }
    var resetCode := GenerateResetCode(b0, b1, b2, b3);
    codes.StoreCode(dto.email, resetCode, ResetCodeLifetime, now);
    // the code is stored before the mail goes out, and stays stored if it fails
    if !delivered {
      return ServerError("Failed to send reset code email. Please try again.", None);
    }
    r := Ok("Password reset code sent to your email", ());
  }

  /** Whatever happens to the mail, the code just issued is then accepted for fifteen minutes. */
  lemma IssuedCodeAccepted(codes: map<string, CodeEntry>, email: string, b0: byte, b1: byte, b2: byte, b3: byte, now: Instant, t: Instant)
    requires now <= t <= now + ResetCodeLifetime
    ensures Check(Stored(codes, email, GenerateResetCode(b0, b1, b2, b3), ResetCodeLifetime, now), email, GenerateResetCode(b0, b1, b2, b3), t) == Validation(true, false)
  {
  }

  // ---------------------------------------------------------------------
  // ResetPassword

  /** The tables after a reset: the hash of the first admin, else doctor, else patient with the email is replaced. */
  function WithPassword(s: Store, email: string, hash: string): Store {
    match FindAdminByEmail(s.admins, email)
    case Some(k) => s.(admins := s.admins[k := s.admins[k].(passwordHash := hash)])
    case None =>
      match FindDoctorByEmail(s.doctors, email)
      case Some(k) => s.(doctors := s.doctors[k := s.doctors[k].(passwordHash := hash)])
      case None =>
        match FindPatientByEmail(s.patients, email)
        case Some(k) => s.(patients := s.patients[k := s.patients[k].(passwordHash := hash)])
        case None => s
  }

  /**
    A reset replaces one password hash and nothing else: the tables keep
    their sizes, every row keeps its id and email, and rows of other emails
    are untouched.
   */
  lemma WithPasswordChangesOnlyTheHash(s: Store, email: string, hash: string)
    ensures var t := WithPassword(s, email, hash);
      && |t.admins| == |s.admins| && |t.doctors| == |s.doctors| && |t.patients| == |s.patients|
      && t.histories == s.histories
      && (forall i :: 0 <= i < |s.admins| ==> t.admins[i] == s.admins[i] || t.admins[i] == s.admins[i].(passwordHash := hash))
      && (forall i :: 0 <= i < |s.doctors| ==> t.doctors[i] == s.doctors[i] || t.doctors[i] == s.doctors[i].(passwordHash := hash))
      && (forall i :: 0 <= i < |s.patients| ==> t.patients[i] == s.patients[i] || t.patients[i] == s.patients[i].(passwordHash := hash))
      && (forall i :: 0 <= i < |s.admins| && s.admins[i].email != email ==> t.admins[i] == s.admins[i])
      && (forall i :: 0 <= i < |s.doctors| && s.doctors[i].email != email ==> t.doctors[i] == s.doctors[i])
      && (forall i :: 0 <= i < |s.patients| && s.patients[i].email != email ==> t.patients[i] == s.patients[i])
      && (!HasAccount(s, email) ==> t == s)
  {
  }

  /** After a reset the new password logs in with the email, under a sound hasher. */
  lemma ResetPasswordThenLogin(s: Store, email: string, password: string, h: Hasher)
    requires Sound(h)
    requires HasAccount(s, email) && email != "" && password != ""
    ensures Login(WithPassword(s, email, h.hash(password)), LoginDto(email, password), h).Ok?
  {
    var hash := h.hash(password);
    assert h.verify(password, hash);
    match FindAdminByEmail(s.admins, email)
    case Some(k) =>
      FirstWhereUpdateAlike(s.admins, k, s.admins[k].(passwordHash := hash), AdminWithEmail(email));
    case None =>
      match FindDoctorByEmail(s.doctors, email)
      case Some(k) =>
        FirstWhereUpdateAlike(s.doctors, k, s.doctors[k].(passwordHash := hash), DoctorWithEmail(email));
      case None =>
        var k := FindPatientByEmail(s.patients, email).value;
        FirstWhereUpdateAlike(s.patients, k, s.patients[k].(passwordHash := hash), PatientWithEmail(email));
  }

  /** After a successful reset the code is gone: the same code is refused next time, as unknown rather than expired. */
  lemma ResetCodeSingleUse(codes: map<string, CodeEntry>, email: string, code: string, t: Instant)
    ensures Check(Removed(codes, email), email, code, t) == Validation(false, false)
  {
  }

  /** Saves the new hash on the row WithPassword picks. */
  method SavePasswordHash(db: Database, email: string, hash: string)
    requires db.Valid()
    modifies db
    ensures db.Valid()
    ensures db.State() == WithPassword(old(db.State()), email, hash)
  {
    var admin := FindAdminByEmail(db.admins, email);
    var doctor := FindDoctorByEmail(db.doctors, email);
    var patient := FindPatientByEmail(db.patients, email);
    if admin.Some? {
      var k := admin.value;
      db.SetAdmin(k, db.admins[k].(passwordHash := hash));
    } else if doctor.Some? {
      var k := doctor.value;
      DistinctFromOthers(db.doctors, k, DoctorEmail);
      db.SetDoctor(k, db.doctors[k].(passwordHash := hash));
    } else if patient.Some? {
      var k := patient.value;
      DistinctFromOthers(db.patients, k, PatientEmail);
      db.SetPatient(k, db.patients[k].(passwordHash := hash));
    }
  }

  method ResetPassword(db: Database, codes: ResetCodeStore, dto: PasswordResetDto, h: Hasher, now: Instant) returns (r: Response<()>)
    requires db.Valid()
    modifies db, codes
    ensures db.Valid()
    ensures dto.email == "" || dto.resetCode == "" || dto.newPassword == "" ==>
      r == BadRequest("Email, reset code, and new password are required")
      && db.State() == old(db.State()) && codes.codes == old(codes.codes)
    ensures dto.email != "" && dto.resetCode != "" && dto.newPassword != "" ==>
      var check := Check(old(codes.codes), dto.email, dto.resetCode, now);
      && (!check.valid ==>
            r == BadRequest(if check.isExpired then "Reset code has expired" else "Invalid reset code")
            && db.State() == old(db.State()) && codes.codes == AfterCheck(old(codes.codes), dto.email, now))
      && (check.valid && !HasAccount(old(db.State()), dto.email) ==>
            r == NotFound(EmailNotFound) && db.State() == old(db.State()) && codes.codes == old(codes.codes))
      && (check.valid && HasAccount(old(db.State()), dto.email) ==>
            r == Ok("Password reset successfully", ())
            && db.State() == WithPassword(old(db.State()), dto.email, h.hash(dto.newPassword))
            && codes.codes == Removed(old(codes.codes), dto.email))
  {
    if dto.email == "" || dto.resetCode == "" || dto.newPassword == "" {
      return BadRequest("Email, reset code, and new password are required");
    }
    var valid, isExpired := codes.ValidateCode(dto.email, dto.resetCode, now);
    if !valid {
      if isExpired {
        return BadRequest("Reset code has expired");
      }
      return BadRequest("Invalid reset code");
    }
    var admin := FindAdminByEmail(db.admins, dto.email);
    var doctor := FindDoctorByEmail(db.doctors, dto.email);
    var patient := FindPatientByEmail(db.patients, dto.email);
    if admin.None? && doctor.None? && patient.None? {
      return NotFound(EmailNotFound);
    }
    SavePasswordHash(db, dto.email, h.hash(dto.newPassword));
    // the hash is saved first, and only then is the code removed
    codes.RemoveCode(dto.email);
    r := Ok("Password reset successfully", ());
  }
}
