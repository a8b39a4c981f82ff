/**
  UpdateController: partial updates and deletions of doctors and patients
  by an admin, and of a doctor's own patients by that doctor. Each
  endpoint's checks and the row it would save are a pure function of the
  tables and the request (the Update functions below); the endpoint
  methods save that row, or report the function's error and save nothing.
 */
module UpdateController {
  import opened Wrappers
  import opened Text
  import opened Numbers
  import opened Linq
  import opened Dates
  import opened Models
  import opened Data
  import opened AuthRules
  import opened Dtos
  import AuthController

  // ---------------------------------------------------------------------
  // Images, as ImageService.SaveImageAsync stores them

  const ServiceImageExtensions: seq<string> := [".jpg", ".jpeg", ".png"]

  /** Every refusal of the image service is rethrown under this one message. */
  const ImageSaveFailed: string := "Failed to save image."

  /** "/images/{entityType}/{entityType}_{id}_{guid}{extension}" */
  function ServiceImageUrl(entityType: string, id: int, guid: string, extension: string): string {
    "/images/" + entityType + "/" + entityType + "_" + IntToString(id) + "_" + guid + extension
  }

  /**
    ImageService.SaveImageAsync(image, entityType, id, existing): an empty
    file or one not named .jpg, .jpeg or .png (in any case) is refused; any
    other is stored under a fresh name made from guid.
   */
  function ServiceSaveImage(u: Upload, entityType: string, id: int, guid: string): Result<string, string> {
    var extension := Lower(GetExtension(u.fileName));
    if u.length == 0 || extension !in ServiceImageExtensions then Failure(ImageSaveFailed)
    else Success(ServiceImageUrl(entityType, id, guid, extension))
  }

  /**
    The service stores exactly the non-empty JPG, JPEG and PNG files, with
    no limit on size, and the stored URL keeps the file's extension.
   */
  lemma ServiceImageGate(u: Upload, entityType: string, id: int, guid: string)
    ensures ServiceSaveImage(u, entityType, id, guid).Success? <==>
      u.length > 0 && Lower(GetExtension(u.fileName)) in ServiceImageExtensions
    ensures ServiceSaveImage(u, entityType, id, guid).Failure? ==> ServiceSaveImage(u, entityType, id, guid).error == ImageSaveFailed
    ensures ServiceSaveImage(u, entityType, id, guid).Success? ==>
      GetExtension(ServiceSaveImage(u, entityType, id, guid).value) == Lower(GetExtension(u.fileName))
  {
    var extension := Lower(GetExtension(u.fileName));
    if u.length > 0 && extension in ServiceImageExtensions {
      assert |extension| > 0 && |extension| == |GetExtension(u.fileName)|;
      var stem := "/images/" + entityType + "/" + entityType + "_" + IntToString(id) + "_" + guid;
      assert ServiceImageUrl(entityType, id, guid, extension) == stem + extension;
      LoweredExtensionAppended(u.fileName, stem);
    }
  }

  /** A GIF that registration stores is refused by an update. */
  lemma GifOnlyAtRegistration(prefix: string, entityType: string, id: int, stamp: string, guid: string)
    ensures SaveImage(Some(Upload(10, "a.gif")), prefix, id, stamp).Success?
    ensures ServiceSaveImage(Upload(10, "a.gif"), entityType, id, guid).Failure?
  {
    assert ExtensionShaped(".gif") && "a" + ".gif" == "a.gif";
    ExtensionOfAppended("a", ".gif");
    LowerOfLiteral(".gif", ".gif");
    assert Lower(GetExtension("a.gif")) == AllowedImageExtensions[3];
  }

  /** A JPG over 5 MB that registration refuses is stored by an update. */
  lemma LargeJpgOnlyAtUpdate(prefix: string, entityType: string, id: int, stamp: string, guid: string)
    ensures SaveImage(Some(Upload(MaxImageSize + 1, "a.jpg")), prefix, id, stamp) == Failure(FileTooLarge)
    ensures ServiceSaveImage(Upload(MaxImageSize + 1, "a.jpg"), entityType, id, guid).Success?
  {
    assert ExtensionShaped(".jpg") && "a" + ".jpg" == "a.jpg";
    ExtensionOfAppended("a", ".jpg");
    LowerOfLiteral(".jpg", ".jpg");
    assert Lower(GetExtension("a.jpg")) == ServiceImageExtensions[0];
  }

  /** One optional picture of an update: no file keeps the current URL, a file is stored or refused. */
  function SavedImage(current: Option<string>, upload: Option<Upload>, entityType: string, id: int, guid: string): Result<Option<string>, string> {
    match upload
    case None => Success(current)
    case Some(u) =>
      match ServiceSaveImage(u, entityType, id, guid)
      case Failure(e) => Failure(e)
      case Success(url) => Success(Some(url))
  }

  /** The fresh names the image service draws for the photo, the X-ray and the lab results. */
  datatype Guids = Guids(image: string, xRay: string, labResults: string)

  /** The three pictures of a patient update, in order; the first refusal ends the update. */
  function PatientUploads(p: Patient, dto: PatientUpdateDto, id: int, guids: Guids): (r: Result<Patient, string>)
    ensures r.Success? ==> r.value.(imageUrl := p.imageUrl, xRayImageUrl := p.xRayImageUrl, labResultsImageUrl := p.labResultsImageUrl) == p
    ensures r.Failure? ==> r.error == ImageSaveFailed
  {
    var a := SavedImage(p.imageUrl, dto.image, "patient", id, guids.image);
    if a.Failure? then Failure(a.error)
    else
      var b := SavedImage(p.xRayImageUrl, dto.xRayImage, "patient-xray", id, guids.xRay);
      if b.Failure? then Failure(b.error)
      else
        var c := SavedImage(p.labResultsImageUrl, dto.labResultsImage, "patient-lab", id, guids.labResults);
        if c.Failure? then Failure(c.error)
        else Success(p.(imageUrl := a.value, xRayImageUrl := b.value, labResultsImageUrl := c.value))
  }

  /** Without files the pictures stay as they are; a sent file that is refused fails the whole update. */
  lemma PatientUploadsRules(p: Patient, dto: PatientUpdateDto, id: int, guids: Guids)
    ensures dto.image.None? && dto.xRayImage.None? && dto.labResultsImage.None? ==> PatientUploads(p, dto, id, guids) == Success(p)
    ensures dto.image.Some? && ServiceSaveImage(dto.image.value, "patient", id, guids.image).Failure? ==> PatientUploads(p, dto, id, guids).Failure?
    ensures dto.xRayImage.Some? && ServiceSaveImage(dto.xRayImage.value, "patient-xray", id, guids.xRay).Failure? ==> PatientUploads(p, dto, id, guids).Failure?
    ensures dto.labResultsImage.Some? && ServiceSaveImage(dto.labResultsImage.value, "patient-lab", id, guids.labResults).Failure? ==> PatientUploads(p, dto, id, guids).Failure?
    ensures PatientUploads(p, dto, id, guids).Success? && dto.image.None? ==> PatientUploads(p, dto, id, guids).value.imageUrl == p.imageUrl
    ensures PatientUploads(p, dto, id, guids).Success? && dto.image.Some? ==>
      PatientUploads(p, dto, id, guids).value.imageUrl == Some(ServiceSaveImage(dto.image.value, "patient", id, guids.image).value)
  {
  }

  // ---------------------------------------------------------------------
  // Field patches

  /** A string field of an update: an empty one keeps the current value. */
  function Patched(current: string, given: string): string {
    if given == "" then current else given
  }

  function PatchedDate(current: Option<Date>, given: Option<Date>): Option<Date> {
    if given.Some? then given else current
  }

  function PatchedHash(current: string, password: string, h: Hasher): string {
    if password == "" then current else h.hash(password)
  }

  /** The edits UpdateDoctor makes to the tracked row, apart from its picture. */
  function PatchDoctor(d: Doctor, dto: UpdateDoctorDto, h: Hasher): Doctor {
    d.(email := Patched(d.email, dto.email),
       firstName := Patched(d.firstName, dto.firstName),
       lastName := Patched(d.lastName, dto.lastName),
       gender := Patched(d.gender, dto.gender),
       birthDate := PatchedDate(d.birthDate, dto.birthDate),
       specialty := Patched(d.specialty, dto.specialty),
       passwordHash := PatchedHash(d.passwordHash, dto.password, h))
  }

  /** The edits both patient updates make to the tracked row, apart from its pictures. */
  function PatchPatient(p: Patient, dto: PatientUpdateDto, h: Hasher): Patient {
    p.(firstName := Patched(p.firstName, dto.firstName),
       lastName := Patched(p.lastName, dto.lastName),
       gender := Patched(p.gender, dto.gender),
       birthDate := PatchedDate(p.birthDate, dto.birthDate),
       email := Patched(p.email, dto.email),
       passwordHash := PatchedHash(p.passwordHash, dto.password, h))
  }

  /**
    A patch changes only the fields it supplies, to the values supplied,
    never the id, age, image URL or registration facts; an empty patch is
    the identity, and without a password a patch applied twice is applied
    once.
   */
  lemma DoctorPatchRules(d: Doctor, dto: UpdateDoctorDto, h: Hasher)
    ensures var e := PatchDoctor(d, dto, h);
      && e.id == d.id && e.age == d.age && e.imageUrl == d.imageUrl
      && (dto.email != "" ==> e.email == dto.email) && (dto.email == "" ==> e.email == d.email)
      && (dto.firstName != "" ==> e.firstName == dto.firstName) && (dto.firstName == "" ==> e.firstName == d.firstName)
      && (dto.specialty != "" ==> e.specialty == dto.specialty) && (dto.specialty == "" ==> e.specialty == d.specialty)
      && (dto.birthDate.Some? ==> e.birthDate == dto.birthDate) && (dto.birthDate.None? ==> e.birthDate == d.birthDate)
      && (dto.password != "" ==> e.passwordHash == h.hash(dto.password)) && (dto.password == "" ==> e.passwordHash == d.passwordHash)
    ensures (dto.email == "" && dto.firstName == "" && dto.lastName == "" && dto.gender == "" && dto.birthDate.None?
      && dto.specialty == "" && dto.password == "") ==> PatchDoctor(d, dto, h) == d
    ensures dto.password == "" ==> PatchDoctor(PatchDoctor(d, dto, h), dto, h) == PatchDoctor(d, dto, h)
  {
  }

  lemma PatientPatchRules(p: Patient, dto: PatientUpdateDto, h: Hasher)
    ensures var e := PatchPatient(p, dto, h);
      && e.id == p.id && e.age == p.age && e.bloodType == p.bloodType && e.createdAt == p.createdAt
      && e.imageUrl == p.imageUrl && e.xRayImageUrl == p.xRayImageUrl && e.labResultsImageUrl == p.labResultsImageUrl
      && (dto.email != "" ==> e.email == dto.email) && (dto.email == "" ==> e.email == p.email)
      && (dto.firstName != "" ==> e.firstName == dto.firstName) && (dto.firstName == "" ==> e.firstName == p.firstName)
      && (dto.birthDate.Some? ==> e.birthDate == dto.birthDate) && (dto.birthDate.None? ==> e.birthDate == p.birthDate)
      && (dto.password != "" ==> e.passwordHash == h.hash(dto.password)) && (dto.password == "" ==> e.passwordHash == p.passwordHash)
    ensures (dto.firstName == "" && dto.lastName == "" && dto.gender == "" && dto.birthDate.None?
      && dto.email == "" && dto.password == "") ==> PatchPatient(p, dto, h) == p
    ensures dto.password == "" ==> PatchPatient(PatchPatient(p, dto, h), dto, h) == PatchPatient(p, dto, h)
  {
  }

  // ---------------------------------------------------------------------
  // UpdateDoctor

  /** The doctor row UpdateDoctor saves, at its position in the table. */
  datatype DoctorEdit = DoctorEdit(index: nat, doctor: Doctor)

  /** The outcome of UpdateDoctor: the row to save, or the response refusing the update. */
  function DoctorUpdate(s: Store, id: int, dto: UpdateDoctorDto, h: Hasher, guid: string): Result<DoctorEdit, Response<DoctorResponse>> {
    match FindDoctor(s.doctors, id)
    case None => Failure(NotFound(AuthController.DoctorNotFound))
    case Some(k) =>
      var d := s.doctors[k];
      if dto.email != "" && dto.email != d.email && Any(s.doctors, DoctorWithEmail(dto.email)) then
        Failure(BadRequest(AuthController.EmailAlreadyExists))
      else
        var patched := PatchDoctor(d, dto, h);
        match dto.image
        case None => Success(DoctorEdit(k, patched))
        case Some(u) =>
          match ServiceSaveImage(u, "doctor", id, guid)
          case Failure(e) => Failure(BadRequest(e))
          case Success(url) => Success(DoctorEdit(k, patched.(imageUrl := Some(url))))
  }

  /**
    UpdateDoctor answers 404 exactly when no doctor has the id and refuses
    an email another doctor holds; what it saves replaces the row with that
    id, keeps the id, and leaves every email held by one doctor only.
   */
  lemma DoctorUpdateRules(s: Store, id: int, dto: UpdateDoctorDto, h: Hasher, guid: string)
    requires Consistent(s)
    ensures DoctorUpdate(s, id, dto, h, guid) == Failure(NotFound(AuthController.DoctorNotFound)) <==>
      forall i :: 0 <= i < |s.doctors| ==> s.doctors[i].id != id
    ensures ((exists i :: 0 <= i < |s.doctors| && s.doctors[i].id == id) && dto.email != ""
      && (exists j :: 0 <= j < |s.doctors| && s.doctors[j].id != id && s.doctors[j].email == dto.email)) ==>
      DoctorUpdate(s, id, dto, h, guid) == Failure(BadRequest(AuthController.EmailAlreadyExists))
    ensures DoctorUpdate(s, id, dto, h, guid).Success? ==>
      var e := DoctorUpdate(s, id, dto, h, guid).value;
      && e.index < |s.doctors| && s.doctors[e.index].id == id && e.doctor.id == id
      && (forall j :: 0 <= j < |s.doctors| && j != e.index ==> s.doctors[j].email != e.doctor.email)
  {
    match FindDoctor(s.doctors, id)
    case None =>
    case Some(k) =>
      AnyIffFirstWhere(s.doctors, DoctorWithEmail(dto.email));
      DistinctFromOthers(s.doctors, k, DoctorEmail);
      forall j | 0 <= j < |s.doctors| && s.doctors[j].id == id
        ensures j == k
      {
        DistinctFromOthers(s.doctors, k, DoctorId);
      }
  }

  method UpdateDoctor(db: Database, id: int, dto: UpdateDoctorDto, h: Hasher, guid: string) returns (r: Response<DoctorResponse>)
    requires db.Valid()
    modifies db
    ensures db.Valid()
    ensures var o := DoctorUpdate(old(db.State()), id, dto, h, guid);
      && (o.Failure? ==> r == o.error && db.State() == old(db.State()))
      && (o.Success? ==>
            db.doctors == old(db.doctors)[o.value.index := o.value.doctor]
            && r == Ok("Doctor updated successfully", DoctorListing(o.value.doctor)))
    ensures db.admins == old(db.admins) && db.patients == old(db.patients) && db.histories == old(db.histories)
  {
    var o := DoctorUpdate(db.State(), id, dto, h, guid);
    if o.Failure? {
      return o.error;
    }
    IncreasingIsDistinct(db.doctors, DoctorId);
    DoctorUpdateRules(db.State(), id, dto, h, guid);
    db.SetDoctor(o.value.index, o.value.doctor);
    r := Ok("Doctor updated successfully", DoctorListing(o.value.doctor));
  }

  // ---------------------------------------------------------------------
  // UpdatePatient

  const HistoryFieldsRequired: string := "DoctorId, Diagnosis, and Treatment must all be provided to update patient history"
  const TreatmentFieldsRequired: string := "Diagnosis and Treatment must both be provided to update patient history"
  const PatientNotFound: string := "Patient not found"

  /** Some patient other than the one with the id holds the email. */
  function PatientWithEmailBesides(email: string, id: int): Patient -> bool {
    (p: Patient) => p.email == email && p.id != id
  }

  /**
    The history an admin's patient update asks for: none when no doctor id
    above zero, diagnosis or treatment is given; otherwise all three must
    be given (a missing DoctorId passes that test, as a null int? is not
    <= 0, and then finds no doctor), the doctor must exist, and the pair
    must be new.
   */
  function HistoryAddition(s: Store, patientId: int, dto: PatientUpdateDto, nextId: int, now: Instant): Result<Option<PatientHistory>, string> {
    if !((dto.doctorId.Some? && dto.doctorId.value > 0) || dto.diagnosis != "" || dto.treatment != "") then Success(None)
    else if (dto.doctorId.Some? && dto.doctorId.value <= 0) || dto.diagnosis == "" || dto.treatment == "" then Failure(HistoryFieldsRequired)
    else if dto.doctorId.None? || FindDoctor(s.doctors, dto.doctorId.value).None? then Failure(AuthController.DoctorNotFound)
    else if FindHistory(s.histories, patientId, dto.doctorId.value).Some? then Failure(AuthController.HistoryExists)
    else Success(Some(PatientHistory(nextId, patientId, dto.doctorId.value, dto.diagnosis, dto.treatment, now)))
  }

  /**
    A history is added exactly when a doctor id above zero, a diagnosis
    and a treatment are all given, the doctor exists and the patient has no
    history with that doctor yet; giving only some of them is refused.
   */
  lemma HistoryAdditionRules(s: Store, patientId: int, dto: PatientUpdateDto, nextId: int, now: Instant)
    ensures var a := HistoryAddition(s, patientId, dto, nextId, now);
      (a.Success? && a.value.Some?) <==>
        dto.doctorId.Some? && dto.doctorId.value > 0 && dto.diagnosis != "" && dto.treatment != ""
        && (exists i :: 0 <= i < |s.doctors| && s.doctors[i].id == dto.doctorId.value)
        && (forall i :: 0 <= i < |s.histories| ==> s.histories[i].patientId != patientId || s.histories[i].doctorId != dto.doctorId.value)
    ensures var a := HistoryAddition(s, patientId, dto, nextId, now);
      a.Success? && a.value.Some? ==>
        a.value.value == PatientHistory(nextId, patientId, dto.doctorId.value, dto.diagnosis, dto.treatment, now)
    ensures (dto.diagnosis != "") != (dto.treatment != "") ==>
      HistoryAddition(s, patientId, dto, nextId, now) == Failure(HistoryFieldsRequired)
    ensures HistoryAddition(s, patientId, dto, nextId, now) == Success(None) <==>
      (dto.doctorId.None? || dto.doctorId.value <= 0) && dto.diagnosis == "" && dto.treatment == ""
  {
    if dto.doctorId.Some? && FindDoctor(s.doctors, dto.doctorId.value).Some? {
      var k := FindDoctor(s.doctors, dto.doctorId.value).value;
      assert s.doctors[k].id == dto.doctorId.value;
    }
  }

  /** The patient row an admin's update saves, at its position, with the history it adds. */
  datatype PatientEdit = PatientEdit(index: nat, patient: Patient, added: Option<PatientHistory>)

  /** The outcome of UpdatePatient: the edit to save, or the response refusing the update. */
  function PatientUpdate(s: Store, id: int, dto: PatientUpdateDto, h: Hasher, now: Instant, guids: Guids, nextHistoryId: int): (o: Result<PatientEdit, Response<PatientResponse>>)
    ensures o.Success? ==> o.value.index < |s.patients| && s.patients[o.value.index].id == id
  {
    match FindPatient(s.patients, id)
    case None => Failure(NotFound(PatientNotFound))
    case Some(k) =>
      if dto.email != "" && Any(s.patients, PatientWithEmailBesides(dto.email, id)) then
        Failure(BadRequest(AuthController.EmailAlreadyExists))
      else
        match HistoryAddition(s, s.patients[k].id, dto, nextHistoryId, now)
        case Failure(e) => Failure(BadRequest(e))
        case Success(added) =>
          match PatientUploads(PatchPatient(s.patients[k], dto, h), dto, id, guids)
          case Failure(e) => Failure(BadRequest(e))
          case Success(final) => Success(PatientEdit(k, final, added))
  }

  /**
    UpdatePatient answers 404 exactly when no patient has the id, and
    refuses an email another patient holds.
   */
  lemma PatientUpdateRules(s: Store, id: int, dto: PatientUpdateDto, h: Hasher, now: Instant, guids: Guids, nextHistoryId: int)
    requires Consistent(s)
    ensures PatientUpdate(s, id, dto, h, now, guids, nextHistoryId) == Failure(NotFound(PatientNotFound)) <==>
      forall i :: 0 <= i < |s.patients| ==> s.patients[i].id != id
    ensures ((exists i :: 0 <= i < |s.patients| && s.patients[i].id == id) && dto.email != ""
      && (exists j :: 0 <= j < |s.patients| && s.patients[j].id != id && s.patients[j].email == dto.email)) ==>
      PatientUpdate(s, id, dto, h, now, guids, nextHistoryId) == Failure(BadRequest(AuthController.EmailAlreadyExists))
  {
    match FindPatient(s.patients, id)
    case None =>
    case Some(k) =>
      AnyIffFirstWhere(s.patients, PatientWithEmailBesides(dto.email, id));
  }

  /**
    A successful UpdatePatient saves over the row with that id a row with
    the same id, age, blood type and creation time whose email no other
    patient holds, and adds the history the form asks for.
   */
  lemma PatientUpdateSavesOwnRow(s: Store, id: int, dto: PatientUpdateDto, h: Hasher, now: Instant, guids: Guids, nextHistoryId: int, e: PatientEdit)
    requires Consistent(s)
    requires PatientUpdate(s, id, dto, h, now, guids, nextHistoryId) == Success(e)
    ensures e.index < |s.patients| && s.patients[e.index].id == id
    ensures var p := s.patients[e.index];
      && e.patient.id == id && e.patient.age == p.age && e.patient.bloodType == p.bloodType && e.patient.createdAt == p.createdAt
      && (forall j :: 0 <= j < |s.patients| && j != e.index ==> s.patients[j].email != e.patient.email)
    ensures e.added == HistoryAddition(s, id, dto, nextHistoryId, now).value
  {
    var k := FindPatient(s.patients, id).value;
    AnyIffFirstWhere(s.patients, PatientWithEmailBesides(dto.email, id));
    DistinctFromOthers(s.patients, k, PatientEmail);
    DistinctFromOthers(s.patients, k, PatientId);
    if dto.email != "" {
      assert forall j :: 0 <= j < |s.patients| ==> !PatientWithEmailBesides(dto.email, id)(s.patients[j]);
    }
  }

  /** Adds the history an update asks for to the tables, if it asks for one. */
  method AddRequestedHistory(db: Database, added: Option<PatientHistory>)
    requires db.Valid()
    requires added.Some? ==>
      && added.value.id == db.nextHistoryId
      && added.value.patientId in Select(db.patients, PatientId) && added.value.doctorId in Select(db.doctors, DoctorId)
      && FindHistory(db.histories, added.value.patientId, added.value.doctorId).None?
    modifies db
    ensures db.Valid()
    ensures db.histories == old(db.histories) + (if added.Some? then [added.value] else [])
    ensures db.admins == old(db.admins) && db.doctors == old(db.doctors) && db.patients == old(db.patients)
  {
    if added.Some? {
      var a := added.value;
      var _ := db.AddHistory(a.patientId, a.doctorId, a.diagnosis, a.treatment, a.treatmentDate);
    }
  }

  method UpdatePatient(db: Database, id: int, dto: PatientUpdateDto, h: Hasher, now: Instant, guids: Guids) returns (r: Response<PatientResponse>)
    requires db.Valid()
    modifies db
    ensures db.Valid()
    ensures var o := PatientUpdate(old(db.State()), id, dto, h, now, guids, old(db.nextHistoryId));
      && (o.Failure? ==> r == o.error && db.State() == old(db.State()))
      && (o.Success? ==>
            && db.patients == old(db.patients)[o.value.index := o.value.patient]
            && db.histories == old(db.histories) + (if o.value.added.Some? then [o.value.added.value] else [])
            && r == Ok("Patient updated successfully", PatientView(o.value.patient, Department(db.doctors, HistoriesOf(db.State(), id)))))
    ensures db.admins == old(db.admins) && db.doctors == old(db.doctors)
  {
    var o := PatientUpdate(db.State(), id, dto, h, now, guids, db.nextHistoryId);
    if o.Failure? {
      return o.error;
    }
    var e := o.value;
    PatientUpdateSavesOwnRow(db.State(), id, dto, h, now, guids, db.nextHistoryId, e);
    if e.added.Some? {
      assert Select(db.patients, PatientId)[e.index] == id;
      HistoryAdditionRules(db.State(), id, dto, db.nextHistoryId, now);
      var j :| 0 <= j < |db.doctors| && db.doctors[j].id == dto.doctorId.value;
      assert Select(db.doctors, DoctorId)[j] == dto.doctorId.value;
    }
    AddRequestedHistory(db, e.added);
    db.SetPatient(e.index, e.patient);
    r := Ok("Patient updated successfully", PatientView(e.patient, Department(db.doctors, HistoriesOf(db.State(), id))));
  }

  // ---------------------------------------------------------------------
  // UpdatePatientByDoctor

  const InvalidClaims: string := "Invalid token claims"

  /** The patient row a doctor's update saves, and the revision of the doctor's history with the patient. */
  datatype DoctorPatientEdit = DoctorPatientEdit(index: nat, patient: Patient, history: nat, revision: Option<(string, string)>)

  /** The outcome of UpdatePatientByDoctor for the doctor whose claims are user. */
  function PatientUpdateByDoctor(s: Store, patientId: int, dto: PatientUpdateDto, user: Claims, h: Hasher, guids: Guids): (o: Result<DoctorPatientEdit, Response<PatientResponse>>)
    ensures o.Success? ==> o.value.index < |s.patients| && s.patients[o.value.index].id == patientId && o.value.history < |s.histories|
  {
    match ParseInt32(user.userId)
    case None => Failure(Unauthorized(InvalidClaims))
    case Some(doctorId) =>
      match FindPatient(s.patients, patientId)
      case None => Failure(NotFound(PatientNotFound))
      case Some(k) =>
        match FindHistory(s.histories, patientId, doctorId)
        case None => Failure(Unauthorized("You are not authorized to update this patient."))
        case Some(j) =>
          if dto.email != "" && Any(s.patients, PatientWithEmailBesides(dto.email, patientId)) then
            Failure(BadRequest(AuthController.EmailAlreadyExists))
          else if (dto.diagnosis != "" || dto.treatment != "") && (dto.diagnosis == "" || dto.treatment == "") then
            Failure(BadRequest(TreatmentFieldsRequired))
          else
            match PatientUploads(PatchPatient(s.patients[k], dto, h), dto, patientId, guids)
            case Failure(e) => Failure(BadRequest(e))
            case Success(final) =>
              Success(DoctorPatientEdit(k, final, j, if dto.diagnosis != "" then Some((dto.diagnosis, dto.treatment)) else None))
  }

  /**
    A doctor updates only a patient it has a history with: the claims must
    name a doctor by number, and the history revised is that doctor's with
    the patient; the row saved keeps the patient's id and an email no other
    patient holds.
   */
  lemma DoctorUpdatesOnlyOwnPatients(s: Store, patientId: int, dto: PatientUpdateDto, user: Claims, h: Hasher, guids: Guids, e: DoctorPatientEdit)
    requires Consistent(s)
    requires PatientUpdateByDoctor(s, patientId, dto, user, h, guids) == Success(e)
    ensures ParseInt32(user.userId).Some?
    ensures e.history < |s.histories|
    ensures s.histories[e.history].patientId == patientId && s.histories[e.history].doctorId == ParseInt32(user.userId).value
    ensures e.index < |s.patients| && s.patients[e.index].id == patientId && e.patient.id == patientId
    ensures forall j :: 0 <= j < |s.patients| && j != e.index ==> s.patients[j].email != e.patient.email
    ensures e.revision.Some? <==> dto.diagnosis != "" && dto.treatment != ""
    ensures e.revision.Some? ==> e.revision.value == (dto.diagnosis, dto.treatment)
  {
    var k := FindPatient(s.patients, patientId).value;
    assert e.index == k;
    AnyIffFirstWhere(s.patients, PatientWithEmailBesides(dto.email, patientId));
    DistinctFromOthers(s.patients, k, PatientEmail);
    DistinctFromOthers(s.patients, k, PatientId);
    PatientPatchRules(s.patients[k], dto, h);
    if dto.email != "" {
      assert forall j :: 0 <= j < |s.patients| ==> !PatientWithEmailBesides(dto.email, patientId)(s.patients[j]);
    }
  }

  /** Bad claims are refused first; a doctor with no history with an existing patient is refused. */
  lemma DoctorUpdateGuards(s: Store, patientId: int, dto: PatientUpdateDto, user: Claims, h: Hasher, guids: Guids)
    ensures ParseInt32(user.userId).None? ==> PatientUpdateByDoctor(s, patientId, dto, user, h, guids) == Failure(Unauthorized(InvalidClaims))
    ensures (ParseInt32(user.userId).Some? && (exists i :: 0 <= i < |s.patients| && s.patients[i].id == patientId)
      && (forall i :: 0 <= i < |s.histories| ==> s.histories[i].patientId != patientId || s.histories[i].doctorId != ParseInt32(user.userId).value)) ==>
      PatientUpdateByDoctor(s, patientId, dto, user, h, guids) == Failure(Unauthorized("You are not authorized to update this patient."))
  {
  }

  method UpdatePatientByDoctor(db: Database, patientId: int, dto: PatientUpdateDto, user: Claims, h: Hasher, now: Instant, guids: Guids) returns (r: Response<PatientResponse>)
    requires db.Valid()
    modifies db
    ensures db.Valid()
    ensures var o := PatientUpdateByDoctor(old(db.State()), patientId, dto, user, h, guids);
      && (o.Failure? ==> r == o.error && db.State() == old(db.State()))
      && (o.Success? ==>
            var e := o.value;
            && db.patients == old(db.patients)[e.index := e.patient]
            && (e.revision.None? ==> db.histories == old(db.histories))
            && (e.revision.Some? ==> db.histories == old(db.histories)[e.history :=
                  old(db.histories)[e.history].(diagnosis := e.revision.value.0, treatment := e.revision.value.1, treatmentDate := now)])
            && r == Ok("Patient updated successfully", PatientView(e.patient, Department(db.doctors, HistoriesOf(db.State(), patientId)))))
    ensures db.admins == old(db.admins) && db.doctors == old(db.doctors)
  {
    var o := PatientUpdateByDoctor(db.State(), patientId, dto, user, h, guids);
    if o.Failure? {
      return o.error;
    }
    var e := o.value;
    DoctorUpdatesOnlyOwnPatients(db.State(), patientId, dto, user, h, guids, e);
    if e.revision.Some? {
      db.SetHistory(e.history, e.revision.value.0, e.revision.value.1, now);
    }
    db.SetPatient(e.index, e.patient);
    r := Ok("Patient updated successfully", PatientView(e.patient, Department(db.doctors, HistoriesOf(db.State(), patientId))));
  }

  // ---------------------------------------------------------------------
  // Deletions

  /** Removes the doctor with the id and every history it has with a patient. */
  method DeleteDoctor(db: Database, id: int) returns (r: Response<()>)
    requires db.Valid()
    modifies db
    ensures db.Valid()
    ensures FindDoctor(old(db.doctors), id).None? ==> r == NotFound(AuthController.DoctorNotFound) && db.State() == old(db.State())
    ensures FindDoctor(old(db.doctors), id).Some? ==>
      && r == Ok("Doctor deleted successfully", ())
      && db.doctors == Where(old(db.doctors), DoctorOtherThan(id))
      && db.histories == Where(old(db.histories), HistoryNotOfDoctor(id))
      && FindDoctor(db.doctors, id).None?
      && |db.doctors| < |old(db.doctors)|
    ensures db.admins == old(db.admins) && db.patients == old(db.patients)
  {
    var found := FindDoctor(db.doctors, id);
    if found.None? {
      return NotFound(AuthController.DoctorNotFound);
    }
    WhereDropsSome(db.doctors, DoctorOtherThan(id), found.value);
    db.RemoveHistories(HistoryNotOfDoctor(id));
    db.RemoveDoctor(id);
    r := Ok("Doctor deleted successfully", ());
  }

  /** Removes the patient with the id and every history it has with a doctor. */
  method DeletePatient(db: Database, id: int) returns (r: Response<()>)
    requires db.Valid()
    modifies db
    ensures db.Valid()
    ensures FindPatient(old(db.patients), id).None? ==> r == NotFound(PatientNotFound) && db.State() == old(db.State())
    ensures FindPatient(old(db.patients), id).Some? ==>
      && r == Ok("Patient deleted successfully", ())
      && db.patients == Where(old(db.patients), PatientOtherThan(id))
      && db.histories == Where(old(db.histories), HistoryNotOfPatient(id))
      && FindPatient(db.patients, id).None?
      && |db.patients| < |old(db.patients)|
    ensures db.admins == old(db.admins) && db.doctors == old(db.doctors)
  {
    var found := FindPatient(db.patients, id);
    if found.None? {
      return NotFound(PatientNotFound);
    }
    WhereDropsSome(db.patients, PatientOtherThan(id), found.value);
    db.RemoveHistories(HistoryNotOfPatient(id));
    db.RemovePatient(id);
    r := Ok("Patient deleted successfully", ());
  }

  /**
    Removes a patient on behalf of the doctor whose claims are user: only a
    doctor with a history with the patient may, and then every history of
    the patient goes with it.
   */
  method DeletePatientByDoctor(db: Database, patientId: int, user: Claims) returns (r: Response<()>)
    requires db.Valid()
    modifies db
    ensures db.Valid()
    ensures ParseInt32(user.userId).None? ==> r == Unauthorized(InvalidClaims) && db.State() == old(db.State())
    ensures ParseInt32(user.userId).Some? && FindPatient(old(db.patients), patientId).None? ==>
      r == NotFound(PatientNotFound) && db.State() == old(db.State())
    ensures (ParseInt32(user.userId).Some? && FindPatient(old(db.patients), patientId).Some?
      && FindHistory(old(db.histories), patientId, ParseInt32(user.userId).value).None?) ==>
      r == Unauthorized("You are not authorized to delete this patient.") && db.State() == old(db.State())
    ensures (ParseInt32(user.userId).Some? && FindPatient(old(db.patients), patientId).Some?
      && FindHistory(old(db.histories), patientId, ParseInt32(user.userId).value).Some?) ==>
      && r == Ok("Patient deleted successfully", ())
      && db.patients == Where(old(db.patients), PatientOtherThan(patientId))
      && db.histories == Where(old(db.histories), HistoryNotOfPatient(patientId))
    ensures r.Ok? ==>
      exists i :: 0 <= i < |old(db.histories)| && old(db.histories)[i].patientId == patientId && ParseInt32(user.userId) == Some(old(db.histories)[i].doctorId)
    ensures db.admins == old(db.admins) && db.doctors == old(db.doctors)
  {
    var doctorId := ParseInt32(user.userId);
    if doctorId.None? {
      return Unauthorized(InvalidClaims);
    }
    var found := FindPatient(db.patients, patientId);
    if found.None? {
      return NotFound(PatientNotFound);
    }
    var link := FindHistory(db.histories, patientId, doctorId.value);
    if link.None? {
      return Unauthorized("You are not authorized to delete this patient.");
    }
    db.RemoveHistories(HistoryNotOfPatient(patientId));
    db.RemovePatient(patientId);
    r := Ok("Patient deleted successfully", ());
  }
}
