/**
  UserController: the guards in front of the UserService queries. They
  check the paging parameters and the doctor id, read the caller's userId
  and role claims, keep a doctor to their own patients, and turn the
  service's answers into action results. Nothing is written.
 */
module UserController {
  import opened Wrappers
  import opened Text
  import opened Numbers
  import opened Linq
  import opened Models
  import opened AuthRules
  import opened Dtos
  import UserService
  import UpdateController

  const InvalidPaging: string := "Page number and page size must be greater than 0"
  const InvalidDoctorId: string := "Doctor ID must be greater than 0"
  const NotYourPatients: string := "You are not authorized to access this doctor's patients."
  const PatientsRetrievalFailed: string := "An error occurred while retrieving patients."
  const UserNotFound: string := "User not found"
  const DetailsRetrieved: string := "User details retrieved successfully"

  /** The userId and role claims: userId must parse as an Int32 and role must be present. */
  function Caller(user: Claims): Option<(int, string)> {
    match ParseInt32(user.userId)
    case None => None
    case Some(id) => if user.role == "" then None else Some((id, user.role))
  }

  /** GET api/user/doctors. */
  function GetAllDoctors(s: Store, pageNumber: int, pageSize: int, searchTerm: string): Response<PagedResult<DoctorResponse>> {
    if pageNumber < 1 || pageSize < 1 then BadRequest(InvalidPaging)
    else Ok("", UserService.GetAllDoctors(s, pageNumber, pageSize, searchTerm))
  }

  /** GET api/user/patients. */
  function GetAllPatients(s: Store, pageNumber: int, pageSize: int, searchTerm: string): Response<PagedResult<PatientResponse>> {
    if pageNumber < 1 || pageSize < 1 then BadRequest(InvalidPaging)
    else Ok("", UserService.GetAllPatients(s, pageNumber, pageSize, searchTerm))
  }

  /**
    GET api/user/patients/doctor/{doctorId}; the service's "Doctor not
    found" exception becomes the 500 whose details carry its message.
   */
  function GetPatientsByDoctor(s: Store, doctorId: int, pageNumber: int, pageSize: int, searchTerm: string, user: Claims): Response<PagedResult<PatientResponse>> {
    if doctorId <= 0 then BadRequest(InvalidDoctorId)
    else if pageNumber < 1 || pageSize < 1 then BadRequest(InvalidPaging)
    else
      match Caller(user)
      case None => Unauthorized(UpdateController.InvalidClaims)
      case Some((userId, role)) =>
        if role == "doctor" && userId != doctorId then Unauthorized(NotYourPatients)
        else
          match UserService.GetPatientsByDoctor(s, doctorId, pageNumber, pageSize, searchTerm)
          case Failure(e) => ServerError(PatientsRetrievalFailed, Some(e))
          case Success(page) => Ok("", page)
  }

  /**
    The patient branch of GetMyDetails: when the role claim is exactly
    "patient" the X-ray and lab-results URLs, which the service leaves
    null, are copied from the stored row.
   */
  function WithStoredImages(s: Store, userId: int, role: string, details: UserDetails): UserDetails {
    if role == "patient" && details.PatientDetails? then
      match FindPatient(s.patients, userId)
      case Some(k) =>
        PatientDetails(details.patient.(xRayImageUrl := s.patients[k].xRayImageUrl, labResultsImageUrl := s.patients[k].labResultsImageUrl))
      case None => details
    else details
  }

  /** GET api/user/details. */
  function GetMyDetails(s: Store, user: Claims): Response<UserDetails> {
    match Caller(user)
    case None => Unauthorized(UpdateController.InvalidClaims)
    case Some((userId, role)) =>
      match UserService.GetUserDetails(s, userId, role)
      case None => NotFound(UserNotFound)
      case Some(details) => Ok(DetailsRetrieved, WithStoredImages(s, userId, role, details))
  }

  // ---------------------------------------------------------------------
  // Properties of the list endpoints

  /**
    The admin lists answer 400 exactly when a paging parameter is below
    one; otherwise they return the service's page, which then holds at
    most pageSize rows in id order.
   */
  lemma ListGuards(s: Store, pageNumber: int, pageSize: int, searchTerm: string)
    requires Consistent(s)
    ensures GetAllDoctors(s, pageNumber, pageSize, searchTerm).BadRequest? <==> pageNumber < 1 || pageSize < 1
    ensures GetAllDoctors(s, pageNumber, pageSize, searchTerm).Ok? <==> !GetAllDoctors(s, pageNumber, pageSize, searchTerm).BadRequest?
    ensures GetAllPatients(s, pageNumber, pageSize, searchTerm).BadRequest? <==> pageNumber < 1 || pageSize < 1
    ensures GetAllPatients(s, pageNumber, pageSize, searchTerm).Ok? <==> !GetAllPatients(s, pageNumber, pageSize, searchTerm).BadRequest?
    ensures GetAllDoctors(s, pageNumber, pageSize, searchTerm).BadRequest? ==> GetAllDoctors(s, pageNumber, pageSize, searchTerm).message == InvalidPaging
    ensures var r := GetAllDoctors(s, pageNumber, pageSize, searchTerm);
      r.Ok? ==> |r.body.data| <= pageSize && (forall i, j :: 0 <= i < j < |r.body.data| ==> r.body.data[i].id < r.body.data[j].id)
    ensures var r := GetAllPatients(s, pageNumber, pageSize, searchTerm);
      r.Ok? ==> |r.body.data| <= pageSize && (forall i, j :: 0 <= i < j < |r.body.data| ==> r.body.data[i].id < r.body.data[j].id)
  {
    UserService.AllDoctorsRules(s, pageNumber, pageSize, searchTerm);
    UserService.AllPatientsRules(s, pageNumber, pageSize, searchTerm);
  }

  /**
    For valid paging whose offset fits in 32 bits the doctor list is the
    slice of the matching doctors starting at (pageNumber - 1) * pageSize.
   */
  lemma DoctorListIsTheAskedPage(s: Store, pageNumber: int, pageSize: int, searchTerm: string, start: nat)
    requires pageNumber >= 1 && pageSize >= 1
    requires start == (pageNumber - 1) * pageSize && IsInt32(start) && IsInt32(pageNumber - 1)
    ensures
      var matched := UserService.SearchDoctors(s.doctors, searchTerm);
      GetAllDoctors(s, pageNumber, pageSize, searchTerm) ==
        Ok("", PagedResult(Select(matched[UserService.Min(start, |matched|)..UserService.Min(start + pageSize, |matched|)], DoctorListing),
          |matched|, pageNumber, pageSize))
  {
    UserService.PageIsSlice(UserService.SearchDoctors(s.doctors, searchTerm), pageNumber, pageSize, start);
  }

  // ---------------------------------------------------------------------
  // Properties of the per-doctor endpoint

  /** The guards apply in order: doctor id, paging, claims, then the doctor's own-id check. */
  lemma PatientsByDoctorGuards(s: Store, doctorId: int, pageNumber: int, pageSize: int, searchTerm: string, user: Claims)
    ensures doctorId <= 0 ==> GetPatientsByDoctor(s, doctorId, pageNumber, pageSize, searchTerm, user) == BadRequest(InvalidDoctorId)
    ensures doctorId > 0 && (pageNumber < 1 || pageSize < 1) ==>
      GetPatientsByDoctor(s, doctorId, pageNumber, pageSize, searchTerm, user) == BadRequest(InvalidPaging)
    ensures (doctorId > 0 && pageNumber >= 1 && pageSize >= 1 && (ParseInt32(user.userId).None? || user.role == "")) ==>
      GetPatientsByDoctor(s, doctorId, pageNumber, pageSize, searchTerm, user) == Unauthorized(UpdateController.InvalidClaims)
    ensures (doctorId > 0 && pageNumber >= 1 && pageSize >= 1 && ParseInt32(user.userId).Some?
      && user.role == "doctor" && ParseInt32(user.userId).value != doctorId) ==>
      GetPatientsByDoctor(s, doctorId, pageNumber, pageSize, searchTerm, user) == Unauthorized(NotYourPatients)
    ensures (doctorId > 0 && pageNumber >= 1 && pageSize >= 1 && Caller(user).Some?
      && (user.role != "doctor" || ParseInt32(user.userId) == Some(doctorId))
      && (forall k :: 0 <= k < |s.doctors| ==> s.doctors[k].id != doctorId)) ==>
      GetPatientsByDoctor(s, doctorId, pageNumber, pageSize, searchTerm, user) == ServerError(PatientsRetrievalFailed, Some("Doctor not found"))
  {
    AnyIffFirstWhere(s.doctors, DoctorWithId(doctorId));
  }

  /**
    A caller whose role claim is "doctor" only ever sees their own patients:
    a successful answer means the caller's id is the doctor id, and every
    row is a patient with a history linking it to the caller, whose
    Department lists only the caller's treatments.
   */
  lemma DoctorSeesOnlyOwnPatients(s: Store, doctorId: int, pageNumber: int, pageSize: int, searchTerm: string, user: Claims, page: PagedResult<PatientResponse>)
    requires user.role == "doctor"
    requires GetPatientsByDoctor(s, doctorId, pageNumber, pageSize, searchTerm, user) == Ok("", page)
    ensures ParseInt32(user.userId) == Some(doctorId)
    ensures |page.data| <= pageSize
    ensures UserService.OwnPatientsOnly(s, doctorId, page.data)
  {
    PatientsByDoctorOk(s, doctorId, pageNumber, pageSize, searchTerm, user, page);
    UserService.PatientsOfDoctorPage(s, doctorId, pageNumber, pageSize, searchTerm, page);
  }

  /** A successful answer passed every guard and is the service's page for that doctor. */
  lemma PatientsByDoctorOk(s: Store, doctorId: int, pageNumber: int, pageSize: int, searchTerm: string, user: Claims, page: PagedResult<PatientResponse>)
    requires GetPatientsByDoctor(s, doctorId, pageNumber, pageSize, searchTerm, user) == Ok("", page)
    ensures doctorId > 0 && pageNumber >= 1 && pageSize >= 1 && Caller(user).Some?
    ensures user.role == "doctor" ==> ParseInt32(user.userId) == Some(doctorId)
    ensures UserService.GetPatientsByDoctor(s, doctorId, pageNumber, pageSize, searchTerm) == Success(page)
  {
  }

  // ---------------------------------------------------------------------
  // Properties of GetMyDetails

  /**
    The details endpoint answers 401 for bad claims, 404 when the role is
    unknown or no row of that kind has the id, and 200 otherwise.
   */
  lemma MyDetailsOutcome(s: Store, user: Claims)
    requires Consistent(s)
    ensures (ParseInt32(user.userId).None? || user.role == "") ==> GetMyDetails(s, user) == Unauthorized(UpdateController.InvalidClaims)
    ensures Caller(user).Some? ==>
      var id := ParseInt32(user.userId).value;
      var role := Lower(user.role);
      (GetMyDetails(s, user).NotFound? <==>
        || (role != "admin" && role != "doctor" && role != "patient")
        || (role == "admin" && forall k :: 0 <= k < |s.admins| ==> s.admins[k].id != id)
        || (role == "doctor" && forall k :: 0 <= k < |s.doctors| ==> s.doctors[k].id != id)
        || (role == "patient" && forall k :: 0 <= k < |s.patients| ==> s.patients[k].id != id))
    ensures GetMyDetails(s, user).NotFound? ==> GetMyDetails(s, user).message == UserNotFound
    ensures GetMyDetails(s, user).Ok? ==> GetMyDetails(s, user).message == DetailsRetrieved
  {
    if Caller(user).Some? {
      var id := ParseInt32(user.userId).value;
      UserService.UserDetailsRoleDispatch(s, id, user.role);
      UserService.UserDetailsFindsTheRow(s, id, user.role);
    }
  }

  /**
    A patient asking with the exact role claim "patient" gets their row with
    the X-ray and lab-results URLs filled in; a role claim differing only in
    case reaches the same row but without those URLs.
   */
  lemma PatientSeesOwnImages(s: Store, user: Claims, k: nat)
    requires Consistent(s)
    requires k < |s.patients| && ParseInt32(user.userId) == Some(s.patients[k].id)
    requires Lower(user.role) == "patient"
    ensures var p := s.patients[k];
      var listed := PatientListing(p, Department(s.doctors, HistoriesOf(s, p.id)));
      GetMyDetails(s, user) == Ok(DetailsRetrieved, PatientDetails(
        if user.role == "patient" then listed.(xRayImageUrl := p.xRayImageUrl, labResultsImageUrl := p.labResultsImageUrl)
        else listed))
  {
    assert user.role != "" by {
      assert |Lower(user.role)| == |user.role|;
    }
    var p := s.patients[k];
    assert Caller(user) == Some((p.id, user.role));
    UserService.PatientDetailsOfRow(s, user.role, k);
    IdFindsTheOnlyPatient(s, k);
    var listed := PatientListing(p, Department(s.doctors, HistoriesOf(s, p.id)));
    assert UserService.GetUserDetails(s, p.id, user.role) == Some(PatientDetails(listed));
    assert WithStoredImages(s, p.id, user.role, PatientDetails(listed)) == PatientDetails(
      if user.role == "patient" then listed.(xRayImageUrl := p.xRayImageUrl, labResultsImageUrl := p.labResultsImageUrl)
      else listed);
  }
}
