/**
  The request and response records of the endpoints, the action results
  they return, and the projections that turn stored rows into responses.

  A string field the client leaves out binds to null or to its empty
  default; every check the endpoints make on such a field is
  string.IsNullOrEmpty, so both are the empty string here. The one
  exception is PatientDto.BloodType, where null and "" differ (?? "A+").
 */
module Dtos {
  import opened Wrappers
  import opened Dates
  import opened Linq
  import opened Models
  import opened AuthRules

  // ---------------------------------------------------------------------
  // Requests

  datatype AdminDto = AdminDto(email: string, password: string)

  datatype DoctorDto = DoctorDto(
    firstName: string,
    lastName: string,
    gender: string,
    birthDate: Option<Date>,
    specialty: string,
    email: string,
    password: string,
    image: Option<Upload>)

  datatype PatientDto = PatientDto(
    firstName: string,
    lastName: string,
    gender: string,
    birthDate: Option<Date>,
    bloodType: Option<string>,
    email: string,
    password: string,
    doctorId: int,
    diagnosis: string,
    treatment: string,
    image: Option<Upload>,
    xRayImage: Option<Upload>,
    labResultsImage: Option<Upload>)

  datatype LoginDto = LoginDto(email: string, password: string)

  datatype PasswordResetRequestDto = PasswordResetRequestDto(email: string)

  datatype PasswordResetDto = PasswordResetDto(email: string, resetCode: string, newPassword: string)

  /** The fields UpdateDoctor reads from its form. */
  datatype UpdateDoctorDto = UpdateDoctorDto(
    email: string,
    firstName: string,
    lastName: string,
    gender: string,
    birthDate: Option<Date>,
    specialty: string,
    password: string,
    image: Option<Upload>)

  /** PatientUpdateDto: DoctorId is an int?, so a missing one is None. */
  datatype PatientUpdateDto = PatientUpdateDto(
    firstName: string,
    lastName: string,
    gender: string,
    birthDate: Option<Date>,
    email: string,
    password: string,
    doctorId: Option<int>,
    diagnosis: string,
    treatment: string,
    image: Option<Upload>,
    xRayImage: Option<Upload>,
    labResultsImage: Option<Upload>)

  // ---------------------------------------------------------------------
  // Responses

  datatype AdminResponse = AdminResponse(id: int, email: string)

  datatype DoctorResponse = DoctorResponse(
    id: int,
    firstName: string,
    lastName: string,
    gender: string,
    birthDate: Option<Date>,
    age: int,
    specialty: string,
    email: string,
    imageUrl: Option<string>)

  datatype TreatmentHistory = TreatmentHistory(
    diagnosis: string,
    treatment: string,
    doctorId: int,
    doctorFirstName: Option<string>,
    doctorLastName: Option<string>)

  datatype PatientResponse = PatientResponse(
    id: int,
    firstName: string,
    lastName: string,
    gender: string,
    birthDate: Option<Date>,
    age: int,
    bloodType: string,
    email: string,
    imageUrl: Option<string>,
    xRayImageUrl: Option<string>,
    labResultsImageUrl: Option<string>,
    createdAt: Instant,
    department: seq<TreatmentHistory>)

  datatype PagedResult<T> = PagedResult(data: seq<T>, totalCount: int, pageNumber: int, pageSize: int)

  /** The object GetUserDetailsAsync returns, by the kind of user. */
  datatype UserDetails =
    | AdminDetails(admin: AdminResponse)
    | DoctorDetails(doctor: DoctorResponse)
    | PatientDetails(patient: PatientResponse)

  /** The body of a successful login: role, userId, isAdmin and the token's claims. */
  datatype LoginResult = LoginResult(role: string, userId: int, isAdmin: bool, token: Claims)

  /**
    The action results: 200 with the message and payload of the body (the
    list endpoints return a bare PagedResult, whose message is empty here),
    400, 404, 401, and 500 with its message and optional details.
   */
  datatype Response<T> =
    | Ok(message: string, body: T)
    | BadRequest(message: string)
    | NotFound(message: string)
    | Unauthorized(message: string)
    | ServerError(message: string, details: Option<string>)

  // ---------------------------------------------------------------------
  // Projections

  function AdminView(a: Admin): AdminResponse {
    AdminResponse(a.id, a.email)
  }

  /** A DoctorResponseDto with every field filled, Age included (the registration response). */
  function DoctorView(d: Doctor): DoctorResponse {
    DoctorResponse(d.id, d.firstName, d.lastName, d.gender, d.birthDate, d.age, d.specialty, d.email, d.imageUrl)
  }

  /** The DoctorResponseDto the update response and the queries build: Age is not copied and stays 0. */
  function DoctorListing(d: Doctor): DoctorResponse {
    DoctorView(d).(age := 0)
  }

  /** A TreatmentHistoryDto, with the names of the history's doctor looked up in doctors. */
  function TreatmentOf(doctors: seq<Doctor>): PatientHistory -> TreatmentHistory {
    (h: PatientHistory) =>
      match FindDoctor(doctors, h.doctorId)
      case Some(k) => TreatmentHistory(h.diagnosis, h.treatment, h.doctorId, Some(doctors[k].firstName), Some(doctors[k].lastName))
      case None => TreatmentHistory(h.diagnosis, h.treatment, h.doctorId, None, None)
  }

  /** The Department list of a patient response: one entry per history, in order. */
  function Department(doctors: seq<Doctor>, hs: seq<PatientHistory>): (r: seq<TreatmentHistory>)
    ensures |r| == |hs|
    ensures forall i :: 0 <= i < |hs| ==> r[i].doctorId == hs[i].doctorId && r[i].diagnosis == hs[i].diagnosis && r[i].treatment == hs[i].treatment
  {
    Select(hs, TreatmentOf(doctors))
  }

  /** A history whose doctor exists carries that doctor's names. */
  lemma TreatmentNamesTheDoctor(doctors: seq<Doctor>, h: PatientHistory, k: nat)
    requires KeyedBy(doctors, DoctorId)
    requires k < |doctors| && doctors[k].id == h.doctorId
    ensures TreatmentOf(doctors)(h) == TreatmentHistory(h.diagnosis, h.treatment, h.doctorId, Some(doctors[k].firstName), Some(doctors[k].lastName))
  {
    var r := FindDoctor(doctors, h.doctorId);
    assert DoctorId(doctors[r.value]) == DoctorId(doctors[k]);
  }

  /** The patient's histories, in table order: the PatientHistories navigation after Include. */
  function HistoriesOf(s: Store, patientId: int): (r: seq<PatientHistory>)
    ensures forall i :: 0 <= i < |r| ==> r[i].patientId == patientId && r[i] in s.histories
    ensures forall i :: 0 <= i < |s.histories| && s.histories[i].patientId == patientId ==> s.histories[i] in r
  {
    Where(s.histories, HistoryOfPatient(patientId))
  }

  /** A PatientResponseDto with every field copied from the row. */
  function PatientView(p: Patient, department: seq<TreatmentHistory>): PatientResponse {
    PatientResponse(p.id, p.firstName, p.lastName, p.gender, p.birthDate, p.age, p.bloodType, p.email,
      p.imageUrl, p.xRayImageUrl, p.labResultsImageUrl, p.createdAt, department)
  }

  /**
    The PatientResponseDto the queries build: Age, BloodType and the X-ray
    and lab-results URLs are not copied, so they keep the DTO defaults 0,
    "A+" and null.
   */
  function PatientListing(p: Patient, department: seq<TreatmentHistory>): PatientResponse {
    PatientView(p, department).(age := 0, bloodType := "A+", xRayImageUrl := None, labResultsImageUrl := None)
  }
}
