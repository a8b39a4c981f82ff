/**
  UserService: the read-only queries behind the user endpoints. Each one
  filters a table by an optional case-insensitive search term, counts the
  matches, orders them by id, cuts out one page and projects the page onto
  response records. The queries change nothing, so they are functions of
  the store.
 */
module UserService {
  import opened Wrappers
  import opened Text
  import opened Numbers
  import opened Linq
  import opened Models
  import opened Dtos

  // ---------------------------------------------------------------------
  // Search and paging

  /** A doctor matches a lowered term in its first or last name, email or specialty. */
  function DoctorMatches(term: string): Doctor -> bool {
    (d: Doctor) =>
      || Contains(Lower(d.firstName), term)
      || Contains(Lower(d.lastName), term)
      || Contains(Lower(d.email), term)
      || Contains(Lower(d.specialty), term)
  }

  /** A patient matches a lowered term in its first or last name or email. */
  function PatientMatches(term: string): Patient -> bool {
    (p: Patient) =>
      || Contains(Lower(p.firstName), term)
      || Contains(Lower(p.lastName), term)
      || Contains(Lower(p.email), term)
  }

  /** The optional search filter: an empty term filters nothing, any other is lowered first. */
  function SearchDoctors(ds: seq<Doctor>, term: string): seq<Doctor> {
    if term == "" then ds else Where(ds, DoctorMatches(Lower(term)))
  }

  function SearchPatients(ps: seq<Patient>, term: string): seq<Patient> {
    if term == "" then ps else Where(ps, PatientMatches(Lower(term)))
  }

  /** (pageNumber - 1) * pageSize in unchecked 32-bit arithmetic. */
  function PageStart(pageNumber: int, pageSize: int): (r: int)
    ensures IsInt32(r)
    ensures IsInt32(pageNumber - 1) && IsInt32((pageNumber - 1) * pageSize) ==> r == (pageNumber - 1) * pageSize
  {
    Wrap32(Wrap32(pageNumber - 1) * pageSize)
  }

  /** Skip((pageNumber - 1) * pageSize).Take(pageSize) over rows already in id order. */
  function Page<T>(xs: seq<T>, pageNumber: int, pageSize: int): seq<T> {
    Take(Skip(xs, PageStart(pageNumber, pageSize)), pageSize)
  }

  function Min(a: int, b: int): int {
    if a <= b then a else b
  }

  /**
    For page numbers and sizes of at least one whose offset does not
    overflow, the page is exactly the rows from (pageNumber - 1) * pageSize
    up to pageSize further, clipped to the end of the rows.
   */
  lemma PageIsSlice<T>(xs: seq<T>, pageNumber: int, pageSize: int, start: nat)
    requires pageNumber >= 1 && pageSize >= 1
    requires start == (pageNumber - 1) * pageSize && IsInt32(start) && IsInt32(pageNumber - 1)
    ensures Page(xs, pageNumber, pageSize) == xs[Min(start, |xs|)..Min(start + pageSize, |xs|)]
  {
    SliceOfSkipTake(xs, PageStart(pageNumber, pageSize), pageSize);
  }

  /** Skip(n).Take(z) for a natural offset and a positive size is a clipped slice. */
  lemma SliceOfSkipTake<T>(xs: seq<T>, start: int, size: int)
    requires start >= 0 && size >= 1
    ensures Take(Skip(xs, start), size) == xs[Min(start, |xs|)..Min(start + size, |xs|)]
  {
    if 0 < start < |xs| {
      var rest := xs[start..];
      if size < |rest| {
        assert rest[..size] == xs[start..start + size];
      }
    }
  }

  /** A page never holds more rows than the page size, and all its rows come from the input. */
  lemma PageWithin<T>(xs: seq<T>, pageNumber: int, pageSize: int)
    ensures |Page(xs, pageNumber, pageSize)| <= if pageSize <= 0 then 0 else pageSize
    ensures |Page(xs, pageNumber, pageSize)| <= |xs|
    ensures forall i :: 0 <= i < |Page(xs, pageNumber, pageSize)| ==> Page(xs, pageNumber, pageSize)[i] in xs
  {
    var n := PageStart(pageNumber, pageSize);
    var skipped := Skip(xs, n);
    assert forall i :: 0 <= i < |skipped| ==> skipped[i] in xs by {
      if 0 < n < |xs| {
        assert forall i :: 0 <= i < |skipped| ==> skipped[i] == xs[n + i];
      }
    }
  }

  /** Paging preserves the id order of the rows. */
  lemma PageKeepsIncreasing<T>(xs: seq<T>, pageNumber: int, pageSize: int, key: T -> int)
    requires IncreasingBy(xs, key)
    ensures IncreasingBy(Page(xs, pageNumber, pageSize), key)
  {
    var n := PageStart(pageNumber, pageSize);
    var skipped := Skip(xs, n);
    assert IncreasingBy(skipped, key) by {
      if 0 < n < |xs| {
        assert forall i :: 0 <= i < |skipped| ==> skipped[i] == xs[n + i];
      }
    }
  }

  // ---------------------------------------------------------------------
  // The queries

  /** GetAllDoctorsAsync. */
  function GetAllDoctors(s: Store, pageNumber: int, pageSize: int, searchTerm: string): (r: PagedResult<DoctorResponse>)
    ensures r.pageNumber == pageNumber && r.pageSize == pageSize
    ensures r.totalCount == |SearchDoctors(s.doctors, searchTerm)|
  {
    var matched := SearchDoctors(s.doctors, searchTerm);
    PagedResult(Select(Page(matched, pageNumber, pageSize), DoctorListing), |matched|, pageNumber, pageSize)
  }

  /** The patient projection of the list queries, with the Department built from the given histories. */
  function PatientRow(s: Store, histories: Patient -> seq<PatientHistory>): Patient -> PatientResponse {
    (p: Patient) => PatientListing(p, Department(s.doctors, histories(p)))
  }

  function AllHistories(s: Store): Patient -> seq<PatientHistory> {
    (p: Patient) => HistoriesOf(s, p.id)
  }

  /** GetAllPatientsAsync. */
  function GetAllPatients(s: Store, pageNumber: int, pageSize: int, searchTerm: string): (r: PagedResult<PatientResponse>)
    ensures r.pageNumber == pageNumber && r.pageSize == pageSize
    ensures r.totalCount == |SearchPatients(s.patients, searchTerm)|
  {
    var matched := SearchPatients(s.patients, searchTerm);
    PagedResult(Select(Page(matched, pageNumber, pageSize), PatientRow(s, AllHistories(s))), |matched|, pageNumber, pageSize)
  }

  /** PatientHistories.Any(ph => ph.DoctorId == doctorId), over the history table. */
  function TreatedBy(s: Store, doctorId: int): Patient -> bool {
    (p: Patient) => Any(s.histories, HistoryOfPair(p.id, doctorId))
  }

  /** The patient's histories with the one doctor only. */
  function HistoriesWith(s: Store, doctorId: int): Patient -> seq<PatientHistory> {
    (p: Patient) => Where(HistoriesOf(s, p.id), HistoryOfDoctor(doctorId))
  }

  /** GetPatientsByDoctorAsync; the InvalidOperationException it throws for an unknown doctor is the Failure. */
  function GetPatientsByDoctor(s: Store, doctorId: int, pageNumber: int, pageSize: int, searchTerm: string): (r: Result<PagedResult<PatientResponse>, string>)
    ensures r.Failure? ==> r.error == "Doctor not found"
    ensures r.Success? ==> r.value.pageNumber == pageNumber && r.value.pageSize == pageSize
  {
    if !Any(s.doctors, DoctorWithId(doctorId)) then Failure("Doctor not found")
    else
      var matched := SearchPatients(Where(s.patients, TreatedBy(s, doctorId)), searchTerm);
      Success(PagedResult(Select(Page(matched, pageNumber, pageSize), PatientRow(s, HistoriesWith(s, doctorId))),
        |matched|, pageNumber, pageSize))
  }

  /** GetUserDetailsAsync: the role is compared lowered; an unknown role or id gives null, here None. */
  function GetUserDetails(s: Store, userId: int, role: string): (r: Option<UserDetails>)
    ensures r.Some? && r.value.AdminDetails? ==> Lower(role) == "admin"
    ensures r.Some? && r.value.DoctorDetails? ==> Lower(role) == "doctor"
    ensures r.Some? && r.value.PatientDetails? ==> Lower(role) == "patient"
  {
    match Lower(role)
    case "admin" =>
      (match FindAdmin(s.admins, userId)
       case Some(k) => Some(AdminDetails(AdminView(s.admins[k])))
       case None => None)
    case "doctor" =>
      (match FindDoctor(s.doctors, userId)
       case Some(k) => Some(DoctorDetails(DoctorListing(s.doctors[k])))
       case None => None)
    case "patient" =>
      (match FindPatient(s.patients, userId)
       case Some(k) => Some(PatientDetails(PatientRow(s, AllHistories(s))(s.patients[k])))
       case None => None)
    case _ => None
  }

  // ---------------------------------------------------------------------
  // Properties of the search

  /** An empty term keeps every row; any other keeps exactly the rows matching its lowered form. */
  lemma SearchDoctorsRules(ds: seq<Doctor>, term: string)
    ensures term == "" ==> SearchDoctors(ds, term) == ds
    ensures term != "" ==> forall i :: 0 <= i < |ds| ==> (ds[i] in SearchDoctors(ds, term) <==> DoctorMatches(Lower(term))(ds[i]))
  {
    if term != "" {
      forall i | 0 <= i < |ds| && ds[i] in SearchDoctors(ds, term)
        ensures DoctorMatches(Lower(term))(ds[i])
      {
        var r := SearchDoctors(ds, term);
        var k :| 0 <= k < |r| && r[k] == ds[i];
      }
    }
  }

  lemma SearchPatientsRules(ps: seq<Patient>, term: string)
    ensures term == "" ==> SearchPatients(ps, term) == ps
    ensures term != "" ==> forall i :: 0 <= i < |ps| ==> (ps[i] in SearchPatients(ps, term) <==> PatientMatches(Lower(term))(ps[i]))
  {
    if term != "" {
      forall i | 0 <= i < |ps| && ps[i] in SearchPatients(ps, term)
        ensures PatientMatches(Lower(term))(ps[i])
      {
        var r := SearchPatients(ps, term);
        var k :| 0 <= k < |r| && r[k] == ps[i];
      }
    }
  }

  /** The search ignores the case of its term. */
  lemma SearchIgnoresTermCase(s: Store, a: string, b: string)
    requires Lower(a) == Lower(b)
    ensures SearchDoctors(s.doctors, a) == SearchDoctors(s.doctors, b)
    ensures SearchPatients(s.patients, a) == SearchPatients(s.patients, b)
  {
  }

  /** A patient matches exactly when the term occurs, at some position, in one of its lowered fields. */
  lemma PatientMatchIsSubstring(p: Patient, term: string)
    ensures PatientMatches(term)(p) <==>
      (|| (exists i :: OccursAt(Lower(p.firstName), term, i))
       || (exists i :: OccursAt(Lower(p.lastName), term, i))
       || (exists i :: OccursAt(Lower(p.email), term, i)))
  {
    ContainsIffOccurs(Lower(p.firstName), term);
    ContainsIffOccurs(Lower(p.lastName), term);
    ContainsIffOccurs(Lower(p.email), term);
  }

  /** A doctor matches exactly when the term occurs in one of its lowered fields, the specialty included. */
  lemma DoctorMatchIsSubstring(d: Doctor, term: string)
    ensures DoctorMatches(term)(d) <==>
      (|| (exists i :: OccursAt(Lower(d.firstName), term, i))
       || (exists i :: OccursAt(Lower(d.lastName), term, i))
       || (exists i :: OccursAt(Lower(d.email), term, i))
       || (exists i :: OccursAt(Lower(d.specialty), term, i)))
  {
    ContainsIffOccurs(Lower(d.firstName), term);
    ContainsIffOccurs(Lower(d.lastName), term);
    ContainsIffOccurs(Lower(d.email), term);
    ContainsIffOccurs(Lower(d.specialty), term);
  }

  // ---------------------------------------------------------------------
  // Properties of the list queries

  /**
    The doctor list: at most pageSize rows, in increasing id order, each a
    matching doctor of the table; the search without a term counts every
    doctor. PageIsSlice says which slice of the matches the rows are.
   */
  lemma AllDoctorsRules(s: Store, pageNumber: int, pageSize: int, searchTerm: string)
    requires Consistent(s)
    ensures var r := GetAllDoctors(s, pageNumber, pageSize, searchTerm);
      && |r.data| <= (if pageSize <= 0 then 0 else pageSize)
      && (searchTerm == "" ==> r.totalCount == |s.doctors|)
      && (forall i, j :: 0 <= i < j < |r.data| ==> r.data[i].id < r.data[j].id)
      && (forall i :: 0 <= i < |r.data| ==> exists k :: 0 <= k < |s.doctors| && r.data[i] == DoctorListing(s.doctors[k]))
  {
    var matched := SearchDoctors(s.doctors, searchTerm);
    var page := Page(matched, pageNumber, pageSize);
    var r := GetAllDoctors(s, pageNumber, pageSize, searchTerm);
    PageWithin(matched, pageNumber, pageSize);
    assert IncreasingBy(matched, DoctorId) by {
      if searchTerm != "" {
        WhereKeepsIncreasing(s.doctors, DoctorMatches(Lower(searchTerm)), DoctorId);
      }
    }
    PageKeepsIncreasing(matched, pageNumber, pageSize, DoctorId);
    assert forall i :: 0 <= i < |r.data| ==> r.data[i].id == page[i].id;
    forall i | 0 <= i < |r.data|
      ensures exists k :: 0 <= k < |s.doctors| && r.data[i] == DoctorListing(s.doctors[k])
    {
      assert page[i] in matched;
      var m :| 0 <= m < |matched| && matched[m] == page[i];
      assert matched[m] in s.doctors;
    }
  }

  /**
    The patient list: at most pageSize rows in increasing id order; each
    row's Department has one entry per history of that patient, naming the
    history's doctor.
   */
  lemma AllPatientsRules(s: Store, pageNumber: int, pageSize: int, searchTerm: string)
    requires Consistent(s)
    ensures var r := GetAllPatients(s, pageNumber, pageSize, searchTerm);
      && |r.data| <= (if pageSize <= 0 then 0 else pageSize)
      && (searchTerm == "" ==> r.totalCount == |s.patients|)
      && (forall i, j :: 0 <= i < j < |r.data| ==> r.data[i].id < r.data[j].id)
      && (forall i :: 0 <= i < |r.data| ==> |r.data[i].department| == |HistoriesOf(s, r.data[i].id)|)
      && (forall i, k :: 0 <= i < |r.data| && 0 <= k < |r.data[i].department| ==>
            r.data[i].department[k].doctorId == HistoriesOf(s, r.data[i].id)[k].doctorId)
  {
    var matched := SearchPatients(s.patients, searchTerm);
    var page := Page(matched, pageNumber, pageSize);
    var r := GetAllPatients(s, pageNumber, pageSize, searchTerm);
    PageWithin(matched, pageNumber, pageSize);
    assert IncreasingBy(matched, PatientId) by {
      if searchTerm != "" {
        WhereKeepsIncreasing(s.patients, PatientMatches(Lower(searchTerm)), PatientId);
      }
    }
    PageKeepsIncreasing(matched, pageNumber, pageSize, PatientId);
    assert forall i :: 0 <= i < |r.data| ==> r.data[i].id == page[i].id;
  }

  /**
    The patients of one doctor are an error exactly when no doctor has the
    id. What the rows and the count hold is stated by PatientsOfDoctorPage
    and PatientsByDoctorCountsEveryMatch.
   */
  lemma PatientsByDoctorRules(s: Store, doctorId: int, pageNumber: int, pageSize: int, searchTerm: string)
    ensures GetPatientsByDoctor(s, doctorId, pageNumber, pageSize, searchTerm).Failure? <==>
      forall k :: 0 <= k < |s.doctors| ==> s.doctors[k].id != doctorId
  {
    AnyIffFirstWhere(s.doctors, DoctorWithId(doctorId));
  }

  /**
    Every row is a patient with a history linking it to the doctor, and its
    Department lists only that doctor's treatments.
   */
  ghost predicate OwnPatientsOnly(s: Store, doctorId: int, rows: seq<PatientResponse>) {
    && (forall i :: 0 <= i < |rows| ==>
          exists j :: 0 <= j < |s.histories| && s.histories[j].patientId == rows[i].id && s.histories[j].doctorId == doctorId)
    && (forall i, k :: 0 <= i < |rows| && 0 <= k < |rows[i].department| ==> rows[i].department[k].doctorId == doctorId)
  }

  /**
    A page of a doctor's patients: at most pageSize rows, each a patient
    with a history linking it to the doctor, whose Department lists only
    that doctor's treatments.
   */
  lemma PatientsOfDoctorPage(s: Store, doctorId: int, pageNumber: int, pageSize: int, searchTerm: string, page: PagedResult<PatientResponse>)
    requires GetPatientsByDoctor(s, doctorId, pageNumber, pageSize, searchTerm) == Success(page)
    ensures |page.data| <= (if pageSize <= 0 then 0 else pageSize)
    ensures OwnPatientsOnly(s, doctorId, page.data)
  {
    var linked := Where(s.patients, TreatedBy(s, doctorId));
    var matched := SearchPatients(linked, searchTerm);
    var rows := Page(matched, pageNumber, pageSize);
    assert page.data == Select(rows, PatientRow(s, HistoriesWith(s, doctorId)));
    PageWithin(matched, pageNumber, pageSize);
    forall i | 0 <= i < |page.data|
      ensures exists j :: 0 <= j < |s.histories| && s.histories[j].patientId == page.data[i].id && s.histories[j].doctorId == doctorId
    {
      var p := rows[i];
      assert p in matched;
      assert p in linked by {
        if searchTerm != "" {
          var m :| 0 <= m < |matched| && matched[m] == p;
        }
      }
      var m :| 0 <= m < |linked| && linked[m] == p;
      assert TreatedBy(s, doctorId)(p);
      AnyIffFirstWhere(s.histories, HistoryOfPair(p.id, doctorId));
      var j := FirstWhere(s.histories, HistoryOfPair(p.id, doctorId)).value;
      assert page.data[i].id == p.id;
    }
    forall i, k | 0 <= i < |page.data| && 0 <= k < |page.data[i].department|
      ensures page.data[i].department[k].doctorId == doctorId
    {
      var hs := HistoriesWith(s, doctorId)(rows[i]);
      assert page.data[i].department == Department(s.doctors, hs);
      assert HistoryOfDoctor(doctorId)(hs[k]);
    }
  }

  /** Every patient treated by the doctor and matching the term is counted in the total. */
  lemma PatientsByDoctorCountsEveryMatch(s: Store, doctorId: int, pageNumber: int, pageSize: int, searchTerm: string, m: nat, j: nat)
    requires m < |s.patients| && j < |s.histories|
    requires s.histories[j].patientId == s.patients[m].id && s.histories[j].doctorId == doctorId
    requires searchTerm != "" ==> PatientMatches(Lower(searchTerm))(s.patients[m])
    requires exists k :: 0 <= k < |s.doctors| && s.doctors[k].id == doctorId
    ensures var r := GetPatientsByDoctor(s, doctorId, pageNumber, pageSize, searchTerm);
      r.Success? && s.patients[m] in SearchPatients(Where(s.patients, TreatedBy(s, doctorId)), searchTerm)
  {
    AnyIffFirstWhere(s.doctors, DoctorWithId(doctorId));
    AnyIffFirstWhere(s.histories, HistoryOfPair(s.patients[m].id, doctorId));
    var linked := Where(s.patients, TreatedBy(s, doctorId));
    assert TreatedBy(s, doctorId)(s.patients[m]);
    assert s.patients[m] in linked;
    if searchTerm != "" {
      var n :| 0 <= n < |linked| && linked[n] == s.patients[m];
      SearchPatientsRules(linked, searchTerm);
    }
  }

  // ---------------------------------------------------------------------
  // Properties of the details query

  /** The role is matched without regard to case; an unknown role finds nobody. */
  lemma UserDetailsRoleDispatch(s: Store, userId: int, role: string)
    ensures Lower(role) != "admin" && Lower(role) != "doctor" && Lower(role) != "patient" ==> GetUserDetails(s, userId, role).None?
    ensures GetUserDetails(s, userId, role) == GetUserDetails(s, userId, Lower(role))
  {
    LowerIdempotent(role);
  }

  /** For a known role the details are those of the row with the id, and None exactly when there is none. */
  lemma UserDetailsFindsTheRow(s: Store, userId: int, role: string)
    ensures Lower(role) == "admin" ==>
      (GetUserDetails(s, userId, role).None? <==> forall k :: 0 <= k < |s.admins| ==> s.admins[k].id != userId)
    ensures Lower(role) == "doctor" ==>
      (GetUserDetails(s, userId, role).None? <==> forall k :: 0 <= k < |s.doctors| ==> s.doctors[k].id != userId)
    ensures Lower(role) == "patient" ==>
      (GetUserDetails(s, userId, role).None? <==> forall k :: 0 <= k < |s.patients| ==> s.patients[k].id != userId)
  {
  }

  /** The details of an existing patient are its listing with its Department. */
  lemma PatientDetailsOfRow(s: Store, role: string, k: nat)
    requires Consistent(s)
    requires k < |s.patients| && Lower(role) == "patient"
    ensures GetUserDetails(s, s.patients[k].id, role) ==
      Some(PatientDetails(PatientListing(s.patients[k], Department(s.doctors, HistoriesOf(s, s.patients[k].id)))))
  {
    IdFindsTheOnlyPatient(s, k);
  }

  /** The details of an existing doctor are its listing. */
  lemma DoctorDetailsOfRow(s: Store, role: string, k: nat)
    requires Consistent(s)
    requires k < |s.doctors| && Lower(role) == "doctor"
    ensures GetUserDetails(s, s.doctors[k].id, role) == Some(DoctorDetails(DoctorListing(s.doctors[k])))
  {
    IdFindsTheOnlyDoctor(s, k);
  }

  /** The details of an existing admin are its view. */
  lemma AdminDetailsOfRow(s: Store, role: string, k: nat)
    requires Consistent(s)
    requires k < |s.admins| && Lower(role) == "admin"
    ensures GetUserDetails(s, s.admins[k].id, role) == Some(AdminDetails(AdminView(s.admins[k])))
  {
    var r := FindAdmin(s.admins, s.admins[k].id);
    assert AdminId(s.admins[r.value]) == AdminId(s.admins[k]);
  }
}
