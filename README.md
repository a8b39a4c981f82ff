# cura_backend, modelled in Dafny

cura_backend is an ASP.NET Core backend for a clinic. It keeps four tables:

- admins;
- doctors;
- patients;
- patient histories, each linking one patient with one doctor and carrying a diagnosis and a treatment.

It also keeps an in-memory table of password-reset codes. Its endpoints do the following:

- register admins (at most six), doctors (one of five specialties, in any case) and patients (each registration links the patient with a doctor);
- log any of them in and issue a token of claims;
- reset passwords with a six-digit code that expires after fifteen minutes;
- let an admin update or delete doctors and patients;
- let a doctor update or delete only their own patients, that is, those a history links to the doctor;
- list doctors and patients with a case-insensitive search and paging, and answer "who am I".

The model covers these modules, one per source component:

| module | file | models |
|---|---|---|
| `ResetCodes` | reset_code_store.dfy | `ResetCodeStore`: a class over a `map`, with pure functions giving each method's new table |
| `Models` | models.dfy | the entities, the `Store` of four tables, the invariant `Consistent`, and the lookups |
| `Data` | database.dfy | the `Database` class: the tables and identity counters, and the Add/Remove/edit operations the endpoints save |
| `AuthRules` | auth_rules.dfy | the pure rules of AuthController: specialties, reset codes, the image gate of `SaveImageAsync`, token claims |
| `Dates` | dates.dfy | the whole-years age computation, over `DateTime.AddYears` |
| `Dtos` | dtos.dfy | requests, responses, action results, and the row-to-response projections |
| `AuthController` | auth_controller.dfy | registration, login and the password reset |
| `UpdateController` | update_controller.dfy | the admin and doctor updates and deletions, and the `ImageService` gate they use |
| `UserService` | user_service.dfy | the four queries, as functions of the store |
| `UserController` | user_controller.dfy | the guards in front of the queries |
| `AuthService` | auth_service.dfy | the admin-only credential check |

`Wrappers`, `Text`, `Numbers` and `Linq` are the helpers these modules use:

- `Option` and `Result`;
- ASCII lowering;
- substring search;
- 32-bit parsing, printing and wrap-around;
- the `Where`/`Select`/`FirstOrDefault`/`Skip`/`Take` operators over sequences.

## How the endpoints are modelled

Each endpoint that writes works in two parts:

1. A pure guard function returns the first error the endpoint reports, or the edit it would save. Examples are `AdminRegistrationError` and `DoctorUpdate`.
2. A `method` over a `Data.Database` takes that result. Its `ensures` gives the response and the exact new tables. On every error path found before the first save the tables are unchanged. The one exception is a refused picture at registration (RegisterDoctor, RegisterPatient): it comes after the row was saved, and the row stays.

Lemmas about the guard function state the rules the endpoint promises. `Database.Valid()` holds the table invariant `Models.Consistent`:

- positive ids in increasing order;
- emails unique within each kind of user;
- every history points at an existing patient and doctor;
- at most one history for each (patient, doctor) pair.

Every method keeps that invariant.

### Modelling decisions

- **Tables.** Each table is a sequence of rows in id order, not a map from id to row. This is because `FirstOrDefault` without an `OrderBy` must return the first matching row, and `OrderBy(Id)` must be table order. Both only have a meaning when the rows have an order.
- **Abstract parameters.** These are passed in as values:
  - BCrypt's `HashPassword` and `Verify`, as a `Hasher`;
  - the `MailAddress` email check, as a predicate `validEmail`;
  - the clock (`DateTime.UtcNow`, and `DateTime.Now` formatted as the file stamp);
  - the random bytes of the reset code, and the `Guid`s of stored image names;
  - whether the reset mail was delivered, as a `bool`.
- **Missing form fields.** A form field the client leaves out is the empty string. The endpoints only ever test such fields with `string.IsNullOrEmpty`. `PatientDto.BloodType` is the exception, because its `?? "A+"` tells null from empty, so it is an `Option`.
- **Lowering.** `ToLower` and `OrdinalIgnoreCase` lower ASCII letters only.

### Behaviour the model keeps as the source has it

- RegisterPatient's `BirthDate == default` test never fires. The required-fields check has already ruled the value out. `PatientRegistrationChecks` proves, for first and repeated registrations alike, that "Invalid BirthDate" is never the answer.
- Registering an existing patient email again resets the blood type to the given value, or to "A+". It also rewrites all three image URLs, to null when no picture is sent. The response's `Department` lists only the history just added.
- In `UpdatePatient`, a missing `DoctorId` compares as not `<= 0`. It therefore passes the required-fields test and then reports "Doctor not found".
- `UpdateDoctor` checks for duplicate emails only when the new email differs from the doctor's own. `UpdatePatient` checks against other patients.
- The update endpoints store pictures through `ImageService`. It accepts only `.jpg`, `.jpeg` and `.png`, with no size limit. Registration accepts `.gif` too, up to 5 MB. `GifOnlyAtRegistration` and `LargeJpgOnlyAtUpdate` show two files that are treated differently.
- A refused picture at registration comes after the rows were saved. The rows stay, and the response is 400.
- The query projections leave `Age` 0, `BloodType` "A+" and the X-ray and lab URLs null.
- `GetMyDetails` fills in the X-ray and lab URLs only when the role claim is exactly "patient". The service itself matches the role without regard to case (`PatientSeesOwnImages`).
- `GetPatientsByDoctor` compares the role claim with "doctor" case-sensitively. A "Doctor" claim would skip the own-patients check in the action body. In the running program it never arrives: `[Authorize(Roles = "doctor,admin")]` compares roles ordinally and refuses it first, and Login only issues lowercase roles. The model leaves the attribute out (see "## Left out") and keeps the body's behaviour.

## Model

| member | source | states |
|---|---|---|
| ResetCodes.Stored | AuthApi/Services/ResetCodeStore.cs:9 | the email's entry becomes (code, now + lifetime); every other email keeps its entry or its absence |
| ResetCodes.Check | AuthApi/Services/ResetCodeStore.cs:12-28 | valid exactly when the email has an entry, its expiry is not before now, and the code matches; expired exactly when the entry's expiry is before now; never both |
| ResetCodes.AfterCheck | AuthApi/Services/ResetCodeStore.cs:20-25 | validation drops only an expired entry of that email; every other entry stays as it was |
| ResetCodes.Removed | AuthApi/Services/ResetCodeStore.cs:30-33 | the email has no entry afterwards; all other entries are unchanged |
| ResetCodes.ResetCodeStore.constructor | AuthApi/Services/ResetCodeStore.cs:5 | the table starts empty |
| ResetCodes.ResetCodeStore.StoreCode | AuthApi/Services/ResetCodeStore.cs:7-10 | the table becomes the upsert of the email's code and expiry |
| ResetCodes.ResetCodeStore.ValidateCode | AuthApi/Services/ResetCodeStore.cs:12-28 | returns (valid, isExpired) as Check gives them on the old table, and leaves the table as AfterCheck gives it |
| ResetCodes.ResetCodeStore.RemoveCode | AuthApi/Services/ResetCodeStore.cs:30-33 | the table loses that email's entry and nothing else |
| ResetCodes.StoredCodeValidUntilExpiry | AuthApi/Services/ResetCodeStore.cs:7-27 | a stored code is accepted, not expired, at every instant up to and including its expiry, and checking it changes nothing |
| ResetCodes.OverwriteInvalidatesOldCode | AuthApi/Services/ResetCodeStore.cs:9 | after a new code is stored for an email, the previous different code is refused |
| ResetCodes.OtherEmailsUnaffected | AuthApi/Services/ResetCodeStore.cs:7-33 | storing or removing one email's code does not change any other email's validation answer |
| ResetCodes.AbsentEmailUnchanged | AuthApi/Services/ResetCodeStore.cs:14-18 | an email without an entry is refused, not expired, and the table is unchanged |
| ResetCodes.ExpiredCodeIsPurged | AuthApi/Services/ResetCodeStore.cs:20-25 | an expired entry is reported as expired once and removed, so an immediate retry is refused as unknown |
| ResetCodes.WrongCodeKeepsEntry | AuthApi/Services/ResetCodeStore.cs:20-27 | a wrong guess at an unexpired code is refused as not expired, keeps the entry, and the right code is still accepted |
| ResetCodes.RemoveIdempotent | AuthApi/Services/ResetCodeStore.cs:30-33 | removing an absent email changes nothing; removing twice is removing once |
| Models.FindAdminByEmail | AuthApi/Controllers/AuthController.cs:493-497 | FirstOrDefault by email: the first admin with the email, or None exactly when none has it |
| Models.FindDoctorByEmail | AuthApi/Controllers/AuthController.cs:525-529 | the first doctor with the email, or None exactly when none has it |
| Models.FindPatientByEmail | AuthApi/Controllers/AuthController.cs:557-561 | the first patient with the email, or None exactly when none has it |
| Models.FindDoctor | AuthApi/Controllers/UpdateController.cs:35-40 | a doctor with the id, or None exactly when none has it |
| Models.FindPatient | AuthApi/Controllers/UpdateController.cs:446-454 | a patient with the id, or None exactly when none has it |
| Models.FindHistory | AuthApi/Controllers/UpdateController.cs:456-462 | a history of that patient with that doctor, or None exactly when there is none |
| Data.Database.constructor | AuthApi/Data/AppDbContext.cs:12-15 | four empty tables, satisfying the invariant |
| Data.Database.AddAdmin | AuthApi/Controllers/AuthController.cs:220-221 | appends the admin under the next identity value, keeps the invariant, and leaves the other tables unchanged |
| Data.Database.AddDoctor | AuthApi/Controllers/AuthController.cs:290-291 | appends the doctor under the next identity value, keeps the invariant, and leaves the other tables unchanged |
| Data.Database.AddPatient | AuthApi/Controllers/AuthController.cs:384 | appends the patient under the next identity value, an id that no history refers to yet |
| Data.Database.AddHistory | AuthApi/Controllers/AuthController.cs:424-425 | appends a history for an existing patient and doctor pair that has none yet, keeping the invariant |
| Data.Database.SetDoctor | AuthApi/Controllers/UpdateController.cs:42-103 | replaces one doctor row with a row of the same id whose email no other doctor has |
| Data.Database.SetPatient | AuthApi/Controllers/UpdateController.cs:147-180 | replaces one patient row with a row of the same id whose email no other patient has |
| Data.Database.SetAdmin | AuthApi/Controllers/AuthController.cs:775-778 | replaces one admin row with a row of the same id and email |
| Data.Database.SetHistory | AuthApi/Controllers/UpdateController.cs:507-509 | rewrites one history's diagnosis, treatment and date, and nothing else |
| Data.Database.RemoveHistories | AuthApi/Controllers/UpdateController.cs:326-331 | RemoveRange: the histories become those kept by the filter, in order |
| Data.Database.RemoveDoctor | AuthApi/Controllers/UpdateController.cs:345 | removes the doctor with the id once no history refers to it, keeping the invariant |
| Data.Database.RemovePatient | AuthApi/Controllers/UpdateController.cs:415 | removes the patient with the id once no history refers to it, keeping the invariant |
| AuthRules.SpecialtyAllowedIff | AuthApi/Controllers/AuthController.cs:26-33 | a specialty is allowed exactly when, lowercased, it is one of cardiology, neurology, pediatrics, orthopedics, dermatology |
| AuthRules.ResetCodeIsSixDigits | AuthApi/Controllers/AuthController.cs:643-649 | the reset code is six decimal digits whose value is the little-endian UInt32 of the random bytes modulo 10^6 |
| AuthRules.GetExtension | AuthApi/Controllers/AuthController.cs:73 | Path.GetExtension: the suffix from the last dot that is not followed by a dot or separator, or empty exactly when there is no such dot |
| AuthRules.SaveImageGate | AuthApi/Controllers/AuthController.cs:62-83 | no file or an empty one stores nothing; a file is stored exactly when it is at most 5 MB and .jpg/.jpeg/.png/.gif in any case; size is reported before type |
| AuthRules.StoredUrlKeepsExtension | AuthApi/Controllers/AuthController.cs:109-127 | an acceptable file is stored, and the stored URL's extension is the file's extension lowercased |
| AuthRules.PatientImagesAllOrFirstRefusal | AuthApi/Controllers/AuthController.cs:431-442 | the three pictures are stored exactly when each passes the gate; the error is the first refusal's; no pictures gives three nulls |
| AuthRules.UserIdClaimRoundTrip | AuthApi/Controllers/AuthController.cs:162-169 | the userId claim of a token parses back through int.TryParse to the id it was made from |
| Dates.AddYears | AuthApi/Controllers/AuthController.cs:275 | DateTime.AddYears keeps the month, moves the year by n, keeps the day unless the new month is shorter (29 February in a common year), then takes that month's last day, and yields a valid date from a valid one |
| Dates.AgeCountsBirthdays | AuthApi/Controllers/AuthController.cs:273-275 | the stored age is the number of birthdays passed: the age-th birthday is not after today and the next one is |
| Dtos.Department | AuthApi/Services/UserService.cs:106-113 | one TreatmentHistoryDto per history, in order, carrying its doctor id, diagnosis and treatment |
| Dtos.TreatmentNamesTheDoctor | AuthApi/Controllers/AuthController.cs:444-451 | an entry for an existing doctor carries that doctor's first and last name |
| Dtos.HistoriesOf | AuthApi/Data/AppDbContext.cs:20-23 | the patient's histories are exactly the history rows with its PatientId |
| AuthController.AdminRegistrationRules | AuthApi/Controllers/AuthController.cs:187-211 | a registration gets through exactly with both fields, a valid email no admin has, and fewer than six admins; a taken email is reported whatever the count |
| AuthController.RegisterAdmin | AuthApi/Controllers/AuthController.cs:182-236 | on a refusal nothing changes; otherwise exactly one admin row is appended with the hashed password; the endpoint never takes the count past six |
| AuthController.DoctorRegistrationRules | AuthApi/Controllers/AuthController.cs:245-271 | a doctor form gets through exactly when complete, with a valid email, an allowed specialty in any case, and an email no doctor has; admins and patients do not matter |
| AuthController.RegisterDoctor | AuthApi/Controllers/AuthController.cs:239-324 | on a refusal nothing changes; otherwise the doctor is appended with its computed age, and a refused picture leaves the row saved and answers 400 |
| AuthController.PatientRegistrationChecks | AuthApi/Controllers/AuthController.cs:333-361 | for every registration: 400 on a missing field exactly when one is missing, then "Doctor not found" exactly when no doctor has the id; "Invalid BirthDate" is never the answer, and an accepted form has a valid email and an existing doctor |
| AuthController.PatientRegistrationRules | AuthApi/Controllers/AuthController.cs:386-407 | an existing patient email needs a verifying password, and a second history with that doctor is refused |
| AuthController.RegisteredRowRules | AuthApi/Controllers/AuthController.cs:363-396 | the saved row has the form's email, a positive id, the computed age and the blood type or "A+"; a new row gets the next id and hash; an existing one keeps its id and hash |
| AuthController.PutPatient | AuthApi/Controllers/AuthController.cs:367-396 | the row replaces the patient with its email, or is appended when there is none; other patients are untouched |
| AuthController.SaveRegisteredRow | AuthApi/Controllers/AuthController.cs:367-396 | the saved patient row is RegisteredRow at its position, and it has no history with the form's doctor yet |
| AuthController.LinkHistory | AuthApi/Controllers/AuthController.cs:409-426 | appends exactly one history linking the patient and the doctor, with the next history id |
| AuthController.AttachImages | AuthApi/Controllers/AuthController.cs:431-442 | writes the three image URLs, null ones included, into the patient row and changes nothing else |
| AuthController.RegisterPatient | AuthApi/Controllers/AuthController.cs:327-478 | on a refusal nothing changes; otherwise the patient row is saved, one history is appended, and the pictures are attached or the first refusal is returned |
| AuthController.SavePatientRegistration | AuthApi/Controllers/AuthController.cs:367-471 | after the checks pass: the row is found or created by email, one history is appended, and the pictures are attached or their first refusal is answered with the row already saved |
| AuthController.LoginOutcome | AuthApi/Controllers/AuthController.cs:487-590 | both failure causes give "Invalid email or password"; success exactly when the first of admin, doctor, patient holding the email verifies the password |
| AuthController.LoginResultMatchesClaims | AuthApi/Controllers/AuthController.cs:493-590 | a success has role admin with isAdmin true, or doctor or patient with isAdmin false; the id of a matching row; and a token with the same claims |
| AuthController.RegisteredAdminLogsIn | AuthApi/Controllers/AuthController.cs:493-523 | an admin logs in with the password the stored hash was made from, getting role admin, its id and its claims |
| AuthController.RequestPasswordReset | AuthApi/Controllers/AuthController.cs:688-737 | missing, malformed and unknown emails store no code; for a known email the code is stored before sending and stays stored when sending fails |
| AuthController.IssuedCodeAccepted | AuthApi/Controllers/AuthController.cs:716-727 | the code just issued is accepted for fifteen minutes, whatever happened to the mail |
| AuthController.WithPasswordChangesOnlyTheHash | AuthApi/Controllers/AuthController.cs:774-788 | a reset changes at most the password hash of rows with that email and leaves everything else alone |
| AuthController.ResetPasswordThenLogin | AuthApi/Controllers/AuthController.cs:774-788 | after a reset, the new password logs in with that email |
| AuthController.ResetCodeSingleUse | AuthApi/Controllers/AuthController.cs:789 | once removed, the same code is refused as unknown |
| AuthController.SavePasswordHash | AuthApi/Controllers/AuthController.cs:774-788 | the hash of the first admin, else doctor, else patient with the email is replaced |
| AuthController.ResetPassword | AuthApi/Controllers/AuthController.cs:740-799 | missing fields and refused codes change no hash; an unknown email changes nothing; otherwise one hash is rewritten and only then the code is removed |
| UpdateController.ServiceImageGate | AuthApi/Services/ImageService.cs:21-66 | stores exactly the non-empty .jpg/.jpeg/.png files in any case, with no size limit; every refusal is "Failed to save image."; the URL keeps the extension |
| UpdateController.GifOnlyAtRegistration | AuthApi/Services/ImageService.cs:31-36 | a GIF that registration stores is refused by the update endpoints |
| UpdateController.LargeJpgOnlyAtUpdate | AuthApi/Services/ImageService.cs:26-36 | a JPG over 5 MB that registration refuses is stored by the update endpoints |
| UpdateController.PatientUploads | AuthApi/Controllers/UpdateController.cs:219-268 | a successful upload changes only the three image URLs; a failure is the image service's message |
| UpdateController.PatientUploadsRules | AuthApi/Controllers/UpdateController.cs:219-268 | without files the pictures stay; any refused file fails the update; an unsent picture keeps its URL; a sent one takes the stored URL |
| UpdateController.DoctorPatchRules | AuthApi/Controllers/UpdateController.cs:53-81 | each field changes only when supplied, and then to the value; id, age and image stay; an empty patch is the identity; without a password a patch is idempotent |
| UpdateController.PatientPatchRules | AuthApi/Controllers/UpdateController.cs:147-180 | the same for patients; id, age, blood type, creation time and image URLs never change |
| UpdateController.DoctorUpdateRules | AuthApi/Controllers/UpdateController.cs:36-50 | 404 exactly when no doctor has the id; an email another doctor has is refused; the saved row keeps the id and an email no other doctor has |
| UpdateController.UpdateDoctor | AuthApi/Controllers/UpdateController.cs:29-125 | on a refusal nothing changes; otherwise only that doctor's row is replaced by the patched row |
| UpdateController.HistoryAdditionRules | AuthApi/Controllers/UpdateController.cs:183-216 | a history is added exactly when all three fields are given, the doctor exists and the pair is new; only some fields is refused; none adds nothing |
| UpdateController.PatientUpdate | AuthApi/Controllers/UpdateController.cs:135-144 | a success edits the row that has the id |
| UpdateController.PatientUpdateRules | AuthApi/Controllers/UpdateController.cs:135-175 | 404 exactly when no patient has the id; an email another patient has is refused |
| UpdateController.PatientUpdateSavesOwnRow | AuthApi/Controllers/UpdateController.cs:135-200 | a success saves over the row with the id a row keeping its id, age, blood type and creation time, with an email no other patient has, and adds the history the form asks for |
| UpdateController.AddRequestedHistory | AuthApi/Controllers/UpdateController.cs:215 | appends the requested history, or nothing |
| UpdateController.UpdatePatient | AuthApi/Controllers/UpdateController.cs:128-311 | on a refusal nothing changes; otherwise the patient row is replaced and at most one history is appended |
| UpdateController.PatientUpdateByDoctor | AuthApi/Controllers/UpdateController.cs:439-510 | a success edits the row that has the id and one existing history |
| UpdateController.DoctorUpdatesOnlyOwnPatients | AuthApi/Controllers/UpdateController.cs:439-510 | a successful doctor update has a numeric userId claim and revises that doctor's own history with the patient; both diagnosis and treatment or neither |
| UpdateController.DoctorUpdateGuards | AuthApi/Controllers/UpdateController.cs:439-462 | bad claims are refused before any lookup; a doctor without a history with an existing patient is refused |
| UpdateController.UpdatePatientByDoctor | AuthApi/Controllers/UpdateController.cs:432-604 | on a refusal nothing changes; otherwise the patient row is replaced and the caller's history is edited in place, so the number of histories is kept |
| UpdateController.DeleteDoctor | AuthApi/Controllers/UpdateController.cs:314-359 | 404 changes nothing; otherwise the doctor and exactly its histories are removed, and other doctors' histories stay |
| UpdateController.DeletePatient | AuthApi/Controllers/UpdateController.cs:362-429 | 404 changes nothing; otherwise the patient and all its histories, with every doctor, are removed |
| UpdateController.DeletePatientByDoctor | AuthApi/Controllers/UpdateController.cs:607-693 | bad claims, an unknown patient or a missing history change nothing; otherwise the patient and all its histories are removed; success needs the caller's history |
| UserService.PageStart | AuthApi/Services/UserService.cs:42 | the offset is a 32-bit value, equal to (pageNumber - 1) * pageSize whenever that does not overflow |
| UserService.PageIsSlice | AuthApi/Services/UserService.cs:40-43 | a page is the slice from (p - 1) * z up to z rows further, clipped to the list |
| UserService.PageWithin | AuthApi/Services/UserService.cs:92-95 | a page has at most pageSize rows, no more than the list, and only rows of the list |
| UserService.PageKeepsIncreasing | AuthApi/Services/UserService.cs:160-163 | a page of rows in id order is in id order |
| UserService.GetAllDoctors | AuthApi/Services/UserService.cs:22-70 | the page number and size are echoed; the total is the number of matching doctors |
| UserService.GetAllPatients | AuthApi/Services/UserService.cs:72-130 | the page number and size are echoed; the total is the number of matching patients |
| UserService.GetPatientsByDoctor | AuthApi/Services/UserService.cs:132-200 | the only error is "Doctor not found"; a page echoes its number and size |
| UserService.GetUserDetails | AuthApi/Services/UserService.cs:202-275 | admin, doctor and patient details are returned only for the lowered roles "admin", "doctor" and "patient" |
| UserService.SearchDoctorsRules | AuthApi/Services/UserService.cs:30-37 | an empty term keeps every doctor; any other keeps exactly the doctors matching the lowered term |
| UserService.SearchPatientsRules | AuthApi/Services/UserService.cs:83-89 | an empty term keeps every patient; any other keeps exactly the patients matching the lowered term |
| UserService.SearchIgnoresTermCase | AuthApi/Services/UserService.cs:32-36 | two terms that lower alike select the same rows |
| UserService.DoctorMatchIsSubstring | AuthApi/Services/UserService.cs:33-36 | a doctor matches exactly when the term occurs at some position in its lowered first name, last name, email or specialty |
| UserService.PatientMatchIsSubstring | AuthApi/Services/UserService.cs:86-88 | a patient matches exactly when the term occurs at some position in its lowered first name, last name or email |
| UserService.AllDoctorsRules | AuthApi/Services/UserService.cs:39-63 | at most pageSize rows in increasing id order, each a doctor of the table; without a term the total is the number of doctors |
| UserService.AllPatientsRules | AuthApi/Services/UserService.cs:91-123 | at most pageSize rows in id order; each Department has one entry per history of the patient, naming its doctor |
| UserService.PatientsByDoctorRules | AuthApi/Services/UserService.cs:138-143 | the query fails exactly when no doctor has the id |
| UserService.PatientsOfDoctorPage | AuthApi/Services/UserService.cs:145-183 | every row is a patient a history links to the doctor, and its Department lists only that doctor's histories |
| UserService.PatientsByDoctorCountsEveryMatch | AuthApi/Services/UserService.cs:145-159 | every patient the doctor treats that matches the term is counted in the total |
| UserService.UserDetailsRoleDispatch | AuthApi/Services/UserService.cs:208-267 | the role is matched lowered; an unknown role gives null |
| UserService.UserDetailsFindsTheRow | AuthApi/Services/UserService.cs:208-267 | for a known role, null exactly when no row of that kind has the id |
| UserService.AdminDetailsOfRow | AuthApi/Services/UserService.cs:210-219 | an existing admin's details are its id and email |
| UserService.DoctorDetailsOfRow | AuthApi/Services/UserService.cs:221-236 | an existing doctor's details are its listing |
| UserService.PatientDetailsOfRow | AuthApi/Services/UserService.cs:238-263 | an existing patient's details are its listing with one Department entry per history of that patient |
| UserController.ListGuards | AuthApi/Controllers/UserController.cs:35-68 | the lists answer 400 exactly when a paging parameter is below one, and otherwise a page in id order with at most pageSize rows |
| UserController.DoctorListIsTheAskedPage | AuthApi/Controllers/UserController.cs:35-43 | valid paging returns the slice of matching doctors starting at (pageNumber - 1) * pageSize |
| UserController.PatientsByDoctorGuards | AuthApi/Controllers/UserController.cs:85-119 | the checks come in order: doctor id, paging, claims, the doctor's own id, then an unknown doctor as a 500 with the service's message |
| UserController.DoctorSeesOnlyOwnPatients | AuthApi/Controllers/UserController.cs:97-114 | a caller with role doctor who gets an answer asked for their own id, and sees only patients linked to them and only their own treatments |
| UserController.PatientsByDoctorOk | AuthApi/Controllers/UserController.cs:85-114 | a success passed every guard and is the service's page |
| UserController.MyDetailsOutcome | AuthApi/Controllers/UserController.cs:125-158 | 401 for bad claims; 404 exactly for an unknown role or id; each answer carries its message |
| UserController.PatientSeesOwnImages | AuthApi/Controllers/UserController.cs:147-155 | a patient asking with the exact role "patient" gets their X-ray and lab URLs; a role differing in case gets the row without them |
| AuthService.Login | AuthApi/Services/AuthService.cs:15-21 | true only for an admin with the email whose hash verifies the password; false when no admin has the email |
| AuthService.LoginIffAdminVerifies | AuthApi/Services/AuthService.cs:15-21 | with unique admin emails, the check passes exactly when the admin with the email verifies the password |
| AuthService.AgreesWithLoginEndpoint | AuthApi/Services/AuthService.cs:15-21 | for non-empty fields, the check passes exactly when the login endpoint logs in an admin |

## Left out

- JWT signing: the Guid `jti`, HMAC-SHA256 and the expiry. A token is its claims: subject, role, userId and isAdmin.
- `[Authorize]` attributes and role policies. The framework enforces them before an endpoint runs. The claims an endpoint reads are a parameter.
- `ResetDatabase`: it clears the tables and reseeds identities with raw SQL, so it is not part of this model.
- BCrypt and the `MailAddress` email check are parameters (`Hasher`, `validEmail`). Only `Sound(h)`, meaning verify accepts the password a hash was made from, is assumed where a lemma needs it. `Hasher.verify` is total, so the 500 answers Login gives when `BCrypt.Verify` throws on a malformed stored hash are not modelled.
- The reset mail's body and its SMTP sending. A `delivered` flag says whether sending succeeded.
- Image file I/O: creating directories, writing files, and deleting the old file when a picture is replaced. The write is taken to succeed. `DeleteImage` and the Cloudinary upload service are not part of this model.
- Database failures. The 500 answers for exceptions thrown by `SaveChanges` or the queries, with their details, are not modelled. The one exception the model keeps is the service's "Doctor not found".
- Logging, async execution and concurrency. The reset-code table is modelled sequentially.
- AuthController.RegisterAdmin: the count bound is stated for this endpoint alone; ResetDatabase is left out and seeds two admins.
- Data.Database.AddAdmin: identity values are unbounded integers; the 32-bit overflow of an identity column is not modelled.
- UserService.PageIsSlice: stated for offsets that fit in 32 bits. `PageStart` models the wrap-around, and a wrapped (negative) offset is treated as LINQ's `Skip` treats it, as zero. A database may reject a negative OFFSET instead.
- UserService.SearchDoctorsRules: case-insensitive matching uses ASCII lowering, and the database's collation is not modelled.
- Models.FindAdminByEmail, Models.FindDoctorByEmail, Models.FindPatientByEmail: every string comparison the database evaluates is modelled as exact (a binary collation). SQL Server's default collation compares emails without regard to case and ignores trailing spaces, so the model may treat as different two emails the database treats as equal. This affects the taken-email checks of RegisterAdmin, RegisterDoctor and RegisterPatient, the three lookups of Login, RequestPasswordReset, ResetPassword, the email checks of UpdateDoctor, UpdatePatient and UpdatePatientByDoctor, and AuthService.Login.
- Navigation collections (`PatientHistories`) are taken in table order. The response's `Department` for a patient registration lists only the history just added.
- Null request bodies are read as forms with every field empty.
- Automatic `[ApiController]` model validation is not modelled. If nullable reference types are enabled in the project file, which is not part of this model, the non-nullable strings of `DoctorDto` and `PatientDto` are implicitly required. A missing field would then get the framework's 400 before the endpoint's own "... are required" message.
