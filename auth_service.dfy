/**
  AuthService: the admin-only credential check, separate from the login
  endpoint. Only the Admins table is consulted.
 */
module AuthService {
  import opened Wrappers
  import opened Models
  import opened Dtos
  import AuthController

  /** AuthService.Login: the first admin with the email, whose hash must verify the password. */
  function Login(s: Store, email: string, password: string, h: Hasher): (r: bool)
    ensures r ==> exists k :: 0 <= k < |s.admins| && s.admins[k].email == email && h.verify(password, s.admins[k].passwordHash)
    ensures (forall k :: 0 <= k < |s.admins| ==> s.admins[k].email != email) ==> !r
  {
    match FindAdminByEmail(s.admins, email)
    case None => false
    case Some(k) => h.verify(password, s.admins[k].passwordHash)
  }

  /** With emails unique among admins, the check passes exactly when the admin holding the email verifies. */
  lemma LoginIffAdminVerifies(s: Store, email: string, password: string, h: Hasher)
    requires Consistent(s)
    ensures Login(s, email, password, h) <==>
      exists k :: 0 <= k < |s.admins| && s.admins[k].email == email && h.verify(password, s.admins[k].passwordHash)
  {
    if k :| 0 <= k < |s.admins| && s.admins[k].email == email && h.verify(password, s.admins[k].passwordHash) {
      var found := FindAdminByEmail(s.admins, email);
      assert AdminEmail(s.admins[found.value]) == AdminEmail(s.admins[k]);
    }
  }

  /**
    The check agrees with the login endpoint on admins: for non-empty
    fields it passes exactly when the endpoint logs the user in as an admin.
   */
  lemma AgreesWithLoginEndpoint(s: Store, email: string, password: string, h: Hasher)
    requires email != "" && password != ""
    ensures Login(s, email, password, h) <==>
      (AuthController.Login(s, LoginDto(email, password), h).Ok? && AuthController.Login(s, LoginDto(email, password), h).body.isAdmin)
  {
  }
}
