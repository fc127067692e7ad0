/** hospi-lock-api/src/services/authService.ts: the earlier authentication
    service, with a looser email pattern and a user lookup that, in
    `VerifyExistence`, omits the `user:` prefix. */
module LegacyAuthService {
  import opened Wrappers
  import opened JsStrings
  import opened Models
  import opened Store
  import EmailPattern
  import AuthService

  /** `/^[a-zA-Z0-9._-]+@[a-zA-Z0-9.-]+\.[a-zA-Z]{2,}$/.test(email)` */
  function EmailValidator(email: string): (ok: bool)
    ensures ok <==> EmailPattern.PatternMatches(email, None)
  {
    EmailPattern.AcceptsIffMatches(email, None);
    EmailPattern.Accepts(email, None)
  }

  /** This pattern accepts every email the current one does, and more:
      `a@b.info` has a four-letter top-level domain. */
  lemma AcceptsStrictSuperset(email: string)
    ensures AuthService.EmailValidator(email) ==> EmailValidator(email)
    ensures EmailValidator("a@b.info") && !AuthService.EmailValidator("a@b.info")
  {
    var e := "a@b.info";
    assert EmailPattern.MatchesWith(e, 1, 3, None);
    assert EmailPattern.IndexOf(e, '@') == 1;
    assert EmailPattern.LastIndexOf(e, '.') == 3;
  }

  /** Empty fields, then the email's form, then the record under
      `user:{lowercase(email)}`, then the password. */
  function Authentication(db0: Db, email: string, password: string): (r: Reply<()>)
    ensures email == "" || password == "" ==> r == Failure(400, "Missing required fields")
    ensures r.statusCode == 200 <==>
              email != "" && password != "" && EmailValidator(email) &&
              HasRecord(db0, UserKey(Lower(email))) &&
              Field(db0[UserKey(Lower(email))], "password") == Some(password)
    ensures r.statusCode == 401 <==>
              email != "" && password != "" && EmailValidator(email) &&
              HasRecord(db0, UserKey(Lower(email))) &&
              Field(db0[UserKey(Lower(email))], "password") != Some(password)
    ensures r.success <==> r.statusCode == 200
    ensures r.statusCode != 200 && r.statusCode != 401 ==> r.statusCode == 400
    ensures email != "" && password != "" && !EmailValidator(email) ==> r == Failure(400, "Not a valid email")
    ensures email != "" && password != "" && EmailValidator(email) && !HasRecord(db0, UserKey(Lower(email))) ==>
              r == Failure(400, "No registered user with that email")
    ensures r.statusCode == 401 ==> r == Failure(401, "Invalid password")
    ensures r.success ==> r == Reply(true, "OK", 200, None)
  {
    if email == "" || password == "" then Failure(400, "Missing required fields")
    else if !EmailValidator(email) then Failure(400, "Not a valid email")
    else
      var tempUser := HGetAll(db0, UserKey(Lower(email)));
      if tempUser == map[] then Failure(400, "No registered user with that email")
      else if Some(password) != Field(tempUser, "password") then Failure(401, "Invalid password")
      else Reply(true, "OK", 200, None)
  }

  /** With a non-empty password, every user sign-in the current service
      accepts is accepted here too. */
  lemma AcceptsWhatCurrentServiceAccepts(db0: Db, db1: Db, email: string, password: string)
    requires password != ""
    requires AuthService.AuthenticationAsync(db0, db1, email, password, USER).success
    ensures Authentication(db0, email, password).success
  {
    AuthService.UserSignInIff(db0, db1, email, password);
    AcceptsStrictSuperset(email);
  }

  /** Checks the email and looks for any record under the bare key
      `lowercase(email)`; the password is never read. */
  function VerifyExistence(db0: Db, email: string): (r: Reply<()>)
    ensures email == "" ==> r == Failure(400, "Missing required field")
    ensures email != "" && !EmailValidator(email) ==> r == Failure(400, "Not a valid email")
    ensures r.success <==> email != "" && EmailValidator(email) && HasRecord(db0, Lower(email))
    ensures r.success ==> r == Reply(true, "OK", 200, None)
    ensures !r.success ==> r.statusCode == 400
    ensures email != "" && EmailValidator(email) && !r.success ==> r == Failure(400, "No registered user with that email")
  {
    if email == "" then Failure(400, "Missing required field")
    else if !EmailValidator(email) then Failure(400, "Not a valid email")
    else if HGetAll(db0, Lower(email)) == map[] then Failure(400, "No registered user with that email")
    else Reply(true, "OK", 200, None)
  }

  /** Because of the missing prefix, a registered user (stored under
      `user:{email}`) is not found when nothing is stored under the bare
      email. */
  lemma VerifyExistenceMissesRegisteredUsers(db0: Db, email: string)
    requires HasRecord(db0, UserKey(Lower(email))) && !HasRecord(db0, Lower(email))
    ensures !VerifyExistence(db0, email).success
  {
  }
}
