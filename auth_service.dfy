/** hospi-lock-api/src/services/auth-service.ts: email validation, the
    per-role existence checks, password authentication and the two Express
    middlewares that gate requests by token and by role. */
module AuthService {
  import opened Wrappers
  import opened JsStrings
  import opened Models
  import opened Store
  import EmailPattern

  /** `/^[a-zA-Z0-9._-]+@[a-zA-Z0-9.-]+\.[a-zA-Z]{2,3}$/.test(email)` */
  function EmailValidator(email: string): (ok: bool)
    ensures ok <==> EmailPattern.PatternMatches(email, Some(3))
  {
    EmailPattern.AcceptsIffMatches(email, Some(3));
    EmailPattern.Accepts(email, Some(3))
  }

  /** Looks the user up under `user:{lowercase(email)}`. */
  function CheckUserExistenceAsync(db0: Db, email: string): (r: Reply<User>)
    ensures r.success <==> HasRecord(db0, UserKey(Lower(email)))
    ensures !r.success ==> r == Failure(400, "No registered user with that email")
    ensures r.success ==> r.statusCode == 200 && r.message == "OK"
    ensures r.success ==> r.payload == Some(UserFromHash(db0[UserKey(Lower(email))]))
  {
    var tempUser := HGetAll(db0, UserKey(Lower(email)));
    if tempUser == map[] then Failure(400, "No registered user with that email")
    else Reply(true, "OK", 200, Some(UserFromHash(tempUser)))
  }

  /** Looks the admin up under `admin:{email}`, with the email as given. */
  function CheckAdminExistenceAsync(db1: Db, email: string): (r: Reply<Admin>)
    ensures r.success <==> HasRecord(db1, AdminKey(email))
    ensures !r.success ==> r == Failure(400, "No registered admin with that email")
    ensures r.success ==> r.statusCode == 200 && r.message == "OK"
    ensures r.success ==> r.payload == Some(AdminFromHash(db1[AdminKey(email)]))
  {
    var tempAdmin := HGetAll(db1, AdminKey(email));
    if tempAdmin == map[] then Failure(400, "No registered admin with that email")
    else Reply(true, "OK", 200, Some(AdminFromHash(tempAdmin)))
  }

  /** Validates the email, then dispatches on the role. */
  function CheckExistenceAsync(db0: Db, db1: Db, email: string, role: string): (r: Reply<Account>)
    ensures email == "" ==> r == Failure(400, "Missing required field")
    ensures email != "" && !EmailValidator(email) ==> r == Failure(400, "Not a valid email")
    ensures email != "" && EmailValidator(email) && role != USER && role != ADMIN ==>
              r == Failure(500, "Missing role")
    ensures r.success <==>
              email != "" && EmailValidator(email) &&
              ((role == USER && HasRecord(db0, UserKey(Lower(email)))) ||
               (role == ADMIN && HasRecord(db1, AdminKey(email))))
    ensures r.success ==> r.statusCode == 200 && r.payload.Some?
    ensures email != "" && EmailValidator(email) && role == USER && !HasRecord(db0, UserKey(Lower(email))) ==>
              r == Failure(400, "No registered user with that email")
    ensures role == USER && r.success ==>
              r == Reply(true, "OK", 200, Some(UserAccount(UserFromHash(db0[UserKey(Lower(email))]))))
    ensures email != "" && EmailValidator(email) && role == ADMIN && !HasRecord(db1, AdminKey(email)) ==>
              r == Failure(400, "No registered admin with that email")
    ensures role == ADMIN && r.success ==>
              r == Reply(true, "OK", 200, Some(AdminAccount(AdminFromHash(db1[AdminKey(email)]))))
  {
    if email == "" then Failure(400, "Missing required field")
    else if !EmailValidator(email) then Failure(400, "Not a valid email")
    else if role == USER then CheckUserExistenceAsync(db0, email).Map(u => UserAccount(u))
    else if role == ADMIN then CheckAdminExistenceAsync(db1, email).Map(a => AdminAccount(a))
    else Failure(500, "Missing role")
  }

  /** An empty or malformed email is rejected before the store is read: the
      answer is the same whatever the databases hold. */
  lemma RejectsBeforeAnyRead(db0: Db, db1: Db, other0: Db, other1: Db, email: string, role: string)
    requires email == "" || !EmailValidator(email)
    ensures CheckExistenceAsync(db0, db1, email, role) == CheckExistenceAsync(other0, other1, email, role)
    ensures CheckExistenceAsync(db0, db1, email, role).statusCode == 400
  {
  }

  /** Users are found by any casing of their email; admins only by the
      exact casing of their key. */
  lemma UserLookupIgnoresCase(db0: Db, a: string, b: string)
    requires Lower(a) == Lower(b)
    ensures CheckUserExistenceAsync(db0, a) == CheckUserExistenceAsync(db0, b)
  {
  }

  /** Checks existence, then compares the password as plain text. */
  function AuthenticationAsync(db0: Db, db1: Db, email: string, password: string, role: string): (r: Reply<Account>)
    ensures var c := CheckExistenceAsync(db0, db1, email, role);
            !c.success ==> r == Failure(c.statusCode, c.message)
    ensures var c := CheckExistenceAsync(db0, db1, email, role);
            c.success ==> (r.success <==> c.payload.value.Password() == Some(password))
    ensures var c := CheckExistenceAsync(db0, db1, email, role);
            c.success && !r.success ==> r == Failure(401, "Invalid password")
    ensures r.success ==> r == Reply(true, "OK", 200, CheckExistenceAsync(db0, db1, email, role).payload)
  {
    var verifyResult := CheckExistenceAsync(db0, db1, email, role);
    if !verifyResult.success then Failure(verifyResult.statusCode, verifyResult.message)
    else if Some(password) != verifyResult.payload.value.Password() then Failure(401, "Invalid password")
    else Reply(true, "OK", 200, verifyResult.payload)
  }

  /** A user signs in exactly when the email is well formed, a record is
      stored under its lowercase form and its `password` field equals the
      password given. */
  lemma UserSignInIff(db0: Db, db1: Db, email: string, password: string)
    ensures AuthenticationAsync(db0, db1, email, password, USER).success <==>
              email != "" && EmailValidator(email) && HasRecord(db0, UserKey(Lower(email))) &&
              Field(db0[UserKey(Lower(email))], "password") == Some(password)
  {
  }

  // ---------------------------------------------------------------------------
  // Middleware

  /** The decoded token payload. */
  datatype Claims = Claims(email: Option<string>, role: Option<string>)

  /** What a middleware does with a request: answer it, or pass it on. */
  datatype Handling = Respond(status: int, body: string) | Next

  /** The parts of an Express request the middlewares read and write. */
  class Request {
    var token: Option<string>
    var email: Option<string>
    var role: Option<string>

    constructor (token: Option<string>)
      ensures this.token == token && email == None && role == None
    {
      this.token, email, role := token, None, None;
    }
  }

  /** `verifyToken`: a missing token is refused with 403, one that does not
      verify with 500; otherwise the claims are copied onto the request and
      the request goes on. `verify` stands for `jwt.verify` with the server
      secret. */
  method VerifyToken(req: Request, verify: string -> Option<Claims>) returns (h: Handling)
    modifies req
    ensures req.token == old(req.token)
    ensures (req.token == None || req.token == Some("")) ==>
              h == Respond(403, "No token provided") && unchanged(req)
    ensures req.token.Some? && req.token != Some("") && verify(req.token.value).None? ==>
              h == Respond(500, "Failed to authenticate token") && unchanged(req)
    ensures req.token.Some? && req.token != Some("") && verify(req.token.value).Some? ==>
              var decoded := verify(req.token.value).value;
              h == Next && req.email == decoded.email && req.role == decoded.role
  {
    var token := req.token;
    if token == None || token == Some("") {
      return Respond(403, "No token provided");
    }
    var decoded := verify(token.value);
    if decoded.None? {
      return Respond(500, "Failed to authenticate token");
    }
    req.email := decoded.value.email;
    req.role := decoded.value.role;
    h := Next;
  }

  /** `checkRole(role)`: the request goes on exactly when its role is the
      required one. */
  function CheckRole(role: string, req: Request): (h: Handling)
    reads req
    ensures h == Next <==> req.role == Some(role)
    ensures h != Next ==> h == Respond(403, "Access denied")
  {
    if req.role != Some(role) then Respond(403, "Access denied") else Next
  }

  /** `Role[name]` on the string enum: defined for the member names only. */
  function RoleByName(name: string): Option<string> {
    if name == "USER" then Some(USER) else if name == "ADMIN" then Some(ADMIN) else None
  }

  /** The payload `generateToken` signs: `{ email, role: Role[role] }`. */
  function GenerateTokenPayload(email: string, role: string): (c: Claims)
    ensures c.email == Some(email)
    ensures c.role.Some? <==> role == "USER" || role == "ADMIN"
    ensures c.role.Some? ==> c.role.value == Lower(role)
  {
    Claims(Some(email), RoleByName(role))
  }

  /** `generateToken` is called with a role value, for which `Role[role]` is
      `undefined`: the signed payload has no role, and a request carrying it
      is refused by every role gate. */
  lemma GeneratedTokenFailsEveryRoleGate(email: string, role: string, required: string, req: Request)
    requires role == USER || role == ADMIN
    requires req.role == GenerateTokenPayload(email, role).role
    ensures GenerateTokenPayload(email, role).role == None
    ensures CheckRole(required, req) == Respond(403, "Access denied")
  {
  }
}
