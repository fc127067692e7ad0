/** hospi-lock-api/src/services/database/admin-service.ts: registering,
    fetching and listing admins in the `admin:{email}` hashes of database 1. */
module AdminService {
  import opened Wrappers
  import opened JsStrings
  import opened Models
  import opened Store
  import EmailPattern
  import AuthService

  /** The hash `addAdminAsync` writes: the lowercased email and the password. */
  function AdminRecord(admin: NewAdmin): (h: Hash)
    ensures Field(h, "email") == Some(Lower(admin.email)) && Field(h, "password") == Some(admin.password)
    ensures h.Keys == {"email", "password"}
  {
    map["email" := Lower(admin.email), "password" := admin.password]
  }

  /** The reply of `addAdminAsync`: a conflict exactly when the admin check
      on the lowercased email finds a record; the email's form is never
      checked. */
  function AddAdminResponse(db1: Db, admin: NewAdmin): (r: Reply<()>)
    ensures r.success <==> !HasRecord(db1, AdminKey(Lower(admin.email)))
    ensures !r.success ==> r == Failure(409, "Admin already registered")
    ensures r.success ==> r == Reply(true, "Admin created", 201, None)
  {
    var request := AuthService.CheckAdminExistenceAsync(db1, Lower(admin.email));
    if request.success then Failure(409, "Admin already registered")
    else Reply(true, "Admin created", 201, None)
  }

  /** Registers an admin: the existence check reads the lowercased key, the
      write goes to `admin:{email}` in the caller's casing. */
  method AddAdminAsync(store: Redis, admin: NewAdmin) returns (r: Reply<()>)
    requires store.Valid()
    modifies store
    ensures store.Valid()
    ensures r == AddAdminResponse(old(store.db1), admin)
    ensures store.db1 == if r.success then HSet(old(store.db1), AdminKey(admin.email), AdminRecord(admin))
                         else old(store.db1)
    ensures store.db0 == old(store.db0) && store.counter == old(store.counter) && store.logs == old(store.logs)
  {
    var lowerCaseEmail := Lower(admin.email);
    var request := AuthService.CheckAdminExistenceAsync(store.db1, lowerCaseEmail);
    if request.success {
      return Failure(409, "Admin already registered");
    }
    store.db1 := HSet(store.db1, AdminKey(admin.email), AdminRecord(admin));
    r := Reply(true, "Admin created", 201, None);
  }

  /** Delegates to the role check with the lowercased email: found exactly
      when the email is well formed and a record is stored under
      `admin:{lowercase(email)}`. */
  function GetAdminByEmailAsync(db0: Db, db1: Db, email: string): (r: Reply<Account>)
    ensures r.success <==> email != "" && AuthService.EmailValidator(email) && HasRecord(db1, AdminKey(Lower(email)))
    ensures email == "" ==> r == Failure(400, "Missing required field")
    ensures email != "" && !AuthService.EmailValidator(email) ==> r == Failure(400, "Not a valid email")
    ensures email != "" && AuthService.EmailValidator(email) && !r.success ==>
              r == Failure(400, "No registered admin with that email")
    ensures r.success ==> r == Reply(true, "OK", 200, Some(AdminAccount(AdminFromHash(db1[AdminKey(Lower(email))]))))
  {
    EmailPattern.AcceptsLower(email, Some(3));
    AuthService.CheckExistenceAsync(db0, db1, Lower(email), ADMIN)
  }

  /** An admin registered with a mixed-case email is stored under a key the
      duplicate check never reads: registering it again succeeds, and it
      cannot be fetched by its email. */
  lemma MixedCaseAdminIsNeitherDeduplicatedNorFound(db0: Db, db1: Db, admin: NewAdmin)
    requires admin.email != Lower(admin.email)
    requires !HasRecord(db1, AdminKey(Lower(admin.email)))
    ensures AddAdminResponse(db1, admin).success
    ensures var db1' := HSet(db1, AdminKey(admin.email), AdminRecord(admin));
            AddAdminResponse(db1', admin).success && !GetAdminByEmailAsync(db0, db1', admin.email).success
  {
    var db1' := HSet(db1, AdminKey(admin.email), AdminRecord(admin));
    if AdminKey(admin.email) == AdminKey(Lower(admin.email)) {
      AdminKeyInjective(admin.email, Lower(admin.email));
    }
    assert HGetAll(db1', AdminKey(Lower(admin.email))) == HGetAll(db1, AdminKey(Lower(admin.email)));
  }

  /** An admin registered with a lowercase, well-formed email is found again
      with the password given, and a second registration conflicts. */
  lemma LowercaseAdminRoundTrip(db0: Db, db1: Db, admin: NewAdmin)
    requires admin.email == Lower(admin.email) && admin.email != ""
    requires AuthService.EmailValidator(admin.email)
    ensures var db1' := HSet(db1, AdminKey(admin.email), AdminRecord(admin));
            var r := GetAdminByEmailAsync(db0, db1', admin.email);
            && r.success && r.payload.value.Password() == Some(admin.password)
            && AddAdminResponse(db1', admin) == Failure(409, "Admin already registered")
  {
    var db1' := HSet(db1, AdminKey(admin.email), AdminRecord(admin));
    assert "email" in HGetAll(db1', AdminKey(admin.email));
  }

  /** Lists every `admin:*` hash under its key, unconverted. */
  method GetAllAdmins(store: Redis) returns (allHashes: map<string, Hash>)
    ensures allHashes.Keys == KeysWithPrefix(store.db1, "admin:")
    ensures forall k | k in allHashes :: allHashes[k] == store.db1[k]
  {
    var keys := KeysWithPrefix(store.db1, "admin:");
    allHashes := map[];
    var pending := keys;
    while pending != {}
      invariant pending <= keys
      invariant allHashes.Keys == keys - pending
      invariant forall k | k in allHashes :: k in store.db1 && allHashes[k] == store.db1[k]
      decreases pending
    {
      var key :| key in pending;
      allHashes := allHashes[key := HGetAll(store.db1, key)];
      pending := pending - {key};
    }
  }
}
