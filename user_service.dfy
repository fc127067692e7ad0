/** hospi-lock-api/src/services/database/user-service.ts: fetching,
    listing and registering users in the `user:{email}` hashes. */
module UserService {
  import opened Wrappers
  import opened JsStrings
  import opened Models
  import opened Store

  /** Reads `user:{lowercase(email)}`; the returned email is the lowercased
      query and `lock_id || ""` turns an absent or empty field into "". */
  function GetUserByEmailAsync(db0: Db, email: string): (r: Reply<User>)
    ensures r.success <==> HasRecord(db0, UserKey(Lower(email)))
    ensures !r.success ==> r == Failure(400, "No registered user with that email")
    ensures r.success ==> r.statusCode == 200 && r.message == "User fetched" && r.payload.Some?
    ensures r.success ==>
              var u, h := r.payload.value, db0[UserKey(Lower(email))];
              && u.email == Some(Lower(email))
              && u.password == Field(h, "password")
              && u.firstName == Field(h, "first_name") && u.lastName == Field(h, "last_name")
              && u.date == Field(h, "reg_date")
              && u.lockId == Some(Field(h, "lock_id").GetOr(""))
  {
    var lowerCaseEmail := Lower(email);
    var tempUser := HGetAll(db0, UserKey(lowerCaseEmail));
    if tempUser == map[] then Failure(400, "No registered user with that email")
    else
      var user := User(Some(lowerCaseEmail), Field(tempUser, "password"), Field(tempUser, "first_name"),
                       Field(tempUser, "last_name"), Field(tempUser, "reg_date"), Some(Field(tempUser, "lock_id").GetOr("")));
      Reply(true, "User fetched", 200, Some(user))
  }

  /** `user.lockId || ""` for the numeric lock id a caller may submit. */
  function LockIdText(lockId: Option<int>): string {
    if lockId.Some? && lockId.value != 0 then IntToString(lockId.value) else ""
  }

  /** The hash `addUserAsync` writes; `now` is `new Date().toISOString()`. */
  function UserRecord(user: NewUser, now: string): (h: Hash)
    ensures Field(h, "email") == Some(Lower(user.email))
    ensures Field(h, "password") == Some(user.password)
    ensures Field(h, "first_name") == Some(user.firstName) && Field(h, "last_name") == Some(user.lastName)
    ensures Field(h, "reg_date") == Some(now) && Field(h, "lock_id") == Some(LockIdText(user.lockId))
    ensures h.Keys == {"email", "password", "first_name", "last_name", "reg_date", "lock_id"}
  {
    map["email" := Lower(user.email), "password" := user.password, "first_name" := user.firstName,
        "last_name" := user.lastName, "reg_date" := now, "lock_id" := LockIdText(user.lockId)]
  }

  /** The reply of `addUserAsync`: a conflict exactly when a record is
      already stored under the lowercased email. */
  function AddUserResponse(db0: Db, user: NewUser): (r: Reply<()>)
    ensures r.success <==> !HasRecord(db0, UserKey(Lower(user.email)))
    ensures !r.success ==> r == Failure(409, "User already exists")
    ensures r.success ==> r == Reply(true, "User created", 201, None)
  {
    if HGetAll(db0, UserKey(Lower(user.email))) != map[] then Failure(409, "User already exists")
    else Reply(true, "User created", 201, None)
  }

  /** Registers a user unless one is stored under the lowercased email;
      nothing is written on a conflict. */
  method AddUserAsync(store: Redis, user: NewUser, now: string) returns (r: Reply<()>)
    requires store.Valid()
    modifies store
    ensures store.Valid()
    ensures r == AddUserResponse(old(store.db0), user)
    ensures store.db0 == if r.success then old(store.db0)[UserKey(Lower(user.email)) := UserRecord(user, now)]
                         else old(store.db0)
    ensures store.db1 == old(store.db1) && store.counter == old(store.counter) && store.logs == old(store.logs)
  {
    var lowerCaseEmail := Lower(user.email);
    var tempUser := HGetAll(store.db0, UserKey(lowerCaseEmail));
    if tempUser != map[] {
      return Failure(409, "User already exists");
    }
    UserKeysAreNotLockKeys(lowerCaseEmail);
    assert tempUser + UserRecord(user, now) == UserRecord(user, now);
    store.db0 := HSet(store.db0, UserKey(lowerCaseEmail), UserRecord(user, now));
    r := Reply(true, "User created", 201, None);
  }

  /** Round trip: after a successful registration, fetching by any casing of
      the email returns the password and names as given. */
  lemma RegisteredUserIsFetched(db0: Db, user: NewUser, now: string, query: string)
    requires AddUserResponse(db0, user).success
    requires Lower(query) == Lower(user.email)
    ensures var r := GetUserByEmailAsync(db0[UserKey(Lower(user.email)) := UserRecord(user, now)], query);
            && r.success
            && r.payload.value.email == Some(Lower(user.email))
            && r.payload.value.password == Some(user.password)
            && r.payload.value.firstName == Some(user.firstName)
            && r.payload.value.lastName == Some(user.lastName)
  {
  }

  /** Registering the same email twice, in any casing, is refused the
      second time. */
  lemma SecondRegistrationConflicts(db0: Db, user: NewUser, now: string, again: NewUser)
    requires AddUserResponse(db0, user).success
    requires Lower(again.email) == Lower(user.email)
    ensures AddUserResponse(db0[UserKey(Lower(user.email)) := UserRecord(user, now)], again)
            == Failure(409, "User already exists")
  {
    var db' := db0[UserKey(Lower(user.email)) := UserRecord(user, now)];
    assert "email" in HGetAll(db', UserKey(Lower(again.email)));
  }

  /** Lists every `user:*` hash under its key, with the field mapping of
      `UserFromHash`. */
  method GetAllUsersAsync(store: Redis) returns (allHashes: map<string, User>)
    ensures allHashes.Keys == KeysWithPrefix(store.db0, "user:")
    ensures forall k | k in allHashes :: allHashes[k] == UserFromHash(store.db0[k])
  {
    var keys := KeysWithPrefix(store.db0, "user:");
    allHashes := map[];
    var pending := keys;
    while pending != {}
      invariant pending <= keys
      invariant allHashes.Keys == keys - pending
      invariant forall k | k in allHashes :: k in store.db0 && allHashes[k] == UserFromHash(store.db0[k])
      decreases pending
    {
      var key :| key in pending;
      var hashValues := HGetAll(store.db0, key);
      allHashes := allHashes[key := UserFromHash(hashValues)];
      pending := pending - {key};
    }
  }
}
