/** hospi-lock-api/src/services/database/lock-service.ts: registering locks
    under fresh ids from `lock_id_counter`, looking them up by id and by
    owner, and assigning a lock to a user. */
module LockService {
  import opened Wrappers
  import opened JsStrings
  import opened Models
  import opened Store
  import AuthService

  // ---------------------------------------------------------------------------
  // addLock

  /** The owner email `addLock` checks, lowercased, when `lock.email` is
      truthy (present and non-empty). */
  function OwnerEmail(lock: Lock): Option<string> {
    if lock.email.Some? && lock.email.value != "" then Some(Lower(lock.email.value)) else None
  }

  /** The lock object after `addLock` has lowercased its email and set its id. */
  function RegisteredLock(lock: Lock, id: nat): (l: Lock)
    ensures l.id == Some(NatToString(id)) && l.ip == lock.ip && l.status == lock.status
    ensures l.email == if OwnerEmail(lock).Some? then OwnerEmail(lock) else lock.email
  {
    Lock(Some(NatToString(id)), lock.ip, lock.status, if OwnerEmail(lock).Some? then OwnerEmail(lock) else lock.email)
  }

  /** The reply of `addLock` when the counter stands at `counter`: the user
      check's failure when a named owner is not registered, otherwise the
      lock under the next id. */
  function AddLockResponse(db0: Db, counter: nat, lock: Lock): (r: Reply<Lock>)
    ensures r.success ==> r == Reply(true, "Lock registered", 201, Some(RegisteredLock(lock, counter + 1)))
    ensures OwnerEmail(lock).None? ==> r.success
  {
    var owner := OwnerEmail(lock);
    if owner.Some? && !AuthService.CheckUserExistenceAsync(db0, owner.value).success then
      Forward(AuthService.CheckUserExistenceAsync(db0, owner.value))
    else
      Reply(true, "Lock registered", 201, Some(RegisteredLock(lock, counter + 1)))
  }

  /** `addLock` fails exactly when a named owner is not a registered user,
      with the user check's reply; otherwise it answers with the lock under
      the next id. */
  lemma AddLockResponseCases(db0: Db, counter: nat, lock: Lock)
    ensures var r := AddLockResponse(db0, counter, lock);
            r.success <==> OwnerEmail(lock).None? || HasRecord(db0, UserKey(OwnerEmail(lock).value))
    ensures var r := AddLockResponse(db0, counter, lock);
            !r.success ==> r == Failure(400, "No registered user with that email")
    ensures var r := AddLockResponse(db0, counter, lock);
            r.success ==> r == Reply(true, "Lock registered", 201, Some(RegisteredLock(lock, counter + 1)))
  {
    if OwnerEmail(lock).Some? {
      LowerIdempotent(lock.email.value);
    }
  }

  /** The next id is not yet in use, and storing a lock under it leaves no
      hash empty and every lock id one the counter has issued. */
  lemma NextIdIsFresh(db0: Db, counter: nat, l: Lock)
    requires NoEmptyHashes(db0) && LockIdsIssued(db0, counter)
    ensures IssuedLockKey(counter + 1) !in db0
    ensures forall n: nat :: IssuedLockKey(n) in db0 ==> n < counter + 1
    ensures var db' := HSet(db0, IssuedLockKey(counter + 1), LockHash(l));
            NoEmptyHashes(db') && LockIdsIssued(db', counter + 1)
  {
    var key := IssuedLockKey(counter + 1);
    var db' := HSet(db0, key, LockHash(l));
    assert "ip" in db'[key];
    forall n: nat | IssuedLockKey(n) in db' ensures n <= counter + 1 {
      if IssuedLockKey(n) == key {
        LockKeyInjective(NatToString(n), NatToString(counter + 1));
        NatToStringInjective(n, counter + 1);
      }
    }
  }

  /** Registers a lock: when an owner is named it must be a registered user;
      the counter is then incremented once and the lock stored under the new
      value, which no lock had before. */
  method AddLock(store: Redis, lock: Lock) returns (r: Reply<Lock>)
    requires store.Valid()
    modifies store
    ensures store.Valid()
    ensures r == AddLockResponse(old(store.db0), old(store.counter), lock)
    ensures !r.success ==> store.counter == old(store.counter) && store.db0 == old(store.db0)
    ensures r.success ==>
              && store.counter == old(store.counter) + 1
              && IssuedLockKey(store.counter) !in old(store.db0)
              && (forall n: nat :: IssuedLockKey(n) in old(store.db0) ==> n < store.counter)
              && store.db0 == HSet(old(store.db0), IssuedLockKey(store.counter),
                                   LockHash(RegisteredLock(lock, store.counter)))
    ensures store.db1 == old(store.db1) && store.logs == old(store.logs)
  {
    var owner := OwnerEmail(lock);
    if owner.Some? {
      LowerIdempotent(lock.email.value);
      var authResult := AuthService.CheckUserExistenceAsync(store.db0, owner.value);
      if !authResult.success {
        return Forward(authResult);
      }
    }
    NextIdIsFresh(store.db0, store.counter, RegisteredLock(lock, store.counter + 1));
    store.counter := store.counter + 1;
    var l := RegisteredLock(lock, store.counter);
    store.db0 := HSet(store.db0, LockKey(l.id.value), LockHash(l));
    r := Reply(true, "Lock registered", 201, Some(l));
  }

  // ---------------------------------------------------------------------------
  // Lookups

  function GetLockById(db0: Db, id: string): (r: Reply<Hash>)
    ensures r.success <==> HasRecord(db0, LockKey(id))
    ensures !r.success ==> r == Failure(400, "No lock with that id")
    ensures r.success ==> r == Reply(true, "Lock fetched", 200, Some(db0[LockKey(id)]))
  {
    var lock := HGetAll(db0, LockKey(id));
    if lock == map[] then Failure(400, "No lock with that id")
    else Reply(true, "Lock fetched", 200, Some(lock))
  }

  /** `lock:${user.lockId}`, where an absent `lock_id` prints as "undefined". */
  function OwnedLockKey(user: Hash): string {
    LockKey(Field(user, "lock_id").GetOr("undefined"))
  }

  /** Finds the user by lowercased email, then the lock its `lock_id` names. */
  function GetLockByEmail(db0: Db, email: string): (r: Reply<Hash>)
    ensures !HasRecord(db0, UserKey(Lower(email))) ==> r == Failure(400, "No registered user with that email")
    ensures r.success <==>
              HasRecord(db0, UserKey(Lower(email))) && HasRecord(db0, OwnedLockKey(db0[UserKey(Lower(email))]))
    ensures HasRecord(db0, UserKey(Lower(email))) && !r.success ==>
              r == Failure(400, "No lock registeret with that email")
    ensures r.success ==>
              r == Reply(true, "Lock fetched", 200, Some(db0[OwnedLockKey(db0[UserKey(Lower(email))])]))
  {
    var lowerCaseEmail := Lower(email);
    LowerIdempotent(email);
    var authResult := AuthService.CheckUserExistenceAsync(db0, lowerCaseEmail);
    if !authResult.success then Forward(authResult)
    else
      var user := authResult.payload.value;
      var lock := HGetAll(db0, LockKey(user.lockId.GetOr("undefined")));
      if lock == map[] then Failure(400, "No lock registeret with that email")
      else Reply(true, "Lock fetched", 200, Some(lock))
  }

  /** The `ip` of the user's lock, or "" when the lookup fails. */
  function GetLockIP(db0: Db, email: string): (ip: Option<string>)
    ensures var user := UserKey(Lower(email));
            HasRecord(db0, user) && HasRecord(db0, OwnedLockKey(db0[user])) ==>
              ip == Field(db0[OwnedLockKey(db0[user])], "ip")
    ensures var user := UserKey(Lower(email));
            !(HasRecord(db0, user) && HasRecord(db0, OwnedLockKey(db0[user]))) ==> ip == Some("")
  {
    var lockRequest := GetLockByEmail(db0, email);
    if lockRequest.success then Field(lockRequest.payload.value, "ip") else Some("")
  }

  /** After a lowercase email is assigned lock `id`, its lock IP is that
      lock's `ip`. */
  lemma AssignedLockIPIsFound(db0: Db, email: string, id: string)
    requires email == Lower(email)
    requires AddLockForUserResponse(db0, email, id).success
    ensures GetLockIP(AssignedRecords(db0, email, id), email) == Field(db0[LockKey(id)], "ip")
  {
    AssignedLockIsFoundByEmail(db0, email, id);
  }

  // ---------------------------------------------------------------------------
  // addLockForUser

  /** `s && s.trim() !== ""` for a hash field. */
  predicate HasNonBlank(f: Option<string>) {
    f.Some? && f.value != "" && Trim(f.value) != ""
  }

  /** `s && s.trim() === ""` for a hash field: present, non-empty, all blanks. */
  predicate IsWhitespaceOnly(f: Option<string>) {
    f.Some? && f.value != "" && Trim(f.value) == ""
  }

  /** The reply of `addLockForUser`: the user check, then the lock's
      existence, then a lock already owned, then a user whose email field
      is white space only. */
  function AddLockForUserResponse(db0: Db, email: string, id: string): (r: Reply<()>)
    ensures !HasRecord(db0, UserKey(Lower(email))) ==> r == Failure(400, "No registered user with that email")
    ensures HasRecord(db0, UserKey(Lower(email))) && !HasRecord(db0, LockKey(id)) ==>
              r == Failure(400, "No registered lock with that id")
    ensures HasRecord(db0, UserKey(Lower(email))) && HasRecord(db0, LockKey(id)) &&
            HasNonBlank(Field(db0[LockKey(id)], "email")) ==>
              r == Failure(409, "User already registered for that lock")
    ensures HasRecord(db0, UserKey(Lower(email))) && HasRecord(db0, LockKey(id)) &&
            !HasNonBlank(Field(db0[LockKey(id)], "email")) &&
            IsWhitespaceOnly(Field(db0[UserKey(Lower(email))], "email")) ==>
              r == Failure(409, "User already have a registered lock")
    ensures r.success <==>
              && HasRecord(db0, UserKey(Lower(email))) && HasRecord(db0, LockKey(id))
              && !HasNonBlank(Field(db0[LockKey(id)], "email"))
              && !IsWhitespaceOnly(Field(db0[UserKey(Lower(email))], "email"))
    ensures r.success ==> r == Reply(true, "User registeret for the specified lock", 201, None)
    ensures !r.success ==> r.statusCode == 400 || r.statusCode == 409
  {
    var authResult := AuthService.CheckUserExistenceAsync(db0, email);
    if !authResult.success then Forward(authResult)
    else
      var lock := HGetAll(db0, LockKey(id));
      if lock == map[] then Failure(400, "No registered lock with that id")
      else if HasNonBlank(Field(lock, "email")) then Failure(409, "User already registered for that lock")
      else if IsWhitespaceOnly(authResult.payload.value.email) then Failure(409, "User already have a registered lock")
      else Reply(true, "User registeret for the specified lock", 201, None)
  }

  /** The two writes of a successful assignment: `email` on `lock:{id}` (as
      given, not lowercased) and `lock_id` on `user:{email}` (not
      lowercased either); every other field keeps its value. */
  function AssignedRecords(db0: Db, email: string, id: string): (db': Db)
    ensures db'.Keys == db0.Keys + {LockKey(id), UserKey(email)}
    ensures Field(db'[LockKey(id)], "email") == Some(email)
    ensures forall f | f != "email" :: Field(db'[LockKey(id)], f) == Field(HGetAll(db0, LockKey(id)), f)
    ensures Field(db'[UserKey(email)], "lock_id") == Some(id)
    ensures forall f | f != "lock_id" :: Field(db'[UserKey(email)], f) == Field(HGetAll(db0, UserKey(email)), f)
    ensures forall k | k in db0 && k != LockKey(id) && k != UserKey(email) :: db'[k] == db0[k]
  {
    UserKeyIsNotLockKey(email, id);
    HSet(HSet(db0, LockKey(id), map["email" := email]), UserKey(email), map["lock_id" := id])
  }

  /** Assigns lock `id` to the user, after the checks of
      `AddLockForUserResponse`; nothing is written when one fails. */
  method AddLockForUser(store: Redis, email: string, id: string) returns (r: Reply<()>)
    requires store.Valid()
    modifies store
    ensures store.Valid()
    ensures r == AddLockForUserResponse(old(store.db0), email, id)
    ensures store.db0 == if r.success then AssignedRecords(old(store.db0), email, id) else old(store.db0)
    ensures store.counter == old(store.counter) && store.db1 == old(store.db1) && store.logs == old(store.logs)
  {
    var authResult := AuthService.CheckUserExistenceAsync(store.db0, email);
    if !authResult.success {
      return Forward(authResult);
    }
    var lock := HGetAll(store.db0, LockKey(id));
    if lock == map[] {
      return Failure(400, "No registered lock with that id");
    }
    if HasNonBlank(Field(lock, "email")) {
      return Failure(409, "User already registered for that lock");
    }
    if IsWhitespaceOnly(authResult.payload.value.email) {
      return Failure(409, "User already have a registered lock");
    }
    AssignmentKeepsStoreValid(store.db0, store.counter, email, id);
    store.db0 := AssignedRecords(store.db0, email, id);
    r := Reply(true, "User registeret for the specified lock", 201, None);
  }

  /** The assignment writes only an existing lock key and a user key, and
      leaves no hash empty. */
  lemma AssignmentKeepsStoreValid(db0: Db, counter: nat, email: string, id: string)
    requires NoEmptyHashes(db0) && LockIdsIssued(db0, counter) && LockKey(id) in db0
    ensures NoEmptyHashes(AssignedRecords(db0, email, id))
    ensures LockIdsIssued(AssignedRecords(db0, email, id), counter)
  {
    var db' := AssignedRecords(db0, email, id);
    assert "email" in db'[LockKey(id)];
    assert "lock_id" in db'[UserKey(email)];
    UserKeysAreNotLockKeys(email);
  }

  /** For a lowercase email, a successful assignment makes the lookup by
      email and the lookup by id return the same lock. */
  lemma AssignedLockIsFoundByEmail(db0: Db, email: string, id: string)
    requires email == Lower(email)
    requires AddLockForUserResponse(db0, email, id).success
    ensures var db' := AssignedRecords(db0, email, id);
            GetLockByEmail(db', email) == GetLockById(db', id) && GetLockById(db', id).success
  {
    var db' := AssignedRecords(db0, email, id);
    assert Field(db'[UserKey(email)], "lock_id") == Some(id);
    assert OwnedLockKey(db'[UserKey(email)]) == LockKey(id);
    assert "email" in db'[LockKey(id)];
  }

  /** For a mixed-case email the `lock_id` lands on a new key: the user's
      own record is left as it was. */
  lemma MixedCaseAssignmentMissesUserRecord(db0: Db, email: string, id: string)
    requires email != Lower(email)
    ensures HGetAll(AssignedRecords(db0, email, id), UserKey(Lower(email))) == HGetAll(db0, UserKey(Lower(email)))
  {
    if UserKey(email) == UserKey(Lower(email)) {
      UserKeyInjective(email, Lower(email));
    }
    UserKeyIsNotLockKey(Lower(email), id);
  }

  /** The "already has a lock" check looks at the user's email, not its
      `lock_id`: a user who owns a lock is still given a second free one. */
  lemma OwningALockDoesNotPreventAnother(db0: Db, email: string, id: string)
    requires HasRecord(db0, UserKey(Lower(email)))
    requires Field(db0[UserKey(Lower(email))], "lock_id").Some?
    requires Field(db0[UserKey(Lower(email))], "lock_id").value != ""
    requires Field(db0[UserKey(Lower(email))], "email") == Some(Lower(email))
    requires !IsBlank(Lower(email))
    requires HasRecord(db0, LockKey(id)) && Field(db0[LockKey(id)], "email").None?
    ensures AddLockForUserResponse(db0, email, id).success
  {
    TrimEmptyIffBlank(Lower(email));
  }

  // ---------------------------------------------------------------------------
  // getAllLocks

  function LockSummaryOf(h: Hash): LockSummary {
    LockSummary(Field(h, "id"), Field(h, "ip"), Field(h, "email"))
  }

  /** Lists every `lock:*` hash under its key as `{id, ip, email}`; the
      status is dropped. */
  method GetAllLocks(store: Redis) returns (allHashes: map<string, LockSummary>)
    ensures allHashes.Keys == KeysWithPrefix(store.db0, "lock:")
    ensures forall k | k in allHashes ::
              allHashes[k] == LockSummary(Field(store.db0[k], "id"), Field(store.db0[k], "ip"), Field(store.db0[k], "email"))
  {
    var keys := KeysWithPrefix(store.db0, "lock:");
    allHashes := map[];
    var pending := keys;
    while pending != {}
      invariant pending <= keys
      invariant allHashes.Keys == keys - pending
      invariant forall k | k in allHashes :: k in store.db0 && allHashes[k] == LockSummaryOf(store.db0[k])
      decreases pending
    {
      var key :| key in pending;
      allHashes := allHashes[key := LockSummaryOf(HGetAll(store.db0, key))];
      pending := pending - {key};
    }
  }
}
