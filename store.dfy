/** The Redis state the services share, as in-memory values: hashes keyed by
    `user:{email}`, `lock:{id}` (database 0) and `admin:{email}`
    (database 1), the integer `lock_id_counter`, and the sorted set `logs`
    (database 1). */
module Store {
  import opened Wrappers
  import opened JsStrings
  import opened Models

  /** One Redis database's hashes, by key. */
  type Db = map<string, Hash>

  // ---------------------------------------------------------------------------
  // Hash commands

  /** HGETALL: the hash at `key`, empty when there is none. */
  function HGetAll(db: Db, key: string): Hash {
    if key in db then db[key] else map[]
  }

  /** `Object.keys(hGetAll(key)).length > 0`: a record is stored at `key`. */
  predicate HasRecord(db: Db, key: string) {
    HGetAll(db, key) != map[]
  }

  /** HSET: sets the given fields of the hash at `key`, creating it when
      absent; its other fields and every other key keep their values. */
  function HSet(db: Db, key: string, fields: Hash): (db': Db)
    ensures db'.Keys == db.Keys + {key}
    ensures forall f | f in fields :: Field(db'[key], f) == Some(fields[f])
    ensures forall f | f !in fields :: Field(db'[key], f) == Field(HGetAll(db, key), f)
    ensures forall k | k in db && k != key :: db'[k] == db[k]
  {
    db[key := HGetAll(db, key) + fields]
  }

  /** KEYS `{prefix}*`. */
  function KeysWithPrefix(db: Db, prefix: string): (ks: set<string>)
    ensures forall k :: k in ks <==> k in db && HasPrefix(k, prefix)
  {
    set k | k in db && HasPrefix(k, prefix)
  }

  // ---------------------------------------------------------------------------
  // Key layout

  function UserKey(email: string): string { "user:" + email }
  function AdminKey(email: string): string { "admin:" + email }
  function LockKey(id: string): string { "lock:" + id }

  /** The key of the lock whose id is the decimal text of `n`. */
  function IssuedLockKey(n: nat): string { LockKey(NatToString(n)) }

  /** `user:` keys and `lock:` keys never coincide. */
  lemma UserKeyIsNotLockKey(email: string, id: string)
    ensures UserKey(email) != LockKey(id)
  {
    assert UserKey(email)[0] != LockKey(id)[0];
  }

  /** In particular no `user:` key is the key of a numbered lock. */
  lemma UserKeysAreNotLockKeys(email: string)
    ensures forall n: nat :: UserKey(email) != IssuedLockKey(n)
  {
    forall n: nat ensures UserKey(email) != IssuedLockKey(n) {
      UserKeyIsNotLockKey(email, NatToString(n));
    }
  }

  lemma UserKeyInjective(a: string, b: string)
    requires UserKey(a) == UserKey(b)
    ensures a == b
  {
    assert a == UserKey(a)[5..];
  }

  lemma AdminKeyInjective(a: string, b: string)
    requires AdminKey(a) == AdminKey(b)
    ensures a == b
  {
    assert a == AdminKey(a)[6..];
  }

  lemma LockKeyInjective(a: string, b: string)
    requires LockKey(a) == LockKey(b)
    ensures a == b
  {
    assert a == LockKey(a)[5..];
  }

  // ---------------------------------------------------------------------------
  // The sorted set `logs`

  /** One member of a sorted set with its score. */
  datatype Scored = Scored(score: int, member: Log)

  /** The member's JSON text (`JSON.stringify` of the entry); Redis orders
      members of equal score by these bytes. */
  function MemberText(l: Log): string {
    "{\"timestamp\":\"" + l.timestamp + "\",\"email\":\"" + l.email + "\",\"ip\":\"" + l.ip
      + "\",\"success\":" + (if l.success then "true" else "false") + "}"
  }

  /** Sorted-set order: by score, then by member text. */
  predicate Precedes(a: Scored, b: Scored) {
    a.score < b.score || (a.score == b.score && LexLeq(MemberText(a.member), MemberText(b.member)))
  }

  lemma PrecedesTotal(a: Scored, b: Scored)
    ensures Precedes(a, b) || Precedes(b, a)
  {
    LexLeqTotal(MemberText(a.member), MemberText(b.member));
  }

  lemma PrecedesTransitive(a: Scored, b: Scored, c: Scored)
    requires Precedes(a, b) && Precedes(b, c)
    ensures Precedes(a, c)
  {
    if a.score == b.score == c.score {
      LexLeqTransitive(MemberText(a.member), MemberText(b.member), MemberText(c.member));
    }
  }

  predicate ZSorted(z: seq<Scored>) {
    forall i, j | 0 <= i < j < |z| :: Precedes(z[i], z[j])
  }

  /** No member appears twice. */
  predicate DistinctMembers(z: seq<Scored>) {
    forall i, j | 0 <= i < j < |z| :: z[i].member != z[j].member
  }

  predicate HasMember(z: seq<Scored>, m: Log) {
    exists i | 0 <= i < |z| :: z[i].member == m
  }

  /** ZREM: `z` without the entries for member `m`. */
  function ZRem(z: seq<Scored>, m: Log): (r: seq<Scored>)
    ensures forall e :: e in r <==> e in z && e.member != m
    ensures |r| <= |z|
    ensures !HasMember(z, m) ==> r == z
  {
    if z == [] then []
    else if z[0].member == m then ZRem(z[1..], m)
    else
      assert HasMember(z, m) ==> HasMember(z[1..], m);
      [z[0]] + ZRem(z[1..], m)
  }

  /** Removing a member keeps the rest in order. */
  lemma {:induction false} ZRemSorted(z: seq<Scored>, m: Log)
    requires ZSorted(z)
    ensures ZSorted(ZRem(z, m))
  {
    if z != [] {
      var tail := z[1..];
      assert ZSorted(tail);
      ZRemSorted(tail, m);
      if z[0].member != m {
        var rest := ZRem(tail, m);
        forall j | 0 <= j < |rest| ensures Precedes(z[0], rest[j]) {
          var k :| 0 <= k < |tail| && tail[k] == rest[j];
          assert z[k + 1] == rest[j];
        }
        SortedCons(z[0], rest);
        assert ZRem(z, m) == [z[0]] + rest;
      }
    }
  }

  /** An entry that precedes every entry of a sorted set can go in front. */
  lemma SortedCons(e: Scored, z: seq<Scored>)
    requires ZSorted(z) && forall j | 0 <= j < |z| :: Precedes(e, z[j])
    ensures ZSorted([e] + z)
  {
    var r := [e] + z;
    forall i, j | 0 <= i < j < |r| ensures Precedes(r[i], r[j]) {
      assert r[j] == z[j - 1];
      if i > 0 {
        assert r[i] == z[i - 1];
      }
    }
  }

  /** Removing a member from a set without duplicates keeps it so, and
      shortens it by one exactly when the member was there. */
  lemma {:induction false} ZRemDistinct(z: seq<Scored>, m: Log)
    requires DistinctMembers(z)
    ensures DistinctMembers(ZRem(z, m))
    ensures |ZRem(z, m)| == if HasMember(z, m) then |z| - 1 else |z|
  {
    if z != [] {
      var tail := z[1..];
      assert DistinctMembers(tail);
      ZRemDistinct(tail, m);
      var rest := ZRem(tail, m);
      if z[0].member == m {
        assert !HasMember(tail, m);
      } else {
        assert HasMember(z, m) == HasMember(tail, m);
        forall j | 0 <= j < |rest| ensures z[0].member != rest[j].member {
          assert rest[j] in tail;
        }
        var r := ZRem(z, m);
        assert r == [z[0]] + rest;
        forall i, j | 0 <= i < j < |r| ensures r[i].member != r[j].member {
          if i > 0 { assert r[i] == rest[i - 1] && r[j] == rest[j - 1]; }
        }
      }
    }
  }

  /** Inserts `e` after every entry that precedes it. */
  function ZInsert(z: seq<Scored>, e: Scored): (r: seq<Scored>)
    ensures multiset(r) == multiset(z) + multiset{e}
    ensures |r| == |z| + 1
  {
    if z == [] || Precedes(e, z[0]) then [e] + z
    else
      assert z == [z[0]] + z[1..];
      [z[0]] + ZInsert(z[1..], e)
  }

  /** Insertion keeps a sorted set sorted. */
  lemma {:induction false} ZInsertSorted(z: seq<Scored>, e: Scored)
    requires ZSorted(z)
    ensures ZSorted(ZInsert(z, e))
  {
    var r := ZInsert(z, e);
    if z == [] {
    } else if Precedes(e, z[0]) {
      forall i, j | 0 <= i < j < |r| ensures Precedes(r[i], r[j]) {
        if i == 0 && j > 1 {
          PrecedesTransitive(e, z[0], z[j - 1]);
        }
      }
    } else {
      PrecedesTotal(e, z[0]);
      ZInsertSorted(z[1..], e);
      var rest := ZInsert(z[1..], e);
      assert r == [z[0]] + rest;
      forall j | 0 <= j < |rest| ensures Precedes(z[0], rest[j]) {
        assert rest[j] in multiset(rest);
        if rest[j] != e {
          assert rest[j] in z[1..];
        }
      }
    }
  }

  /** Inserting a new member keeps the members distinct. */
  lemma {:induction false} ZInsertDistinct(z: seq<Scored>, e: Scored)
    requires DistinctMembers(z) && !HasMember(z, e.member)
    ensures DistinctMembers(ZInsert(z, e))
  {
    var r := ZInsert(z, e);
    if z == [] || Precedes(e, z[0]) {
      forall i, j | 0 <= i < j < |r| ensures r[i].member != r[j].member {
        if i == 0 { assert r[j] == z[j - 1]; }
      }
    } else {
      ZInsertDistinct(z[1..], e);
      var rest := ZInsert(z[1..], e);
      assert r == [z[0]] + rest;
      forall j | 0 <= j < |rest| ensures z[0].member != rest[j].member {
        assert rest[j] in multiset(rest);
        if rest[j] != e {
          assert rest[j] in z[1..];
        } else {
          assert z[0].member != e.member;
        }
      }
    }
  }

  /** ZADD: adds `m` with `score`, replacing the entry of an equal member. */
  function ZAdd(z: seq<Scored>, score: int, m: Log): (r: seq<Scored>)
    ensures Scored(score, m) in r
    ensures !HasMember(z, m) ==> |r| == |z| + 1
  {
    var r := ZInsert(ZRem(z, m), Scored(score, m));
    assert Scored(score, m) in multiset(r);
    r
  }

  /** After ZADD the set holds `m` with the new score and every other member
      with its old score, in order, each member once; it grew by one entry
      unless `m` was already a member. */
  lemma ZAddSpec(z: seq<Scored>, score: int, m: Log)
    requires ZSorted(z) && DistinctMembers(z)
    ensures ZSorted(ZAdd(z, score, m)) && DistinctMembers(ZAdd(z, score, m))
    ensures forall e :: e in ZAdd(z, score, m) <==> e == Scored(score, m) || (e in z && e.member != m)
    ensures |ZAdd(z, score, m)| == if HasMember(z, m) then |z| else |z| + 1
  {
    var rem := ZRem(z, m);
    var r := ZAdd(z, score, m);
    ZRemSorted(z, m);
    ZRemDistinct(z, m);
    ZInsertSorted(rem, Scored(score, m));
    ZInsertDistinct(rem, Scored(score, m));
    forall e ensures e in r <==> e == Scored(score, m) || (e in z && e.member != m) {
      assert e in r <==> e in multiset(r);
      assert e in rem <==> e in multiset(rem);
    }
  }

  /** Every logged entry carries its score as its timestamp text. */
  predicate LogsValid(logs: seq<Scored>) {
    && ZSorted(logs)
    && DistinctMembers(logs)
    && forall i | 0 <= i < |logs| :: logs[i].score >= 0 && logs[i].member.timestamp == NatToString(logs[i].score)
  }

  // ---------------------------------------------------------------------------
  // The store

  /** Every `lock:{n}` key names a number the counter has already issued. */
  ghost predicate LockIdsIssued(db: Db, counter: nat) {
    forall n: nat :: IssuedLockKey(n) in db ==> n <= counter
  }

  /** Redis never keeps an empty hash. */
  predicate NoEmptyHashes(db: Db) {
    forall k | k in db :: db[k] != map[]
  }

  class Redis {
    /** Database 0: the `user:{email}` and `lock:{id}` hashes. */
    var db0: Db
    /** `lock_id_counter` in database 0; an absent key counts as 0. */
    var counter: nat
    /** Database 1: the `admin:{email}` hashes. */
    var db1: Db
    /** The sorted set `logs` in database 1. */
    var logs: seq<Scored>

    ghost predicate Valid()
      reads this
    {
      NoEmptyHashes(db0) && NoEmptyHashes(db1) && LockIdsIssued(db0, counter) && LogsValid(logs)
    }

    constructor ()
      ensures Valid()
      ensures db0 == map[] && db1 == map[] && counter == 0 && logs == []
    {
      db0, counter, db1, logs := map[], 0, map[], [];
    }
  }
}
