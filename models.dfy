/** The record shapes of hospi-lock-api/src/models and the service replies
    (`UserRequest`, `AdminRequest`, `LockRequest`): a success flag, a
    message, an HTTP status code and an optional payload. */
module Models {
  import opened Wrappers
  import opened JsStrings

  /** A Redis hash: field name to field value. */
  type Hash = map<string, string>

  /** `hash.field`: `undefined` when the hash has no such field. */
  function Field(h: Hash, name: string): Option<string> {
    if name in h then Some(h[name]) else None
  }

  /** The values of the string enum `Role`. */
  const USER := "user"
  const ADMIN := "admin"

  /** A user as the services hand it out; every field read from a hash may
      be `undefined`. */
  datatype User = User(
    email: Option<string>,
    password: Option<string>,
    firstName: Option<string>,
    lastName: Option<string>,
    date: Option<string>,
    lockId: Option<string>)

  /** A user as a caller submits it for registration. */
  datatype NewUser = NewUser(
    email: string,
    password: string,
    firstName: string,
    lastName: string,
    lockId: Option<int>)

  datatype Admin = Admin(email: Option<string>, password: Option<string>)

  /** An admin as a caller submits it for registration. */
  datatype NewAdmin = NewAdmin(email: string, password: string)

  /** `User | Admin`, as returned by the role-dispatching checks. */
  datatype Account = UserAccount(user: User) | AdminAccount(admin: Admin) {
    function Password(): Option<string> {
      match this
      case UserAccount(u) => u.password
      case AdminAccount(a) => a.password
    }
  }

  /** A lock object as the caller hands it to `addLock`; absent members are
      `None`, `status` is the number the caller sent. */
  datatype Lock = Lock(id: Option<string>, ip: string, status: Option<int>, email: Option<string>)

  /** The `{id, ip, email}` summary `getAllLocks` builds from a lock hash. */
  datatype LockSummary = LockSummary(id: Option<string>, ip: Option<string>, email: Option<string>)

  /** A sign-in log entry: the millisecond timestamp as text, the email,
      the caller's address and whether the attempt succeeded. */
  datatype Log = Log(timestamp: string, email: string, ip: string, success: bool)

  datatype Reply<T> = Reply(success: bool, message: string, statusCode: int, payload: Option<T>) {
    /** The same reply with its payload converted. */
    function Map<U>(f: T -> U): Reply<U> {
      Reply(success, message, statusCode, if payload.Some? then Some(f(payload.value)) else None)
    }
  }

  function Failure<T>(statusCode: int, message: string): Reply<T> {
    Reply(false, message, statusCode, None)
  }

  /** The same outcome without its payload, as the services pass an inner
      failure on (`{ success, message, statusCode }`). */
  function Forward<T, U>(r: Reply<T>): Reply<U> {
    Reply(r.success, r.message, r.statusCode, None)
  }

  /** The field mapping `first_name` -> `firstName`, `last_name` ->
      `lastName`, `reg_date` -> `date`, `lock_id` -> `lockId`. */
  function UserFromHash(h: Hash): (u: User)
    ensures u.email == Field(h, "email") && u.password == Field(h, "password")
    ensures u.firstName == Field(h, "first_name") && u.lastName == Field(h, "last_name")
    ensures u.date == Field(h, "reg_date") && u.lockId == Field(h, "lock_id")
  {
    User(Field(h, "email"), Field(h, "password"), Field(h, "first_name"),
         Field(h, "last_name"), Field(h, "reg_date"), Field(h, "lock_id"))
  }

  function AdminFromHash(h: Hash): (a: Admin)
    ensures a.email == Field(h, "email") && a.password == Field(h, "password")
  {
    Admin(Field(h, "email"), Field(h, "password"))
  }

  /** The hash `hSet` writes for a lock object: one field per member that is
      present, numbers as their decimal text. */
  function LockHash(l: Lock): (h: Hash)
    ensures Field(h, "ip") == Some(l.ip)
    ensures Field(h, "id") == l.id && Field(h, "email") == l.email
    ensures Field(h, "status") == if l.status.Some? then Some(IntToString(l.status.value)) else None
    ensures h.Keys <= {"id", "ip", "status", "email"}
  {
    var withIp := map["ip" := l.ip];
    var withId := if l.id.Some? then withIp["id" := l.id.value] else withIp;
    var withStatus := if l.status.Some? then withId["status" := IntToString(l.status.value)] else withId;
    if l.email.Some? then withStatus["email" := l.email.value] else withStatus
  }
}
