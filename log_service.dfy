/** hospi-lock-api/src/services/database/log-service.ts: the sign-in log,
    kept as the sorted set `logs` in database 1 and scored by the time of
    the attempt. */
module LogService {
  import opened JsStrings
  import opened Models
  import opened Store

  /** The prefix Node.js puts on an IPv4 peer seen on an IPv6 socket. */
  const MAPPED_PREFIX := "::ffff:"

  /** Drops one leading `::ffff:`; any other address is kept as it is. */
  function ParseIPAddress(ip: string): (r: string)
    ensures |r| <= |ip| && r == ip[|ip| - |r|..]
    ensures HasPrefix(ip, MAPPED_PREFIX) ==> MAPPED_PREFIX + r == ip
    ensures !HasPrefix(ip, MAPPED_PREFIX) ==> r == ip
  {
    if HasPrefix(ip, MAPPED_PREFIX) then ip[7..] else ip
  }

  /** Prefixing an address and parsing it gives the address back, even
      when the address itself starts with the prefix: only one is removed. */
  lemma ParseIPAddressUndoesPrefix(s: string)
    ensures ParseIPAddress(MAPPED_PREFIX + s) == s
  {
    assert (MAPPED_PREFIX + s)[..7] == MAPPED_PREFIX;
    assert (MAPPED_PREFIX + s)[7..] == s;
  }

  /** Where a step of `logMessage` throws; `NoFault` is a run without one.
      A fault at the final `SELECT 0` comes after the entry is stored. */
  datatype Fault = NoFault | SelectLogDbFails | ZAddFails | SelectMainDbFails

  datatype LogRequest = LogRequest(success: bool, message: string)

  /** The entry `logMessage` writes at time `now` (milliseconds). */
  function LogEntry(now: nat, email: string, authenticationStatus: bool, ip: string): (l: Log)
    ensures l.timestamp == NatToString(now) && l.email == email && l.success == authenticationStatus
    ensures l.ip == ParseIPAddress(ip)
  {
    Log(NatToString(now), email, ParseIPAddress(ip), authenticationStatus)
  }

  /** Whether the entry reaches the sorted set under `fault`. */
  predicate EntryStored(fault: Fault) {
    fault == NoFault || fault == SelectMainDbFails
  }

  /** Every entry logged at `now` keeps the log sorted, free of duplicate
      members and stamped with its own score. */
  lemma AddingEntryKeepsLogsValid(logs: seq<Scored>, now: nat, entry: Log)
    requires LogsValid(logs) && entry.timestamp == NatToString(now)
    ensures LogsValid(ZAdd(logs, now, entry))
  {
    ZAddSpec(logs, now, entry);
    var r := ZAdd(logs, now, entry);
    forall i | 0 <= i < |r| ensures r[i].score >= 0 && r[i].member.timestamp == NatToString(r[i].score) {
      assert r[i] in r;
      if r[i] != Scored(now, entry) {
        var j :| 0 <= j < |logs| && logs[j] == r[i];
      }
    }
  }

  /** Records one sign-in attempt: `ZADD logs now entry` in database 1.
      The reply is a success only when no step throws. */
  method LogMessage(store: Redis, email: string, authenticationStatus: bool, ip: string, now: nat, fault: Fault)
    returns (r: LogRequest)
    requires store.Valid()
    modifies store
    ensures store.Valid()
    ensures r == if fault == NoFault then LogRequest(true, "Log added succesfully")
                 else LogRequest(false, "Failed to log message")
    ensures store.logs == if EntryStored(fault) then ZAdd(old(store.logs), now, LogEntry(now, email, authenticationStatus, ip))
                          else old(store.logs)
    ensures store.db0 == old(store.db0) && store.db1 == old(store.db1) && store.counter == old(store.counter)
  {
    var timestamp := now;
    if fault == SelectLogDbFails {
      return LogRequest(false, "Failed to log message");
    }
    var parsedIp := ParseIPAddress(ip);
    var logEntry := Log(NatToString(timestamp), email, parsedIp, authenticationStatus);
    if fault == ZAddFails {
      return LogRequest(false, "Failed to log message");
    }
    AddingEntryKeepsLogsValid(store.logs, timestamp, logEntry);
    store.logs := ZAdd(store.logs, timestamp, logEntry);
    if fault == SelectMainDbFails {
      return LogRequest(false, "Failed to log message");
    }
    r := LogRequest(true, "Log added succesfully");
  }

  /** `ZRANGE logs 0 -1`, deserialized; `[]` when a step throws. */
  function GetAllLogs(logs: seq<Scored>, fails: bool): (r: seq<Log>)
    ensures fails ==> r == []
    ensures !fails ==> |r| == |logs| && forall i | 0 <= i < |logs| :: r[i] == logs[i].member
  {
    if fails then [] else seq(|logs|, i requires 0 <= i < |logs| => logs[i].member)
  }

  /** The log reads back in chronological order: timestamps never decrease. */
  lemma LogsAreChronological(logs: seq<Scored>)
    requires LogsValid(logs)
    ensures var r := GetAllLogs(logs, false);
            forall i, j | 0 <= i < j < |r| ::
              IsDigits(r[i].timestamp) && IsDigits(r[j].timestamp) && ValueOf(r[i].timestamp) <= ValueOf(r[j].timestamp)
  {
    var r := GetAllLogs(logs, false);
    forall i, j | 0 <= i < j < |r|
      ensures IsDigits(r[i].timestamp) && IsDigits(r[j].timestamp) && ValueOf(r[i].timestamp) <= ValueOf(r[j].timestamp)
    {
      assert Precedes(logs[i], logs[j]);
      ValueOfNatToString(logs[i].score);
      ValueOfNatToString(logs[j].score);
    }
  }

  /** An entry that was logged is listed by the next read. */
  lemma LoggedEntryIsListed(logs: seq<Scored>, now: nat, entry: Log)
    requires LogsValid(logs)
    ensures entry in GetAllLogs(ZAdd(logs, now, entry), false)
  {
    ZAddSpec(logs, now, entry);
    var z := ZAdd(logs, now, entry);
    assert Scored(now, entry) in z;
    var i :| 0 <= i < |z| && z[i] == Scored(now, entry);
    assert GetAllLogs(z, false)[i] == entry;
  }
}
