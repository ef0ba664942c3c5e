/**
 * The backend's two tables, `users` and `attendance_logs`, as immutable
 * sequences in insertion order, with the two lookups the endpoints perform:
 * the user holding a badge, and a user's most recent log entry.
 */
module Store {
  import opened Wrappers

  datatype ScanType = IN | OUT

  /** A row of `users`; `userId` is the auto-increment key. */
  datatype User = User(userId: nat, rfidUid: string, name: string)

  /** A row of `attendance_logs`; `scanTime` is the database clock at insertion. */
  datatype LogEntry = LogEntry(logId: nat, userId: nat, scanType: ScanType, scanTime: int, deviceId: Option<string>)

  datatype Tables = Tables(users: seq<User>, logs: seq<LogEntry>)

  const EmptyTables := Tables([], [])

  /**
   * Keys are assigned by auto-increment from 1 in insertion order, and every
   * log entry refers to an existing user (the foreign key).
   */
  ghost predicate Valid(t: Tables)
  {
    && (forall i :: 0 <= i < |t.users| ==> t.users[i].userId == i + 1)
    && (forall i :: 0 <= i < |t.logs| ==> t.logs[i].logId == i + 1 && 1 <= t.logs[i].userId <= |t.users|)
  }

  /** The database clock never runs backwards across insertions. */
  ghost predicate TimesOrdered(logs: seq<LogEntry>)
  {
    forall i, j :: 0 <= i < j < |logs| ==> logs[i].scanTime <= logs[j].scanTime
  }

  /** `SELECT ... FROM users WHERE rfid_uid = ?`, keeping the first row. */
  function FindUserIndex(users: seq<User>, uid: string): (k: Option<nat>)
    ensures k.Some? ==> k.value < |users| && users[k.value].rfidUid == uid
    ensures k.Some? ==> forall j :: 0 <= j < k.value ==> users[j].rfidUid != uid
    ensures k.None? <==> forall j :: 0 <= j < |users| ==> users[j].rfidUid != uid
    decreases |users|
  {
    if |users| == 0 then None
    else if users[0].rfidUid == uid then Some(0)
    else
      match FindUserIndex(users[1..], uid)
      case None => None
      case Some(k) => Some(k + 1)
  }

  function FindUser(users: seq<User>, uid: string): (r: Option<User>)
    ensures r.None? <==> forall j :: 0 <= j < |users| ==> users[j].rfidUid != uid
    ensures r.Some? ==> r.value in users && r.value.rfidUid == uid
  {
    match FindUserIndex(users, uid)
    case None => None
    case Some(k) => Some(users[k])
  }

  /**
   * Index of the user's latest entry, the row `ORDER BY scan_time DESC LIMIT 1`
   * returns: an entry of the user with the greatest scan time. Among entries
   * sharing that time the query's choice is unspecified; the model takes the
   * one appended last.
   */
  function LatestIndex(logs: seq<LogEntry>, userId: nat): (k: Option<nat>)
    ensures k.Some? ==> k.value < |logs| && logs[k.value].userId == userId
    ensures k.Some? ==> forall j :: 0 <= j < |logs| && logs[j].userId == userId ==> logs[j].scanTime <= logs[k.value].scanTime
    ensures k.Some? ==> forall j :: k.value < j < |logs| && logs[j].userId == userId ==> logs[j].scanTime < logs[k.value].scanTime
    ensures k.None? <==> forall j :: 0 <= j < |logs| ==> logs[j].userId != userId
    decreases |logs|
  {
    if |logs| == 0 then None
    else
      var n := |logs| - 1;
      var prev := LatestIndex(logs[..n], userId);
      assert forall j :: 0 <= j < n ==> logs[..n][j] == logs[j];
      if logs[n].userId == userId && (prev.None? || logs[prev.value].scanTime <= logs[n].scanTime) then Some(n)
      else prev
  }

  /** The user's latest log entry: `WHERE user_id = ? ORDER BY scan_time DESC LIMIT 1`. */
  function LatestLog(logs: seq<LogEntry>, userId: nat): (r: Option<LogEntry>)
    ensures r.None? <==> forall j :: 0 <= j < |logs| ==> logs[j].userId != userId
    ensures r.Some? ==> r.value in logs && r.value.userId == userId
    ensures r.Some? ==> forall e :: e in logs && e.userId == userId ==> e.scanTime <= r.value.scanTime
  {
    match LatestIndex(logs, userId)
    case None => None
    case Some(k) => Some(logs[k])
  }

  /**
   * When scan times never decrease, the latest entry by time is the user's
   * entry appended last: no entry of the user follows it.
   */
  lemma LatestIsLastAppended(logs: seq<LogEntry>, userId: nat)
    requires TimesOrdered(logs)
    ensures LatestIndex(logs, userId).Some? ==>
      forall j :: LatestIndex(logs, userId).value < j < |logs| ==> logs[j].userId != userId
  {
  }

  /** An entry stamped no earlier than its user's other entries becomes that user's latest. */
  lemma LatestAfterAppend(logs: seq<LogEntry>, e: LogEntry)
    requires forall j :: 0 <= j < |logs| && logs[j].userId == e.userId ==> logs[j].scanTime <= e.scanTime
    ensures LatestLog(logs + [e], e.userId) == Some(e)
  {
    assert (logs + [e])[..|logs|] == logs;
  }

  /** Appending an entry leaves every other user's latest entry alone. */
  lemma LatestOtherAfterAppend(logs: seq<LogEntry>, e: LogEntry, userId: nat)
    requires userId != e.userId
    ensures LatestLog(logs + [e], userId) == LatestLog(logs, userId)
  {
    assert (logs + [e])[..|logs|] == logs;
  }

  /** The toggle: no entry or a latest OUT gives IN; a latest IN gives OUT. */
  function NextStatus(last: Option<LogEntry>): (s: ScanType)
    ensures s.IN? <==> (last.None? || last.value.scanType.OUT?)
    ensures s.OUT? <==> (last.Some? && last.value.scanType.IN?)
  {
    if last.Some? && last.value.scanType.IN? then OUT else IN
  }

  function Flip(s: ScanType): ScanType
  {
    if s == IN then OUT else IN
  }

  /** `INSERT INTO users (rfid_uid, name)`: appends one user with the next key. */
  function InsertUser(t: Tables, rfid: string, name: string): (t': Tables)
    ensures t'.logs == t.logs
    ensures |t'.users| == |t.users| + 1 && t'.users[..|t.users|] == t.users
    ensures t'.users[|t.users|] == User(|t.users| + 1, rfid, name)
  {
    t.(users := t.users + [User(|t.users| + 1, rfid, name)])
  }

  /** `INSERT INTO attendance_logs (user_id, scan_type, device_id)`: appends one entry stamped `now`. */
  function InsertLog(t: Tables, userId: nat, scanType: ScanType, now: int, device: Option<string>): (t': Tables)
    ensures t'.users == t.users
    ensures |t'.logs| == |t.logs| + 1 && t'.logs[..|t.logs|] == t.logs
    ensures t'.logs[|t.logs|] == LogEntry(|t.logs| + 1, userId, scanType, now, device)
  {
    t.(logs := t.logs + [LogEntry(|t.logs| + 1, userId, scanType, now, device)])
  }
}
