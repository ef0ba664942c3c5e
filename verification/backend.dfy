/**
 * The backend's endpoints as pure transitions `State x Request -> State x Response`.
 * The process-wide `enrollmentMode` / `lastEnrollmentUID` pair is the `Session`;
 * the database is `Tables`. Whether a database call succeeds is a parameter
 * (`DbCall`), and the database clock reading for an insertion is `now`.
 */
module Backend {
  import opened Wrappers
  import opened Store
  import AttendanceView

  /** The enrollment session: mode flag and the last UID captured while armed. */
  datatype Session = Session(enrollmentMode: bool, lastEnrollmentUid: Option<string>)

  const InitialSession := Session(false, None)

  datatype State = State(session: Session, tables: Tables)

  /** Outcome of the database calls an endpoint makes (connection, query or insert). */
  datatype DbCall = DbOk | DbFails

  /** JSON bodies; an absent key reads as `None`. */
  datatype ScanRequest = ScanRequest(rfidUid: Option<string>, deviceId: Option<string>)
  datatype RfidRequest = RfidRequest(rfid: Option<string>, name: Option<string>, department: Option<string>)

  datatype Response =
    | Failure(code: nat, error: string)                          // 400 / 403 / 500 with `{error}`
    | EnrollCaptured(rfidUid: string, message: string)           // `{enroll: true, rfid_uid, message}`
    | ScanRecorded(rfidUid: string, status: ScanType, name: string) // `{success: true, rfid_uid, status, name}`
    | Success                                                    // `{success: true}`
    | LatestUid(uid: Option<string>)                             // `{rfid_uid}`
    | AttendanceRows(rows: seq<AttendanceView.Row>)              // the JSON array

  datatype Reply = Reply(next: State, response: Response)

  const UidRequired := "RFID UID required"
  const NotRegistered := "RFID not registered"
  const ScanFailed := "Scan failed"
  const CapturedMessage := "RFID captured for enrollment"
  const FieldsRequired := "RFID and name are required"
  const AddFailed := "Failed to add RFID"
  const FetchFailed := "Failed to fetch attendance data"

  /** JavaScript truthiness of an optional string: present and non-empty. */
  predicate Truthy(o: Option<string>): (b: bool)
    // the falsy values `!x` rejects: absent or null, and the empty string
    ensures !b <==> o == None || o == Some("")
  {
    o.Some? && o.value != ""
  }

  /** `device_id || null`: an absent or empty device id is stored as null. */
  function StoredDevice(d: Option<string>): (r: Option<string>)
    ensures r.Some? <==> Truthy(d)
    ensures r.Some? ==> r == d
  {
    if Truthy(d) then d else None
  }

  /** `GET /api/attendance`: the view, or 500 when the query fails; never changes state. */
  function Attendance(st: State, db: DbCall): (r: Reply)
    ensures r.next == st
    ensures db.DbOk? ==> r.response == AttendanceRows(AttendanceView.View(st.tables))
    ensures db.DbFails? ==> r.response == Failure(500, FetchFailed)
  {
    match db
    case DbFails => Reply(st, Failure(500, FetchFailed))
    case DbOk => Reply(st, AttendanceRows(AttendanceView.View(st.tables)))
  }

  /**
   * `POST /api/rfid`: 400 without an `rfid` or a `name`, 500 when the insert
   * fails, otherwise exactly one new user. The department is ignored and the
   * enrollment session is never touched.
   */
  function Register(st: State, req: RfidRequest, db: DbCall): (r: Reply)
    ensures r.next.session == st.session
    ensures r.next.tables.logs == st.tables.logs
    ensures !(Truthy(req.rfid) && Truthy(req.name)) ==> r == Reply(st, Failure(400, FieldsRequired))
    ensures Truthy(req.rfid) && Truthy(req.name) && db.DbFails? ==> r == Reply(st, Failure(500, AddFailed))
    ensures r.response == Success <==> Truthy(req.rfid) && Truthy(req.name) && db.DbOk?
    ensures r.response == Success ==>
      r.next.tables.users == st.tables.users + [User(|st.tables.users| + 1, req.rfid.value, req.name.value)]
    ensures r.response != Success ==> r.next == st
  {
    if !Truthy(req.rfid) || !Truthy(req.name) then Reply(st, Failure(400, FieldsRequired))
    else if db.DbFails? then Reply(st, Failure(500, AddFailed))
    else Reply(st.(tables := InsertUser(st.tables, req.rfid.value, req.name.value)), Success)
  }

  /**
   * `POST /api/scan`. In order: reject a missing UID; while enrollment mode is
   * on, capture the UID and do nothing else; otherwise look the badge up,
   * reject it if unregistered, toggle the user's latest status and append
   * exactly one log entry.
   */
  function Scan(st: State, req: ScanRequest, now: int, db: DbCall): (r: Reply)
    // no path creates a user, and the log only ever grows at its end
    ensures r.next.tables.users == st.tables.users
    // exactly one row on the attendance path, none on every other path
    ensures |r.next.tables.logs| == |st.tables.logs| + (if r.response.ScanRecorded? then 1 else 0)
    ensures r.next.tables.logs[..|st.tables.logs|] == st.tables.logs
    ensures !Truthy(req.rfidUid) ==> r == Reply(st, Failure(400, UidRequired))
    // enrollment wins: the UID is captured whatever the database holds or does
    ensures Truthy(req.rfidUid) && st.session.enrollmentMode ==>
      && r.response == EnrollCaptured(req.rfidUid.value, CapturedMessage)
      && r.next == State(Session(true, req.rfidUid), st.tables)
    ensures Truthy(req.rfidUid) && !st.session.enrollmentMode && db.DbOk?
            && FindUser(st.tables.users, req.rfidUid.value).None? ==>
      r == Reply(st, Failure(403, NotRegistered))
    ensures Truthy(req.rfidUid) && !st.session.enrollmentMode && db.DbFails? ==>
      r == Reply(st, Failure(500, ScanFailed))
    ensures r.response.ScanRecorded? <==>
      Truthy(req.rfidUid) && !st.session.enrollmentMode && db.DbOk?
      && FindUser(st.tables.users, req.rfidUid.value).Some?
    ensures r.response.ScanRecorded? ==>
      var u := FindUser(st.tables.users, req.rfidUid.value).value;
      && r.response == ScanRecorded(req.rfidUid.value, r.response.status, u.name)
      && r.response.status == NextStatus(LatestLog(st.tables.logs, u.userId))
      && r.next.session == st.session
      && r.next.tables.logs[|st.tables.logs|]
         == LogEntry(|st.tables.logs| + 1, u.userId, r.response.status, now, StoredDevice(req.deviceId))
  {
    if !Truthy(req.rfidUid) then Reply(st, Failure(400, UidRequired))
    else
      var uid := req.rfidUid.value;
      if st.session.enrollmentMode then
        Reply(st.(session := st.session.(lastEnrollmentUid := Some(uid))), EnrollCaptured(uid, CapturedMessage))
      else if db.DbFails? then Reply(st, Failure(500, ScanFailed))
      else
        match FindUser(st.tables.users, uid)
        case None => Reply(st, Failure(403, NotRegistered))
        case Some(u) =>
          var status := NextStatus(LatestLog(st.tables.logs, u.userId));
          Reply(st.(tables := InsertLog(st.tables, u.userId, status, now, StoredDevice(req.deviceId))),
                ScanRecorded(uid, status, u.name))
  }

  /** `POST /api/enroll/start`: arm enrollment and forget any captured UID. */
  function StartEnrollment(st: State): (r: Reply)
    ensures r.next.session.enrollmentMode && r.next.session.lastEnrollmentUid.None?
    ensures r.next.tables == st.tables
    ensures r.response == Success
  {
    Reply(st.(session := Session(true, None)), Success)
  }

  /** `POST /api/enroll/stop`: disarm enrollment and forget any captured UID. */
  function StopEnrollment(st: State): (r: Reply)
    ensures !r.next.session.enrollmentMode && r.next.session.lastEnrollmentUid.None?
    ensures r.next.tables == st.tables
    ensures r.response == Success
  {
    Reply(st.(session := Session(false, None)), Success)
  }

  /** `GET /api/enroll/latest`: report the captured UID without changing anything. */
  function LatestEnrollment(st: State): (r: Reply)
    ensures r.next == st
    ensures r.response == LatestUid(st.session.lastEnrollmentUid)
  {
    Reply(st, LatestUid(st.session.lastEnrollmentUid))
  }

  /** Start and stop are idempotent. */
  lemma StartStopIdempotent(st: State)
    ensures StartEnrollment(StartEnrollment(st).next) == StartEnrollment(st)
    ensures StopEnrollment(StopEnrollment(st).next) == StopEnrollment(st)
  {
  }

  /** Polling right after start, or after stop, yields null. */
  lemma LatestAfterStartOrStop(st: State)
    ensures LatestEnrollment(StartEnrollment(st).next).response == LatestUid(None)
    ensures LatestEnrollment(StopEnrollment(st).next).response == LatestUid(None)
  {
  }

  /** Every endpoint keeps the tables' keys and foreign keys consistent. */
  lemma ScanPreservesValid(st: State, req: ScanRequest, now: int, db: DbCall)
    requires Valid(st.tables)
    ensures Valid(Scan(st, req, now, db).next.tables)
  {
  }

  lemma RegisterPreservesValid(st: State, req: RfidRequest, db: DbCall)
    requires Valid(st.tables)
    ensures Valid(Register(st, req, db).next.tables)
  {
  }

  /** A scan stamped no earlier than every existing entry keeps the log ordered by time. */
  lemma ScanPreservesTimesOrdered(st: State, req: ScanRequest, now: int, db: DbCall)
    requires TimesOrdered(st.tables.logs)
    requires forall i :: 0 <= i < |st.tables.logs| ==> st.tables.logs[i].scanTime <= now
    ensures TimesOrdered(Scan(st, req, now, db).next.tables.logs)
  {
  }
}
