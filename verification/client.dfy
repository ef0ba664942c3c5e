/**
 * The dashboard's enrollment and registration flow against the backend.
 * A `System` pairs the server state with the page's React state; each
 * handler issues its requests to the backend endpoints in the order the page
 * does and then updates the page state.
 */
module Client {
  import opened Wrappers
  import opened Store
  import Backend
  import AttendanceView
  import Dashboard

  /** The "add RFID" form. */
  datatype Form = Form(rfid: string, name: string, department: string)

  const EmptyForm := Form("", "", "")

  datatype Page = Page(attendance: seq<Dashboard.ClientRow>, form: Form,
                       enrollmentActive: bool, enrolledUid: Option<string>, polling: bool)

  datatype System = System(server: Backend.State, page: Page)

  /** A blocking `alert`, or none. */
  datatype Notice = Silent | Alert(text: string)

  datatype Step = Step(next: System, notice: Notice)

  const FillAllFields := "Please fill all fields"
  const AddedOk := "RFID added successfully!"
  const AddError := "Error adding RFID"

  /** JSON encoding of a view row; how a timestamp is printed is a parameter. */
  function ToClientRow(row: AttendanceView.Row, timeText: int -> string): (c: Dashboard.ClientRow)
    ensures c.status.None? <==> row.status.None?
    ensures c.status == Some(Dashboard.StatusIn) <==> row.status == Some(IN)
    ensures c.status == Some(Dashboard.StatusOut) <==> row.status == Some(OUT)
    ensures c.rfid == row.rfid && c.name == row.name && c.department == row.department
    ensures c.lastScan.None? <==> row.lastScan.None?
    ensures row.lastScan.Some? ==> c.lastScan == Some(timeText(row.lastScan.value))
  {
    Dashboard.ClientRow(
      row.rfid, row.name, row.department,
      match row.status { case None => None case Some(s) => Some(if s.IN? then "IN" else "OUT") },
      match row.lastScan { case None => None case Some(t) => Some(timeText(t)) })
  }

  function ClientRows(rows: seq<AttendanceView.Row>, timeText: int -> string): (c: seq<Dashboard.ClientRow>)
    ensures |c| == |rows| && forall i :: 0 <= i < |rows| ==> c[i] == ToClientRow(rows[i], timeText)
  {
    seq(|rows|, i requires 0 <= i < |rows| => ToClientRow(rows[i], timeText))
  }

  lemma {:induction false} CountEncoded(rows: seq<AttendanceView.Row>, timeText: int -> string, s: ScanType)
    ensures Dashboard.CountStatus(ClientRows(rows, timeText), if s.IN? then Dashboard.StatusIn else Dashboard.StatusOut)
            == AttendanceView.CountRowStatus(rows, s)
    decreases |rows|
  {
    if |rows| > 0 {
      CountEncoded(rows[1..], timeText, s);
      assert ClientRows(rows, timeText)[1..] == ClientRows(rows[1..], timeText);
    }
  }

  /**
   * The statistics block over a freshly fetched view counts users: the total
   * is the number of users, `present` those whose latest entry is IN and
   * `absent` those whose latest entry is OUT.
   */
  lemma {:induction false} StatsCountUsers(t: Tables, timeText: int -> string)
    ensures
      var st := Dashboard.ComputeStats(BodyOf(Backend.AttendanceRows(AttendanceView.View(t)), timeText).rows);
      && st.total == |t.users|
      && st.present == AttendanceView.CountUsersWithLatest(t.users, t.logs, IN)
      && st.absent == AttendanceView.CountUsersWithLatest(t.users, t.logs, OUT)
  {
    var rows := AttendanceView.View(t);
    CountEncoded(rows, timeText, IN);
    CountEncoded(rows, timeText, OUT);
    AttendanceView.ViewCountsUsers(t, IN);
    AttendanceView.ViewCountsUsers(t, OUT);
  }

  /** The body the browser parses from an attendance response: the rows, or a non-array object. */
  function BodyOf(resp: Backend.Response, timeText: int -> string): (j: Dashboard.Json)
    ensures j.JsonArray? <==> resp.AttendanceRows?
    ensures j.JsonArray? ==> |j.rows| == |resp.rows|
  {
    match resp
    case AttendanceRows(rows) => Dashboard.JsonArray(ClientRows(rows, timeText))
    case _ => Dashboard.NotAnArray
  }

  /** Fetches the attendance list into the page, falling back to the empty list. */
  function RefreshAttendance(sys: System, db: Backend.DbCall, timeText: int -> string): (s: System)
    ensures s.server == sys.server
    ensures db.DbOk? ==> s.page.attendance == ClientRows(AttendanceView.View(sys.server.tables), timeText)
    ensures db.DbOk? ==> |s.page.attendance| == |sys.server.tables.users|
    ensures db.DbFails? ==> s.page.attendance == []
    ensures s.page == sys.page.(attendance := s.page.attendance)
  {
    var r := Backend.Attendance(sys.server, db);
    sys.(page := sys.page.(attendance := Dashboard.LoadedRows(Dashboard.Fetched(BodyOf(r.response, timeText)))))
  }

  /** `startEnrollment`: arm the server, then show the waiting state and start polling. */
  function StartEnrollment(sys: System): (s: System)
    ensures s.server.session == Backend.Session(true, None) && s.server.tables == sys.server.tables
    ensures s.page == sys.page.(enrollmentActive := true, enrolledUid := None, polling := true)
  {
    System(Backend.StartEnrollment(sys.server).next,
           sys.page.(enrollmentActive := true, enrolledUid := None, polling := true))
  }

  /** `stopEnrollment`: disarm the server and stop polling; a shown UID stays on screen. */
  function StopEnrollment(sys: System): (s: System)
    ensures s.server.session == Backend.InitialSession && s.server.tables == sys.server.tables
    ensures s.page == sys.page.(enrollmentActive := false, polling := false)
  {
    System(Backend.StopEnrollment(sys.server).next,
           sys.page.(enrollmentActive := false, polling := false))
  }

  /**
   * Cancelling ends enrollment on both sides: the poll no longer changes
   * anything, `latest` reports null, and a registered badge's next tap is
   * recorded as attendance rather than captured.
   */
  lemma StopEndsCapture(sys: System, uid: string, now: int)
    requires uid != "" && FindUser(sys.server.tables.users, uid).Some?
    ensures PollTick(StopEnrollment(sys)) == StopEnrollment(sys)
    ensures Backend.LatestEnrollment(StopEnrollment(sys).server).response == Backend.LatestUid(None)
    ensures Backend.Scan(StopEnrollment(sys).server, Backend.ScanRequest(Some(uid), None), now, Backend.DbOk).response.ScanRecorded?
  {
  }

  /**
   * One tick of the enrollment poll. While polling, a non-null UID from
   * `latest` is copied into both the shown UID and the form's rfid field and
   * polling stops; a null UID changes nothing. The server is never changed.
   */
  function PollTick(sys: System): (s: System)
    ensures s.server == sys.server
    ensures !sys.page.polling ==> s == sys
    ensures sys.page.polling ==>
      (!s.page.polling <==> Backend.Truthy(sys.server.session.lastEnrollmentUid))
    ensures sys.page.polling && Backend.Truthy(sys.server.session.lastEnrollmentUid) ==>
      var uid := sys.server.session.lastEnrollmentUid.value;
      s.page == sys.page.(enrolledUid := Some(uid), form := sys.page.form.(rfid := uid), polling := false)
    ensures !Backend.Truthy(sys.server.session.lastEnrollmentUid) ==> s == sys
  {
    if !sys.page.polling then sys
    else
      var latest := Backend.LatestEnrollment(sys.server).response.uid;
      if Backend.Truthy(latest) then
        sys.(page := sys.page.(enrolledUid := latest, form := sys.page.form.(rfid := latest.value), polling := false))
      else sys
  }

  /** The operator types a name and a department into the form. */
  function FillDetails(sys: System, name: string, department: string): System
  {
    sys.(page := sys.page.(form := sys.page.form.(name := name, department := department)))
  }

  /** A badge reader posting a tap to `/api/scan`; the page is not involved. */
  function ReaderTap(sys: System, uid: string, now: int, db: Backend.DbCall): (s: System)
    ensures s.page == sys.page
    ensures s.server == Backend.Scan(sys.server, Backend.ScanRequest(Some(uid), None), now, db).next
  {
    sys.(server := Backend.Scan(sys.server, Backend.ScanRequest(Some(uid), None), now, db).next)
  }

  predicate FormComplete(f: Form)
  {
    f.rfid != "" && f.name != "" && f.department != ""
  }

  /**
   * `handleAddRFID`: with an incomplete form, alert and send nothing.
   * Otherwise post the form to `/api/rfid`; on failure alert and keep
   * everything. On success explicitly post `/api/enroll/stop`, leave
   * enrollment on the page, refresh the list and clear the form.
   */
  function AddRfid(sys: System, insertDb: Backend.DbCall, refreshDb: Backend.DbCall, timeText: int -> string): (step: Step)
    ensures !FormComplete(sys.page.form) ==> step == Step(sys, Alert(FillAllFields))
    ensures FormComplete(sys.page.form) && insertDb.DbFails? ==> step == Step(sys, Alert(AddError))
    ensures step.notice == Alert(AddedOk) <==> FormComplete(sys.page.form) && insertDb.DbOk?
    ensures step.notice == Alert(AddedOk) ==>
      && step.next.server.session == Backend.InitialSession
      && step.next.server.tables.users
         == sys.server.tables.users + [User(|sys.server.tables.users| + 1, sys.page.form.rfid, sys.page.form.name)]
      && step.next.server.tables.logs == sys.server.tables.logs
      && step.next.page.form == EmptyForm
      && !step.next.page.enrollmentActive && step.next.page.enrolledUid.None? && !step.next.page.polling
  {
    var f := sys.page.form;
    if !FormComplete(f) then Step(sys, Alert(FillAllFields))
    else
      var reg := Backend.Register(sys.server, Backend.RfidRequest(Some(f.rfid), Some(f.name), Some(f.department)), insertDb);
      if !reg.response.Success? then Step(sys.(server := reg.next), Alert(AddError))
      else
        var stopped := Backend.StopEnrollment(reg.next).next;
        var cleared := System(stopped, sys.page.(enrollmentActive := false, enrolledUid := None, polling := false));
        var refreshed := RefreshAttendance(cleared, refreshDb, timeText);
        Step(refreshed.(page := refreshed.page.(form := EmptyForm)), Alert(AddedOk))
  }

  /**
   * The backend's registration alone does not leave enrollment: if the
   * session is armed, the newly registered badge's next tap is still only
   * captured, and no attendance is written.
   */
  lemma RegisterAloneKeepsEnrollment(st: Backend.State, req: Backend.RfidRequest, db: Backend.DbCall, now: int)
    requires st.session.enrollmentMode
    requires Backend.Register(st, req, db).response == Backend.Success
    ensures
      var reg := Backend.Register(st, req, db).next;
      var tap := Backend.Scan(reg, Backend.ScanRequest(req.rfid, None), now, Backend.DbOk);
      && reg.session == st.session
      && tap.response == Backend.EnrollCaptured(req.rfid.value, Backend.CapturedMessage)
      && tap.next.tables.logs == st.tables.logs
  {
  }

  /**
   * The enrollment flow end to end: start, the reader taps a new badge, the
   * poll picks the UID into the form, the operator fills in the details and
   * submits. The server ends disarmed with nothing captured, the badge is
   * registered, and its first tap afterwards records IN.
   */
  lemma EnrollmentFlow(sys: System, uid: string, name: string, department: string,
                       tapTime: int, nextTime: int, refreshDb: Backend.DbCall, timeText: int -> string)
    requires Valid(sys.server.tables)
    requires uid != "" && name != "" && department != ""
    requires forall j :: 0 <= j < |sys.server.tables.users| ==> sys.server.tables.users[j].rfidUid != uid
    ensures
      var armed := StartEnrollment(sys);
      var tapped := ReaderTap(armed, uid, tapTime, Backend.DbOk);
      var picked := PollTick(tapped);
      var step := AddRfid(FillDetails(picked, name, department), Backend.DbOk, refreshDb, timeText);
      var after := step.next.server;
      && picked.page.form.rfid == uid && picked.page.enrolledUid == Some(uid) && !picked.page.polling
      && tapped.server.tables == sys.server.tables
      && step.notice == Alert(AddedOk)
      && Backend.LatestEnrollment(after).response == Backend.LatestUid(None)
      && !after.session.enrollmentMode
      && Backend.Scan(after, Backend.ScanRequest(Some(uid), None), nextTime, Backend.DbOk).response
         == Backend.ScanRecorded(uid, IN, name)
  {
  }
}
