/**
 * Sequences of `POST /api/scan` calls applied one after another: the strict
 * IN/OUT alternation of repeated taps, and the fact that scans made while
 * enrollment is armed only move the capture slot.
 */
module ScanSequences {
  import opened Wrappers
  import opened Store
  import opened Backend

  /** One scan request with the database clock reading and the outcome of its database calls. */
  datatype Tap = Tap(req: ScanRequest, now: int, db: DbCall)

  datatype Run = Run(final: State, responses: seq<Response>)

  /** Applies the scans in order, each to the state the previous one left. */
  function ScanAll(st: State, taps: seq<Tap>): (run: Run)
    ensures |run.responses| == |taps|
    decreases |taps|
  {
    if |taps| == 0 then Run(st, [])
    else
      var r := Scan(st, taps[0].req, taps[0].now, taps[0].db);
      var rest := ScanAll(r.next, taps[1..]);
      Run(rest.final, [r.response] + rest.responses)
  }

  /** Taps of badge `uid`, without a device id, at the given clock readings, all reaching the database. */
  function BadgeTaps(uid: string, times: seq<int>): (taps: seq<Tap>)
    ensures |taps| == |times|
    ensures forall i :: 0 <= i < |times| ==> taps[i] == Tap(ScanRequest(Some(uid), None), times[i], DbOk)
  {
    seq(|times|, i requires 0 <= i < |times| => Tap(ScanRequest(Some(uid), None), times[i], DbOk))
  }

  /** The status recorded by the `i`-th of a run of taps whose first tap records `first`. */
  function Alternating(first: ScanType, i: nat): ScanType
  {
    if i % 2 == 0 then first else Flip(first)
  }

  /**
   * The database clock moves forward: every reading is later than every
   * entry already logged and than the readings before it.
   */
  ghost predicate ClockAdvances(logs: seq<LogEntry>, times: seq<int>)
  {
    && (forall i, j :: 0 <= i < j < |times| ==> times[i] < times[j])
    && (forall k, i :: 0 <= k < |logs| && 0 <= i < |times| ==> logs[k].scanTime < times[i])
  }

  /**
   * One tap of a registered badge with enrollment off, stamped later than
   * every entry: it records the toggle, and the next tap toggles again.
   */
  lemma TapStep(st: State, uid: string, now: int)
    requires !st.session.enrollmentMode && uid != ""
    requires FindUser(st.tables.users, uid).Some?
    requires forall k :: 0 <= k < |st.tables.logs| ==> st.tables.logs[k].scanTime < now
    ensures
      var u := FindUser(st.tables.users, uid).value;
      var first := NextStatus(LatestLog(st.tables.logs, u.userId));
      var r := Scan(st, ScanRequest(Some(uid), None), now, DbOk);
      && r.response == ScanRecorded(uid, first, u.name)
      && r.next.session == st.session
      && r.next.tables.users == st.tables.users
      && r.next.tables.logs == st.tables.logs + [LogEntry(|st.tables.logs| + 1, u.userId, first, now, None)]
      && NextStatus(LatestLog(r.next.tables.logs, u.userId)) == Flip(first)
  {
    var u := FindUser(st.tables.users, uid).value;
    var first := NextStatus(LatestLog(st.tables.logs, u.userId));
    LatestAfterAppend(st.tables.logs, LogEntry(|st.tables.logs| + 1, u.userId, first, now, None));
  }

  /** The first tap of a run, then the rest of the run from the state it leaves. */
  lemma BadgeTapsUnfold(st: State, uid: string, times: seq<int>)
    requires |times| > 0
    ensures
      var r := Scan(st, ScanRequest(Some(uid), None), times[0], DbOk);
      var rest := ScanAll(r.next, BadgeTaps(uid, times[1..]));
      ScanAll(st, BadgeTaps(uid, times)) == Run(rest.final, [r.response] + rest.responses)
  {
    assert BadgeTaps(uid, times)[1..] == BadgeTaps(uid, times[1..]);
  }

  lemma ShiftAlternating(first: ScanType, name: string, uid: string, head: Response, tail: seq<Response>)
    requires head == ScanRecorded(uid, first, name)
    requires forall i :: 0 <= i < |tail| ==> tail[i] == ScanRecorded(uid, Alternating(Flip(first), i), name)
    ensures forall i :: 0 <= i < |tail| + 1 ==> ([head] + tail)[i] == ScanRecorded(uid, Alternating(first, i), name)
  {
  }

  /** After the first reading is logged, the remaining readings still advance the clock. */
  lemma ClockAdvancesTail(logs: seq<LogEntry>, e: LogEntry, times: seq<int>)
    requires |times| > 0 && ClockAdvances(logs, times) && e.scanTime == times[0]
    ensures ClockAdvances(logs + [e], times[1..])
  {
    forall k, i | 0 <= k < |logs| + 1 && 0 <= i < |times| - 1
      ensures (logs + [e])[k].scanTime < times[1..][i]
    {
      assert times[1..][i] == times[i + 1];
      if k == |logs| {
        assert (logs + [e])[k] == e;
      } else {
        assert (logs + [e])[k] == logs[k];
      }
    }
  }

  /**
   * With enrollment off and a clock that moves forward, repeated taps of a
   * registered badge strictly alternate, starting from the toggle of the
   * user's latest entry, and each tap appends one entry.
   */
  lemma {:induction false} TapsAlternate(st: State, uid: string, times: seq<int>)
    requires !st.session.enrollmentMode && uid != ""
    requires FindUser(st.tables.users, uid).Some?
    requires ClockAdvances(st.tables.logs, times)
    ensures
      var u := FindUser(st.tables.users, uid).value;
      var first := NextStatus(LatestLog(st.tables.logs, u.userId));
      var run := ScanAll(st, BadgeTaps(uid, times));
      && |run.final.tables.logs| == |st.tables.logs| + |times|
      && run.final.session == st.session
      && forall i :: 0 <= i < |times| ==> run.responses[i] == ScanRecorded(uid, Alternating(first, i), u.name)
    decreases |times|
  {
    if |times| > 0 {
      var u := FindUser(st.tables.users, uid).value;
      var first := NextStatus(LatestLog(st.tables.logs, u.userId));
      var r := Scan(st, ScanRequest(Some(uid), None), times[0], DbOk);
      TapStep(st, uid, times[0]);
      ClockAdvancesTail(st.tables.logs, LogEntry(|st.tables.logs| + 1, u.userId, first, times[0], None), times);
      TapsAlternate(r.next, uid, times[1..]);
      var rest := ScanAll(r.next, BadgeTaps(uid, times[1..]));
      BadgeTapsUnfold(st, uid, times);
      assert FindUser(r.next.tables.users, uid).value == u;
      ShiftAlternating(first, u.name, uid, r.response, rest.responses);
      var run := ScanAll(st, BadgeTaps(uid, times));
      assert run.responses == [r.response] + rest.responses;
      assert |run.final.tables.logs| == |st.tables.logs| + |times|;
      assert run.final.session == st.session;
    }
  }

  /** A badge whose user has never scanned records IN, OUT, IN, ... starting at IN, while the clock moves forward. */
  lemma {:induction false} NewBadgeAlternates(st: State, uid: string, times: seq<int>)
    requires !st.session.enrollmentMode && uid != ""
    requires FindUser(st.tables.users, uid).Some?
    requires forall j :: 0 <= j < |st.tables.logs| ==> st.tables.logs[j].userId != FindUser(st.tables.users, uid).value.userId
    requires ClockAdvances(st.tables.logs, times)
    ensures
      var run := ScanAll(st, BadgeTaps(uid, times));
      forall i :: 0 <= i < |times| ==>
        run.responses[i].ScanRecorded? && run.responses[i].status == (if i % 2 == 0 then IN else OUT)
  {
    TapsAlternate(st, uid, times);
  }

  /**
   * Without the forward clock the alternation breaks: a new badge tapped at
   * clock readings 10, 5 and 7 records IN, OUT, OUT, because the third tap
   * reads the IN stamped 10 as the latest entry.
   */
  lemma ClockBackwardsRepeatsStatus()
    ensures
      var st := State(Session(false, None), Tables([User(1, "b", "Ann")], []));
      var run := ScanAll(st, BadgeTaps("b", [10, 5, 7]));
      && run.responses[0] == ScanRecorded("b", IN, "Ann")
      && run.responses[1] == ScanRecorded("b", OUT, "Ann")
      && run.responses[2] == ScanRecorded("b", OUT, "Ann")
  {
    var ann := User(1, "b", "Ann");
    var st := State(Session(false, None), Tables([ann], []));
    var req := ScanRequest(Some("b"), None);
    var e0 := LogEntry(1, 1, IN, 10, None);
    var e1 := LogEntry(2, 1, OUT, 5, None);
    assert FindUser([ann], "b") == Some(ann);
    var r0 := Scan(st, req, 10, DbOk);
    assert r0 == Reply(State(st.session, Tables([ann], [e0])), ScanRecorded("b", IN, "Ann"));
    assert LatestLog([e0], 1) == Some(e0);
    var r1 := Scan(r0.next, req, 5, DbOk);
    assert r1 == Reply(State(st.session, Tables([ann], [e0, e1])), ScanRecorded("b", OUT, "Ann"));
    assert LatestIndex([e0, e1], 1) == Some(0) by {
      assert [e0, e1][..1] == [e0];
    }
    var r2 := Scan(r1.next, req, 7, DbOk);
    assert r2.response == ScanRecorded("b", OUT, "Ann");
    BadgeTapsUnfold(st, "b", [10, 5, 7]);
    assert [10, 5, 7][1..] == [5, 7];
    BadgeTapsUnfold(r0.next, "b", [5, 7]);
    assert [5, 7][1..] == [7];
    BadgeTapsUnfold(r1.next, "b", [7]);
  }

  /** The UID the capture slot holds after `taps`: the last non-empty one, or `init` when there is none. */
  function LastCaptured(init: Option<string>, taps: seq<Tap>): (r: Option<string>)
    ensures (forall i :: 0 <= i < |taps| ==> !Truthy(taps[i].req.rfidUid)) ==> r == init
    ensures forall k :: (0 <= k < |taps| && Truthy(taps[k].req.rfidUid)
                         && (forall j :: k < j < |taps| ==> !Truthy(taps[j].req.rfidUid))) ==> r == taps[k].req.rfidUid
    decreases |taps|
  {
    if |taps| == 0 then init
    else
      var rest := LastCaptured(if Truthy(taps[0].req.rfidUid) then taps[0].req.rfidUid else init, taps[1..]);
      assert forall k :: 1 <= k < |taps| ==> taps[k] == taps[1..][k - 1];
      rest
  }

  /** The answer to a scan made while enrollment is armed. */
  function ArmedAnswer(req: ScanRequest): Response
  {
    if Truthy(req.rfidUid) then EnrollCaptured(req.rfidUid.value, CapturedMessage) else Failure(400, UidRequired)
  }

  /**
   * While enrollment is armed, any scans of any badges, whatever the database
   * does, write nothing; the mode stays on and the slot tracks the most
   * recent non-empty UID. Each scan is answered with a capture or, for an
   * empty UID, a 400.
   */
  lemma {:induction false} EnrollmentScansWriteNothing(st: State, taps: seq<Tap>)
    requires st.session.enrollmentMode
    ensures ScanAll(st, taps).final.tables == st.tables
    ensures ScanAll(st, taps).final.session == Session(true, LastCaptured(st.session.lastEnrollmentUid, taps))
    ensures forall i :: 0 <= i < |taps| ==> ScanAll(st, taps).responses[i] == ArmedAnswer(taps[i].req)
    decreases |taps|
  {
    if |taps| > 0 {
      var r := Scan(st, taps[0].req, taps[0].now, taps[0].db);
      EnrollmentScansWriteNothing(r.next, taps[1..]);
      var run := ScanAll(st, taps);
      var rest := ScanAll(r.next, taps[1..]);
      forall i | 1 <= i < |taps|
        ensures run.responses[i] == rest.responses[i - 1]
      {
      }
    }
  }
}
