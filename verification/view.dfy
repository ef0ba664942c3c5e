/**
 * The `GET /api/attendance` query: a left outer join of every user with
 * that user's latest log entry, ordered by name.
 */
module AttendanceView {
  import opened Wrappers
  import opened Store
  import Strings

  /** One row of the query result; `department` is the literal 'N/A' column. */
  datatype Row = Row(userId: nat, rfid: string, name: string, department: string,
                     status: Option<ScanType>, lastScan: Option<int>)

  const NoDepartment := "N/A"

  /** The joined row for one user: status and time come from the latest entry, or are null. */
  function RowOf(logs: seq<LogEntry>, u: User): Row
  {
    match LatestLog(logs, u.userId)
    case None => Row(u.userId, u.rfidUid, u.name, NoDepartment, None, None)
    case Some(e) => Row(u.userId, u.rfidUid, u.name, NoDepartment, Some(e.scanType), Some(e.scanTime))
  }

  /** The join before ordering: one row per user, in user order. */
  function Joined(t: Tables): (rows: seq<Row>)
    ensures |rows| == |t.users|
    ensures forall i :: 0 <= i < |t.users| ==> rows[i] == RowOf(t.logs, t.users[i])
  {
    seq(|t.users|, i requires 0 <= i < |t.users| => RowOf(t.logs, t.users[i]))
  }

  ghost predicate SortedByName(rows: seq<Row>)
  {
    forall i, j :: 0 <= i < j < |rows| ==> Strings.NameLe(rows[i].name, rows[j].name)
  }

  /** Inserts `row` before the first row whose name is strictly greater. */
  function Insert(row: Row, rows: seq<Row>): (r: seq<Row>)
    requires SortedByName(rows)
    ensures SortedByName(r)
    ensures multiset(r) == multiset(rows) + multiset{row}
    decreases |rows|
  {
    if |rows| == 0 then [row]
    else if Strings.NameLe(row.name, rows[0].name) then
      BelowHead(row, rows);
      ConsSorted(row, rows);
      [row] + rows
    else
      var tail := Insert(row, rows[1..]);
      Strings.NameLeTotal(row.name, rows[0].name);
      HeadBelowTail(row, rows, tail);
      ConsSorted(rows[0], tail);
      assert rows == [rows[0]] + rows[1..];
      [rows[0]] + tail
  }

  /** `row` goes in front: it is no greater than any row of a sorted sequence whose head it precedes. */
  lemma BelowHead(row: Row, rows: seq<Row>)
    requires SortedByName(rows) && |rows| > 0 && Strings.NameLe(row.name, rows[0].name)
    ensures forall j :: 0 <= j < |rows| ==> Strings.NameLe(row.name, rows[j].name)
  {
    forall j | 0 <= j < |rows|
      ensures Strings.NameLe(row.name, rows[j].name)
    {
      if j > 0 {
        Strings.NameLeTransitive(row.name, rows[0].name, rows[j].name);
      }
    }
  }

  /** The head of a sorted sequence stays below everything after inserting a greater row into its tail. */
  lemma HeadBelowTail(row: Row, rows: seq<Row>, tail: seq<Row>)
    requires SortedByName(rows) && |rows| > 0 && Strings.NameLe(rows[0].name, row.name)
    requires multiset(tail) == multiset(rows[1..]) + multiset{row}
    ensures forall j :: 0 <= j < |tail| ==> Strings.NameLe(rows[0].name, tail[j].name)
  {
    forall j | 0 <= j < |tail|
      ensures Strings.NameLe(rows[0].name, tail[j].name)
    {
      var x := tail[j];
      assert x in multiset(tail);
      if x != row {
        assert x in multiset(rows[1..]);
        var k :| 0 <= k < |rows[1..]| && rows[1..][k] == x;
        assert rows[k + 1] == x;
      }
    }
  }

  lemma ConsSorted(h: Row, rows: seq<Row>)
    requires SortedByName(rows)
    requires forall j :: 0 <= j < |rows| ==> Strings.NameLe(h.name, rows[j].name)
    ensures SortedByName([h] + rows)
  {
  }

  /** Insertion sort by name; stable, so equal names keep user order. */
  function SortByName(rows: seq<Row>): (r: seq<Row>)
    ensures SortedByName(r)
    ensures multiset(r) == multiset(rows)
    decreases |rows|
  {
    if |rows| == 0 then []
    else
      assert rows == [rows[0]] + rows[1..];
      Insert(rows[0], SortByName(rows[1..]))
  }

  /**
   * The view: exactly the joined rows of every user, ordered by name, each
   * carrying the 'N/A' department and the status and time of the user's
   * latest entry, or null when the user has never scanned.
   */
  function View(t: Tables): (rows: seq<Row>)
    ensures |rows| == |t.users|
    ensures SortedByName(rows)
    ensures multiset(rows) == multiset(Joined(t))
    ensures forall u :: u in t.users ==> RowOf(t.logs, u) in rows
    ensures forall row :: row in rows ==> row.department == NoDepartment
    ensures forall row :: row in rows ==>
      exists i :: 0 <= i < |t.users| && row == RowOf(t.logs, t.users[i])
  {
    var joined := Joined(t);
    var rows := SortByName(joined);
    SameMembers(rows, joined);
    assert |rows| == |multiset(rows)| == |multiset(joined)| == |joined|;
    assert forall u :: u in t.users ==> RowOf(t.logs, u) in joined;
    rows
  }

  lemma SameMembers(a: seq<Row>, b: seq<Row>)
    requires multiset(a) == multiset(b)
    ensures forall x :: x in a <==> x in b
  {
    forall x
      ensures x in a <==> x in b
    {
      assert x in a <==> x in multiset(a);
      assert x in b <==> x in multiset(b);
    }
  }

  /** A row's status is null exactly when its user has no log entry; otherwise it is the latest entry's. */
  lemma RowStatusFromLatest(logs: seq<LogEntry>, u: User)
    ensures RowOf(logs, u).status.None? <==> forall j :: 0 <= j < |logs| ==> logs[j].userId != u.userId
    ensures RowOf(logs, u).status.None? <==> RowOf(logs, u).lastScan.None?
    ensures LatestLog(logs, u.userId).Some? ==>
      RowOf(logs, u).status == Some(LatestLog(logs, u.userId).value.scanType) &&
      RowOf(logs, u).lastScan == Some(LatestLog(logs, u.userId).value.scanTime)
  {
  }

  lemma CountTwo<T>(s: seq<T>, i: nat, j: nat)
    requires i < j < |s| && s[i] == s[j]
    ensures multiset(s)[s[i]] >= 2
  {
    var x := s[i];
    assert s == s[..i] + [x] + s[i + 1..j] + [x] + s[j + 1..];
    assert multiset(s) == multiset(s[..i]) + multiset{x} + multiset(s[i + 1..j]) + multiset{x} + multiset(s[j + 1..]);
  }

  lemma {:induction false} CountDistinct(rows: seq<Row>, x: Row)
    requires forall i, j :: 0 <= i < j < |rows| ==> rows[i].userId != rows[j].userId
    ensures multiset(rows)[x] <= 1
    decreases |rows|
  {
    if |rows| > 0 {
      CountDistinct(rows[1..], x);
      assert rows == [rows[0]] + rows[1..];
      if rows[0] == x {
        assert x !in rows[1..];
      }
    }
  }

  /** A permutation of rows with pairwise distinct keys has pairwise distinct keys. */
  lemma DistinctKeysPermuted(rows: seq<Row>, joined: seq<Row>)
    requires multiset(rows) == multiset(joined)
    requires forall a, b :: 0 <= a < b < |joined| ==> joined[a].userId != joined[b].userId
    ensures forall i, j :: 0 <= i < j < |rows| ==> rows[i].userId != rows[j].userId
  {
    SameMembers(rows, joined);
    forall i, j | 0 <= i < j < |rows|
      ensures rows[i].userId != rows[j].userId
    {
      if rows[i].userId == rows[j].userId {
        assert rows[i] in joined && rows[j] in joined;
        var a :| 0 <= a < |joined| && joined[a] == rows[i];
        var b :| 0 <= b < |joined| && joined[b] == rows[j];
        assert a == b;
        CountTwo(rows, i, j);
        CountDistinct(joined, rows[i]);
        assert false;
      }
    }
  }

  /** With distinct user keys, no two rows of the view belong to the same user. */
  lemma OneRowPerUser(t: Tables)
    requires Valid(t)
    ensures forall i, j :: 0 <= i < j < |View(t)| ==> View(t)[i].userId != View(t)[j].userId
  {
    var rows := View(t);
    var joined := Joined(t);
    assert forall a :: 0 <= a < |joined| ==> joined[a].userId == a + 1;
    DistinctKeysPermuted(rows, joined);
  }

  // ---------- counting users by current status ----------

  /** Number of rows whose status is `s`. */
  function CountRowStatus(rows: seq<Row>, s: ScanType): nat
    decreases |rows|
  {
    if |rows| == 0 then 0
    else (if rows[0].status == Some(s) then 1 else 0) + CountRowStatus(rows[1..], s)
  }

  /** Number of users whose latest log entry has type `s`. */
  function CountUsersWithLatest(users: seq<User>, logs: seq<LogEntry>, s: ScanType): nat
    decreases |users|
  {
    if |users| == 0 then 0
    else
      var latest := LatestLog(logs, users[0].userId);
      (if latest.Some? && latest.value.scanType == s then 1 else 0) + CountUsersWithLatest(users[1..], logs, s)
  }

  lemma {:induction false} CountRowAppend(a: seq<Row>, b: seq<Row>, s: ScanType)
    ensures CountRowStatus(a + b, s) == CountRowStatus(a, s) + CountRowStatus(b, s)
    decreases |a|
  {
    if |a| > 0 {
      CountRowAppend(a[1..], b, s);
      assert (a + b)[0] == a[0];
      assert (a + b)[1..] == a[1..] + b;
    } else {
      assert a + b == b;
    }
  }

  lemma RemoveAtMultiset(b: seq<Row>, k: nat)
    requires k < |b|
    ensures multiset(b[..k] + b[k + 1..]) == multiset(b) - multiset{b[k]}
  {
    assert b == b[..k] + [b[k]] + b[k + 1..];
  }

  lemma RemoveAtCount(b: seq<Row>, k: nat, s: ScanType)
    requires k < |b|
    ensures CountRowStatus(b, s) == CountRowStatus([b[k]], s) + CountRowStatus(b[..k] + b[k + 1..], s)
  {
    assert b == b[..k] + ([b[k]] + b[k + 1..]);
    CountRowAppend(b[..k], [b[k]] + b[k + 1..], s);
    CountRowAppend([b[k]], b[k + 1..], s);
    CountRowAppend(b[..k], b[k + 1..], s);
  }

  /** Counting does not depend on the order of the rows. */
  lemma {:induction false} CountRowPermutation(a: seq<Row>, b: seq<Row>, s: ScanType)
    requires multiset(a) == multiset(b)
    ensures CountRowStatus(a, s) == CountRowStatus(b, s)
    decreases |a|
  {
    if |a| == 0 {
      assert |multiset(b)| == 0;
    } else {
      assert a[0] in multiset(b);
      var k :| 0 <= k < |b| && b[k] == a[0];
      RemoveAtMultiset(b, k);
      assert a == [a[0]] + a[1..];
      CountRowPermutation(a[1..], b[..k] + b[k + 1..], s);
      RemoveAtCount(b, k, s);
    }
  }

  lemma {:induction false} CountJoined(users: seq<User>, logs: seq<LogEntry>, s: ScanType)
    ensures CountRowStatus(Joined(Tables(users, logs)), s) == CountUsersWithLatest(users, logs, s)
    decreases |users|
  {
    if |users| > 0 {
      CountJoined(users[1..], logs, s);
      assert Joined(Tables(users, logs))[1..] == Joined(Tables(users[1..], logs));
    }
  }

  /** The view holds one row per user with status `s` for each user whose latest entry is `s`. */
  lemma {:induction false} ViewCountsUsers(t: Tables, s: ScanType)
    ensures CountRowStatus(View(t), s) == CountUsersWithLatest(t.users, t.logs, s)
  {
    CountRowPermutation(View(t), Joined(t), s);
    CountJoined(t.users, t.logs, s);
  }
}
