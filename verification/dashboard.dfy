/**
 * The dashboard's side-effect-free computations over the fetched attendance
 * rows: the non-array fallback, the statistics block, the CSV text and the
 * search filter.
 */
module Dashboard {
  import opened Wrappers
  import Strings

  /** A row as the browser receives it; `status` and `lastScan` may be null. */
  datatype ClientRow = ClientRow(rfid: string, name: string, department: string,
                                 status: Option<string>, lastScan: Option<string>)

  /** A response body: a JSON array of rows, or anything else (such as a 500's `{error}` object). */
  datatype Json = JsonArray(rows: seq<ClientRow>) | NotAnArray

  /** The outcome of `fetch(...).then(res => res.json())`. */
  datatype Fetch = Fetched(body: Json) | FetchError

  // ---------- non-array fallback ----------

  /** Rows kept from an attendance fetch: the array when there is one, the empty list otherwise. */
  function LoadedRows(f: Fetch): (rows: seq<ClientRow>)
    ensures f.Fetched? && f.body.JsonArray? ==> rows == f.body.rows
    ensures !(f.Fetched? && f.body.JsonArray?) ==> rows == []
  {
    if f.Fetched? && f.body.JsonArray? then f.body.rows else []
  }

  // ---------- statistics ----------

  const StatusIn := "IN"
  const StatusOut := "OUT"

  /** Number of rows whose status is exactly `s`. */
  function CountStatus(rows: seq<ClientRow>, s: string): (n: nat)
    ensures n <= |rows|
    ensures n == |rows| <==> forall i :: 0 <= i < |rows| ==> rows[i].status == Some(s)
    ensures n == 0 <==> forall i :: 0 <= i < |rows| ==> rows[i].status != Some(s)
    decreases |rows|
  {
    if |rows| == 0 then 0
    else
      var rest := CountStatus(rows[1..], s);
      assert forall i :: 1 <= i < |rows| ==> rows[i] == rows[1..][i - 1];
      (if rows[0].status == Some(s) then 1 else 0) + rest
  }

  lemma {:induction false} CountAppend(a: seq<ClientRow>, b: seq<ClientRow>, s: string)
    ensures CountStatus(a + b, s) == CountStatus(a, s) + CountStatus(b, s)
    decreases |a|
  {
    if |a| > 0 {
      CountAppend(a[1..], b, s);
      assert (a + b)[0] == a[0];
      assert (a + b)[1..] == a[1..] + b;
    } else {
      assert a + b == b;
    }
  }

  /** A row has one status, so the rows counted for two different statuses never overlap. */
  lemma {:induction false} CountTwoStatuses(rows: seq<ClientRow>, s: string, s': string)
    requires s != s'
    ensures CountStatus(rows, s) + CountStatus(rows, s') <= |rows|
    decreases |rows|
  {
    if |rows| > 0 {
      CountTwoStatuses(rows[1..], s, s');
    }
  }

  lemma MulMonotone(d: nat, a: nat, b: nat)
    requires a <= b
    ensures d * a <= d * b
  {
    var c := b - a;
    assert d * b == d * a + d * c;
  }

  lemma DivAtLeast(x: nat, d: nat, k: nat)
    requires d > 0
    ensures x / d >= k <==> k * d <= x
  {
    var q := x / d;
    var m := x % d;
    assert x == d * q + m && 0 <= m < d;
    if q >= k {
      MulMonotone(d, k, q);
      assert k * d == d * k;
    } else {
      MulMonotone(d, q + 1, k);
      assert d * (q + 1) == d * q + d;
      assert k * d == d * k;
    }
  }

  /** `Math.round(part / whole * 100)` in exact arithmetic: half-up rounding of the percentage. */
  function RoundPercent(part: nat, whole: nat): (p: nat)
    requires 0 < whole && part <= whole
    ensures p <= 100
    ensures p == 100 <==> 200 * (whole - part) <= whole
    ensures p == 0 <==> 200 * part < whole
  {
    var x := 200 * part + whole;
    var d := 2 * whole;
    DivAtLeast(x, d, 101);
    DivAtLeast(x, d, 100);
    DivAtLeast(x, d, 1);
    x / d
  }

  datatype Stats = Stats(total: nat, present: nat, absent: nat, attendance: nat)

  /** The statistics block over the (already array-safe) rows. */
  function ComputeStats(rows: seq<ClientRow>): (st: Stats)
    ensures st.total == |rows|
    ensures st.present == CountStatus(rows, StatusIn)
    ensures st.absent == CountStatus(rows, StatusOut)
    ensures st.present + st.absent <= st.total
    ensures st.attendance <= 100
    ensures st.total == 0 ==> st.attendance == 0
    ensures st.total > 0 ==> st.attendance == RoundPercent(st.present, st.total)
  {
    var present := CountStatus(rows, StatusIn);
    var absent := CountStatus(rows, StatusOut);
    CountTwoStatuses(rows, StatusIn, StatusOut);
    Stats(|rows|, present, absent, if |rows| > 0 then RoundPercent(present, |rows|) else 0)
  }

  /**
   * Every row IN shows 100% and no row IN shows 0%; below 200 rows the
   * converses hold too, so the rate is 100 exactly when everyone is in and 0
   * exactly when nobody is.
   */
  lemma AttendanceExtremes(rows: seq<ClientRow>)
    requires |rows| > 0
    ensures var st := ComputeStats(rows);
      && (st.attendance == 100 <==> 200 * (st.total - st.present) <= st.total)
      && (st.attendance == 0 <==> 200 * st.present < st.total)
    ensures (forall i :: 0 <= i < |rows| ==> rows[i].status == Some(StatusIn)) ==> ComputeStats(rows).attendance == 100
    ensures (forall i :: 0 <= i < |rows| ==> rows[i].status != Some(StatusIn)) ==> ComputeStats(rows).attendance == 0
    ensures |rows| < 200 ==>
      (ComputeStats(rows).attendance == 100 <==> forall i :: 0 <= i < |rows| ==> rows[i].status == Some(StatusIn))
    ensures |rows| < 200 ==>
      (ComputeStats(rows).attendance == 0 <==> forall i :: 0 <= i < |rows| ==> rows[i].status != Some(StatusIn))
  {
  }

  function Repeat(row: ClientRow, n: nat): (rows: seq<ClientRow>)
    ensures |rows| == n && forall i :: 0 <= i < n ==> rows[i] == row
  {
    seq(n, i => row)
  }

  /** From 200 rows on, rounding can show 100% with someone out: 199 IN and 1 OUT display as 100. */
  lemma RoundingHidesAbsence(inRow: ClientRow, outRow: ClientRow)
    requires inRow.status == Some(StatusIn) && outRow.status == Some(StatusOut)
    ensures var rows := Repeat(inRow, 199) + [outRow];
      && ComputeStats(rows).attendance == 100
      && ComputeStats(rows).absent == 1
  {
    var rows := Repeat(inRow, 199) + [outRow];
    CountAppend(Repeat(inRow, 199), [outRow], StatusIn);
    CountAppend(Repeat(inRow, 199), [outRow], StatusOut);
  }

  /** A row with a null status counts toward the total only. */
  lemma NullStatusCountsNowhere(rows: seq<ClientRow>, row: ClientRow)
    requires row.status.None?
    ensures ComputeStats(rows + [row]).total == ComputeStats(rows).total + 1
    ensures ComputeStats(rows + [row]).present == ComputeStats(rows).present
    ensures ComputeStats(rows + [row]).absent == ComputeStats(rows).absent
  {
    CountAppend(rows, [row], StatusIn);
    CountAppend(rows, [row], StatusOut);
  }

  /** Whatever a failed or non-array fetch returned, the block shows zeros and the filter shows nothing. */
  lemma NonArrayShowsEmpty(f: Fetch, term: string)
    requires !(f.Fetched? && f.body.JsonArray?)
    ensures ComputeStats(LoadedRows(f)) == Stats(0, 0, 0, 0)
    ensures FilterRows(LoadedRows(f), term) == []
  {
  }

  // ---------- CSV ----------

  const CsvHeader := "RFID,Name,Department,Status,Last Scan"

  /** The five exported columns; `join` prints a null field as the empty string. */
  function Fields(row: ClientRow): (f: seq<string>)
    ensures |f| == 5
    ensures f[0] == row.rfid && f[1] == row.name && f[2] == row.department
    ensures f[3] == (if row.status.Some? then row.status.value else "")
    ensures f[4] == (if row.lastScan.Some? then row.lastScan.value else "")
  {
    [row.rfid, row.name, row.department, row.status.GetOr(""), row.lastScan.GetOr("")]
  }

  /** One report line: the five fields joined by commas, with no quoting. */
  function CsvLine(row: ClientRow): (line: string)
    ensures NoCharInFields(row, ',') ==> Strings.Split(line, ',') == Fields(row)
    ensures forall c :: c != ',' && NoCharInFields(row, c) ==> c !in line
  {
    CsvLineKeeps(row);
    Strings.Join(Fields(row), ',')
  }

  function CsvLines(rows: seq<ClientRow>): (lines: seq<string>)
    ensures |lines| == |rows| && forall i :: 0 <= i < |rows| ==> lines[i] == CsvLine(rows[i])
  {
    seq(|rows|, i requires 0 <= i < |rows| => CsvLine(rows[i]))
  }

  /** The report: the header line, then one line per row, joined by newlines, with no quoting. */
  function Csv(rows: seq<ClientRow>): (text: string)
    ensures |rows| == 0 ==> text == CsvHeader
    ensures |rows| > 0 ==> '\n' in text
  {
    Strings.Join([CsvHeader] + CsvLines(rows), '\n')
  }

  ghost predicate NoCharInFields(row: ClientRow, c: char)
  {
    forall k :: 0 <= k < 5 ==> c !in Fields(row)[k]
  }

  /** What a report line keeps from its fields: a comma-free row splits back, and a character no field holds is absent. */
  lemma CsvLineKeeps(row: ClientRow)
    ensures NoCharInFields(row, ',') ==> Strings.Split(Strings.Join(Fields(row), ','), ',') == Fields(row)
    ensures forall c :: c != ',' && NoCharInFields(row, c) ==> c !in Strings.Join(Fields(row), ',')
  {
    if NoCharInFields(row, ',') {
      Strings.SplitJoin(Fields(row), ',');
    }
    forall c | c != ',' && NoCharInFields(row, c)
      ensures c !in Strings.Join(Fields(row), ',')
    {
      JoinKeepsOut(Fields(row), ',', c);
    }
  }

  lemma {:induction false} JoinKeepsOut(parts: seq<string>, sep: char, c: char)
    requires c != sep && forall k :: 0 <= k < |parts| ==> c !in parts[k]
    ensures c !in Strings.Join(parts, sep)
    decreases |parts|
  {
    if |parts| > 1 {
      JoinKeepsOut(parts[1..], sep, c);
    }
  }

  /**
   * When no field holds a newline, the report splits back into exactly
   * `1 + |rows|` lines: the header first, then row `i` on line `i + 1`.
   */
  lemma CsvHasHeaderAndOneLinePerRow(rows: seq<ClientRow>)
    requires forall i :: 0 <= i < |rows| ==> NoCharInFields(rows[i], '\n')
    ensures Strings.Split(Csv(rows), '\n') == [CsvHeader] + CsvLines(rows)
    ensures |Strings.Split(Csv(rows), '\n')| == 1 + |rows|
    ensures Strings.Split(Csv(rows), '\n')[0] == CsvHeader
    ensures forall i :: 0 <= i < |rows| ==> Strings.Split(Csv(rows), '\n')[i + 1] == CsvLine(rows[i])
  {
    var lines := [CsvHeader] + CsvLines(rows);
    forall k | 0 <= k < |lines|
      ensures '\n' !in lines[k]
    {
      if k > 0 {
        var row := rows[k - 1];
        assert NoCharInFields(row, '\n');
        assert lines[k] == CsvLine(row);
      }
    }
    Strings.SplitJoin(lines, '\n');
  }


  /** Nothing is escaped: a comma inside a name splits it across two columns, giving six. */
  lemma CommaInNameShiftsColumns(row: ClientRow, first: string, last: string)
    requires row.name == first + "," + last
    requires ',' !in first && ',' !in last
    requires forall k :: 0 <= k < 5 && k != 1 ==> ',' !in Fields(row)[k]
    ensures Strings.Split(CsvLine(row), ',') ==
      [row.rfid, first, last, row.department, Fields(row)[3], Fields(row)[4]]
  {
    var f := Fields(row);
    var parts := [row.rfid, first, last, row.department, f[3], f[4]];
    assert Strings.Join(parts, ',') == CsvLine(row) by {
      assert Strings.Join(parts[2..], ',') == last + [','] + Strings.Join(f[2..], ',') by {
        assert parts[2..][1..] == f[2..];
      }
      assert parts[1..][1..] == parts[2..];
      assert f[1..][1..] == f[2..];
      assert Strings.Join(f[1..], ',') == row.name + [','] + Strings.Join(f[2..], ',');
    }
    assert forall k :: 0 <= k < |parts| ==> ',' !in parts[k] by {
      assert parts[0] == f[0] && parts[3] == f[2] && parts[4] == f[3] && parts[5] == f[4];
    }
    Strings.SplitJoin(parts, ',');
  }

  // ---------- search filter ----------

  /** Case-insensitive substring match of the search term against name, rfid or department. */
  predicate Matches(row: ClientRow, term: string): (b: bool)
    ensures b <==> exists i :: || Strings.OccursAt(Strings.ToLower(row.name), Strings.ToLower(term), i)
                              || Strings.OccursAt(Strings.ToLower(row.rfid), Strings.ToLower(term), i)
                              || Strings.OccursAt(Strings.ToLower(row.department), Strings.ToLower(term), i)
  {
    var t := Strings.ToLower(term);
    || Strings.Includes(Strings.ToLower(row.name), t)
    || Strings.Includes(Strings.ToLower(row.rfid), t)
    || Strings.Includes(Strings.ToLower(row.department), t)
  }

  function CountMatching(rows: seq<ClientRow>, term: string): nat
    decreases |rows|
  {
    if |rows| == 0 then 0
    else (if Matches(rows[0], term) then 1 else 0) + CountMatching(rows[1..], term)
  }

  /** `a` is `b` with some elements deleted, the rest in their original order. */
  ghost predicate IsSubsequence(a: seq<ClientRow>, b: seq<ClientRow>)
    decreases |b|
  {
    if |a| == 0 then true
    else if |b| == 0 then false
    else if a[0] == b[0] then IsSubsequence(a[1..], b[1..])
    else IsSubsequence(a, b[1..])
  }

  /**
   * The rows shown in the list: an order-preserving subsequence of the input
   * holding only matching rows, and as many as there are matching rows, so
   * exactly the matching rows in their original order.
   */
  function FilterRows(rows: seq<ClientRow>, term: string): (r: seq<ClientRow>)
    ensures IsSubsequence(r, rows)
    ensures forall x :: x in r ==> Matches(x, term)
    ensures |r| == CountMatching(rows, term)
    ensures forall i :: 0 <= i < |rows| && Matches(rows[i], term) ==> rows[i] in r
    decreases |rows|
  {
    if |rows| == 0 then []
    else
      var rest := FilterRows(rows[1..], term);
      assert forall i :: 1 <= i < |rows| ==> rows[i] == rows[1..][i - 1];
      if Matches(rows[0], term) then
        [rows[0]] + rest
      else
        SubsequenceSkip(rest, rows);
        rest
  }

  lemma SubsequenceSkip(a: seq<ClientRow>, b: seq<ClientRow>)
    requires |b| > 0 && IsSubsequence(a, b[1..])
    ensures IsSubsequence(a, b)
    decreases |a| + |b|, 1
  {
    if |a| > 0 && a[0] == b[0] {
      SubsequenceTail(a, b[1..]);
    }
  }

  lemma SubsequenceTail(a: seq<ClientRow>, b: seq<ClientRow>)
    requires |a| > 0 && IsSubsequence(a, b)
    ensures IsSubsequence(a[1..], b)
    decreases |a| + |b|, 0
  {
  }

  lemma IncludesEmpty(hay: string)
    ensures Strings.Includes(hay, "")
  {
    assert Strings.OccursAt(hay, "", 0);
  }

  /** An empty search term keeps every row. */
  lemma {:induction false} EmptyTermKeepsAll(rows: seq<ClientRow>)
    ensures FilterRows(rows, "") == rows
    decreases |rows|
  {
    if |rows| > 0 {
      IncludesEmpty(Strings.ToLower(rows[0].name));
      EmptyTermKeepsAll(rows[1..]);
    }
  }

  /** Only the lower-cased term matters: searching "ANN" and "ann" show the same rows. */
  lemma {:induction false} FilterIgnoresTermCase(rows: seq<ClientRow>, term: string)
    ensures FilterRows(rows, term) == FilterRows(rows, Strings.ToLower(term))
    decreases |rows|
  {
    Strings.ToLowerIdempotent(term);
    if |rows| > 0 {
      FilterIgnoresTermCase(rows[1..], term);
    }
  }
}
