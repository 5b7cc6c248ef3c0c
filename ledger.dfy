/** The status column F of the ledger, the loop of `main` that walks the
    fetched rows and writes it, and what a whole run guarantees. */
module Ledger {
  import opened Wrappers
  import opened Rows
  import opened Archive

  /** The status column after `writes`, in order, starting from `cells`;
      `cells[i]` is cell `F{i + 2}`. */
  function Apply(cells: seq<string>, writes: seq<Write>): (r: seq<string>)
    requires forall j :: 0 <= j < |writes| ==> writes[j].index < |cells|
    ensures |r| == |cells|
    decreases |writes|
  {
    if writes == [] then cells
    else
      var w := writes[|writes| - 1];
      Apply(cells, writes[..|writes| - 1])[w.index := w.value]
  }

  /** A cell no write addresses keeps its value; a cell some write
      addresses ends with that write's value (writes in increasing row
      order address each cell at most once). */
  lemma {:induction false} ApplyAt(cells: seq<string>, writes: seq<Write>, k: nat)
    requires WritesOrdered(writes, 0, |cells|)
    requires k < |cells|
    ensures (forall j :: 0 <= j < |writes| ==> writes[j].index != k) ==> Apply(cells, writes)[k] == cells[k]
    ensures forall j :: 0 <= j < |writes| && writes[j].index == k ==> Apply(cells, writes)[k] == writes[j].value
    decreases |writes|
  {
    if writes != [] {
      var init := writes[..|writes| - 1];
      assert forall j :: 0 <= j < |init| ==> init[j] == writes[j];
      ApplyAt(cells, init, k);
    }
  }

  /** Counted rows, writes and stop reason gathered so far, followed by the
      scan of the remaining rows. */
  function Combine(counted: seq<nat>, writes: seq<Write>, rest: Report): Report
  {
    Report(counted + rest.counted, writes + rest.writes, rest.stop)
  }

  /** Moving one counted row that did not hit the quota from the rest of
      the scan to what has been gathered. */
  lemma CombineCounted(counted: seq<nat>, writes: seq<Write>, i: nat, o: RowOutcome, rest: Report)
    requires !IsQuotaFailure(o)
    ensures Combine(counted, writes, AfterCounting(i, o, rest))
         == Combine(counted + [i], writes + (if o.Archived? then [Write(i, o.fileId)] else []), rest)
  {
    assert (counted + [i]) + rest.counted == counted + ([i] + rest.counted);
    var w := if o.Archived? then [Write(i, o.fileId)] else [];
    assert (writes + w) + rest.writes == writes + (w + rest.writes);
  }

  /** The `for i, row in enumerate(rows)` loop of `main`. `column` holds
      the status cells the loop writes; the skip test reads the fetched
      rows, as the source does. The returned report lists the rows counted
      and the cells written, in order. */
  method ScanLedger(rows: seq<Row>, s: Services, column: array<string>) returns (report: Report)
    requires |rows| <= column.Length
    modifies column
    ensures report == Scan(rows, s)
    ensures WritesOrdered(report.writes, 0, |rows|)
    ensures column[..] == Apply(old(column[..]), report.writes)
  {
    var checkCount: nat := 0;
    var counted: seq<nat> := [];
    var writes: seq<Write> := [];
    var stop := Exhausted;
    for i := 0 to |rows|
      invariant checkCount == |counted|
      invariant Combine(counted, writes, ScanFrom(rows, s, i, checkCount)) == Scan(rows, s)
      invariant forall j :: 0 <= j < |writes| ==> writes[j].index < i
      invariant column[..] == Apply(old(column[..]), writes)
    {
      var row := rows[i];
      if IsDone(row) {
        continue;
      }
      if checkCount >= CheckLimit {
        stop := CapReached(i);
        break;
      }
      var date, title, url := Date(row), Title(row), Url(row);
      if url == "" {
        continue;
      }
      var videoId := VideoId(url);
      ghost var rest := ScanFrom(rows, s, i + 1, checkCount + 1);
      checkCount := checkCount + 1;
      counted := counted + [i];
      var outcome := ArchiveRow(i, videoId, date, title, s);
      assert ScanFrom(rows, s, i, checkCount - 1) == AfterCounting(i, outcome, rest);
      if IsQuotaFailure(outcome) {
        stop := QuotaStop(i);
        break;
      }
      CombineCounted(counted[..|counted| - 1], writes, i, outcome, rest);
      assert counted[..|counted| - 1] + [i] == counted;
      if outcome.Archived? {
        column[i] := outcome.fileId;
        ghost var before := writes;
        writes := writes + [Write(i, outcome.fileId)];
        assert writes[..|writes| - 1] == before;
      }
    }
    report := Report(counted, writes, stop);
    ScanFromWritesOrdered(rows, s, 0, 0);
  }

  /** `main` from the sheet read on: a failed read ends the run before any
      row is looked at; otherwise the rows are scanned. */
  method ArchiveRun(fetched: Call<seq<Row>>, s: Services, column: array<string>) returns (report: Option<Report>)
    requires fetched.Returned? ==> |fetched.value| <= column.Length
    modifies column
    ensures fetched.Raised? ==> report == None && column[..] == old(column[..])
    ensures fetched.Returned? ==>
      && report == Some(Scan(fetched.value, s))
      && WritesOrdered(Scan(fetched.value, s).writes, 0, |fetched.value|)
      && column[..] == Apply(old(column[..]), Scan(fetched.value, s).writes)
  {
    match fetched
    case Raised(_) =>
      report := None;
    case Returned(rows) =>
      var r := ScanLedger(rows, s, column);
      report := Some(r);
  }

  /** The status column after a run: a cell changes only if its row was
      counted and its pipeline stored a file, and it then holds that
      file's id. Done rows, rows without a URL, rows past the stop, rows
      without captions and rows whose pipeline failed keep their cell. */
  lemma LedgerAfterRun(rows: seq<Row>, s: Services, before: seq<string>)
    requires |rows| <= |before|
    ensures WritesOrdered(Scan(rows, s).writes, 0, |rows|)
    ensures forall k :: 0 <= k < |before| ==>
      Apply(before, Scan(rows, s).writes)[k]
        == if k < |rows| && k in Scan(rows, s).counted && OutcomeAt(rows, s, k).Archived?
           then OutcomeAt(rows, s, k).fileId
           else before[k]
  {
    var r := Scan(rows, s);
    RunWrites(rows, s);
    assert WritesOrdered(r.writes, 0, |before|);
    forall k | 0 <= k < |before|
      ensures Apply(before, r.writes)[k]
        == if k < |rows| && k in r.counted && OutcomeAt(rows, s, k).Archived?
           then OutcomeAt(rows, s, k).fileId
           else before[k]
    {
      ApplyAt(before, r.writes, k);
      if k < |rows| && k in r.counted && OutcomeAt(rows, s, k).Archived? {
        var w := Write(k, OutcomeAt(rows, s, k).fileId);
        assert w in r.writes;
        var j :| 0 <= j < |r.writes| && r.writes[j] == w;
      } else {
        forall j | 0 <= j < |r.writes| ensures r.writes[j].index != k {
          assert r.writes[j].index in r.counted;
        }
      }
    }
  }
}
