/** The archiving run: the per-row pipeline (list captions, pick a track,
    download it, store it as a file, record the file id in column F) and
    the scan over the ledger rows with its per-run cap and quota stop. */
module Archive {
  import opened Wrappers
  import opened Text
  import opened Filename
  import opened Tracks
  import opened Rows

  /** Most rows a run sends through the pipeline. */
  const CheckLimit: nat := 3

  /** Drive folder every transcript is stored in. */
  const FolderId: string := "1z7Tk3L5xCw6a71fpB0oVff_43GVEldRf"

  const PlainText: string := "text/plain"

  /** Text of an error that means the daily API quota is used up. */
  const QuotaKeyword: string := "quotaExceeded"

  /** Data rows are read from range `A2:G2000`: row `i` of the data is
      sheet row `i + 2`, and its status cell is `F{i + 2}`. */
  function SheetRow(i: nat): nat { i + 2 }

  /** Body of the Drive `files().create` call. */
  datatype FileRequest = FileRequest(name: string, parents: seq<string>, mimeType: string, body: string)

  /** The collaborators, each as the reply it gives to a call. The first
      argument is the data row being handled (for `updateCell`, the sheet
      row written), so replies may differ from row to row as remote state
      changes during the run.
      - `listCaptions(i, videoId)`: the `items` of `captions().list`
        (an empty list when the reply has none);
      - `download(i, trackId)`: the caption text `captions().download`
        gives, already decoded;
      - `createFile(i, request)`: the id `files().create` returns;
      - `updateCell(sheetRow, value)`: the `values().update` of `F{sheetRow}`. */
  datatype Services = Services(
    listCaptions: (nat, string) -> Call<seq<Track>>,
    download: (nat, string) -> Call<string>,
    createFile: (nat, FileRequest) -> Call<string>,
    updateCell: (nat, string) -> Call<()>)

  /** What the pipeline did with one row that was counted. */
  datatype RowOutcome =
    | NoCaptions
    | Archived(track: Track, request: FileRequest, fileId: string)
    | Failed(message: string)

  predicate IsQuotaMessage(message: string)
  {
    Contains(message, QuotaKeyword)
  }

  predicate IsQuotaFailure(o: RowOutcome)
  {
    o.Failed? && IsQuotaMessage(o.message)
  }

  /** The body of the `try` block for row `i`. Any collaborator that raises
      ends the row with `Failed` and the exception text. */
  function ArchiveRow(i: nat, videoId: string, date: string, title: string, s: Services): RowOutcome
  {
    match s.listCaptions(i, videoId)
    case Raised(m) => Failed(m)
    case Returned(items) =>
      if |items| == 0 then NoCaptions
      else
        var target := items[SelectTrack(items)];
        match s.download(i, target.id)
        case Raised(m) => Failed(m)
        case Returned(text) =>
          var request := FileRequest(StoredFileName(date, title), [FolderId], PlainText, text);
          match s.createFile(i, request)
          case Raised(m) => Failed(m)
          case Returned(fileId) =>
            match s.updateCell(SheetRow(i), fileId)
            case Raised(m) => Failed(m)
            case Returned(_) => Archived(target, request, fileId)
  }

  /** The pipeline's outcome for row `k` of `rows`. */
  function OutcomeAt(rows: seq<Row>, s: Services, k: nat): RowOutcome
    requires k < |rows|
  {
    var row := rows[k];
    ArchiveRow(k, VideoId(Url(row)), Date(row), Title(row), s)
  }

  /** A row once the pipeline has stored it: the track it picked, the name
      and body of the file it created and the id written back all come from
      the collaborators' replies as the source chains them. */
  lemma ArchivedRow(i: nat, row: Row, s: Services)
    requires ArchiveRow(i, VideoId(Url(row)), Date(row), Title(row), s).Archived?
    ensures var o := ArchiveRow(i, VideoId(Url(row)), Date(row), Title(row), s);
      && s.listCaptions(i, VideoId(Url(row))).Returned?
      && var items := s.listCaptions(i, VideoId(Url(row))).value;
      && |items| > 0
      && o.track == items[SelectTrack(items)]
      && s.download(i, o.track.id) == Returned(o.request.body)
      && o.request.name == StoredFileName(Date(row), Title(row))
      && o.request.parents == [FolderId]
      && s.createFile(i, o.request) == Returned(o.fileId)
      && s.updateCell(SheetRow(i), o.fileId).Returned?
  {
  }

  /** A write of `value` into the status cell of data row `index`. */
  datatype Write = Write(index: nat, value: string)

  /** Why the scan ended: it ran out of rows, or it broke out of the loop at
      data row `at` because the cap was reached or the quota was used up. */
  datatype Stop = Exhausted | CapReached(at: nat) | QuotaStop(at: nat)

  /** What a run did: the rows it counted (in order), the status cells it
      wrote (in order) and how it ended. */
  datatype Report = Report(counted: seq<nat>, writes: seq<Write>, stop: Stop)

  /** The scan of `rows` from data row `i` on, with `checkCount` rows
      already counted. */
  function ScanFrom(rows: seq<Row>, s: Services, i: nat, checkCount: nat): Report
    requires i <= |rows|
    decreases |rows| - i
  {
    if i == |rows| then Report([], [], Exhausted)
    else if IsDone(rows[i]) then ScanFrom(rows, s, i + 1, checkCount)
    else if checkCount >= CheckLimit then Report([], [], CapReached(i))
    else if Url(rows[i]) == "" then ScanFrom(rows, s, i + 1, checkCount)
    else AfterCounting(i, OutcomeAt(rows, s, i), ScanFrom(rows, s, i + 1, checkCount + 1))
  }

  /** Row `i` was counted and its pipeline ended with `o`; `rest` is the
      scan of the rows after it. Only a quota failure breaks the loop. */
  function AfterCounting(i: nat, o: RowOutcome, rest: Report): Report
  {
    if IsQuotaFailure(o) then Report([i], [], QuotaStop(i))
    else Report([i] + rest.counted, (if o.Archived? then [Write(i, o.fileId)] else []) + rest.writes, rest.stop)
  }

  /** A whole run over the fetched rows. */
  function Scan(rows: seq<Row>, s: Services): Report
  {
    ScanFrom(rows, s, 0, 0)
  }

  /** A row the scan sends through the pipeline when the cap allows. */
  predicate IsEligible(row: Row)
  {
    !IsDone(row) && Url(row) != ""
  }

  /** The eligible rows among `rows[lo..hi]`, in order. */
  function Eligible(rows: seq<Row>, lo: nat, hi: nat): seq<nat>
    requires lo <= hi <= |rows|
    decreases hi - lo
  {
    if lo == hi then []
    else (if IsEligible(rows[lo]) then [lo] else []) + Eligible(rows, lo + 1, hi)
  }

  /** Exactly the eligible positions in `[lo, hi)` are listed. */
  lemma {:induction false} EligibleMembers(rows: seq<Row>, lo: nat, hi: nat)
    requires lo <= hi <= |rows|
    ensures forall k :: k in Eligible(rows, lo, hi) <==> lo <= k < hi && IsEligible(rows[k])
    decreases hi - lo
  {
    if lo < hi {
      EligibleMembers(rows, lo + 1, hi);
    }
  }

  /** `xs` increases strictly. */
  predicate Increasing(xs: seq<nat>)
  {
    forall a, b :: 0 <= a < b < |xs| ==> xs[a] < xs[b]
  }

  /** Every listed position lies in `[lo, hi)`. */
  lemma {:induction false} EligibleBounds(rows: seq<Row>, lo: nat, hi: nat)
    requires lo <= hi <= |rows|
    ensures forall j :: 0 <= j < |Eligible(rows, lo, hi)| ==> lo <= Eligible(rows, lo, hi)[j] < hi
    decreases hi - lo
  {
    if lo < hi {
      EligibleBounds(rows, lo + 1, hi);
      var e, t := Eligible(rows, lo, hi), Eligible(rows, lo + 1, hi);
      if IsEligible(rows[lo]) {
        assert e == [lo] + t;
        forall j | 0 < j < |e| ensures e[j] == t[j - 1] { }
      } else {
        assert e == t;
      }
    }
  }

  /** The eligible positions are listed in strictly increasing order. */
  lemma {:induction false} EligibleIncreasing(rows: seq<Row>, lo: nat, hi: nat)
    requires lo <= hi <= |rows|
    ensures Increasing(Eligible(rows, lo, hi))
    decreases hi - lo
  {
    if lo < hi {
      EligibleIncreasing(rows, lo + 1, hi);
      EligibleBounds(rows, lo + 1, hi);
      var t := Eligible(rows, lo + 1, hi);
      if IsEligible(rows[lo]) {
        PrependIncreasing(lo, t);
      }
    }
  }

  lemma PrependIncreasing(x: nat, t: seq<nat>)
    requires Increasing(t)
    requires forall j :: 0 <= j < |t| ==> x < t[j]
    ensures Increasing([x] + t)
  {
    var e := [x] + t;
    forall a, b | 0 <= a < b < |e| ensures e[a] < e[b] {
      assert e[b] == t[b - 1];
      if a > 0 {
        assert e[a] == t[a - 1];
      }
    }
  }

  /** Where the rows the scan looked at end: after the last row for an
      exhausted scan or a quota stop, before the row at a cap stop. */
  function End(r: Report, n: nat): nat
  {
    match r.stop
    case Exhausted => n
    case CapReached(j) => j
    case QuotaStop(j) => j + 1
  }

  /** The rows the scan counts are exactly the eligible rows before it
      ends: rows with a status and rows without a URL are never counted,
      and no eligible row before the end is passed over. */
  lemma {:induction false} ScanFromCountsEligible(rows: seq<Row>, s: Services, i: nat, c: nat)
    requires i <= |rows|
    ensures var r := ScanFrom(rows, s, i, c);
      && i <= End(r, |rows|) <= |rows|
      && r.counted == Eligible(rows, i, End(r, |rows|))
    decreases |rows| - i
  {
    if i < |rows| {
      var r := ScanFrom(rows, s, i, c);
      if IsDone(rows[i]) || (c < CheckLimit && Url(rows[i]) == "") {
        ScanFromCountsEligible(rows, s, i + 1, c);
      } else if c < CheckLimit {
        ScanFromCountsEligible(rows, s, i + 1, c + 1);
        if IsQuotaFailure(OutcomeAt(rows, s, i)) {
          assert Eligible(rows, i + 1, i + 1) == [];
        }
      }
    }
  }

  /** The number of counted rows never goes past the cap. */
  lemma {:induction false} ScanFromRespectsLimit(rows: seq<Row>, s: Services, i: nat, c: nat)
    requires i <= |rows| && c <= CheckLimit
    ensures c + |ScanFrom(rows, s, i, c).counted| <= CheckLimit
    decreases |rows| - i
  {
    if i < |rows| && !(!IsDone(rows[i]) && c >= CheckLimit) {
      if IsDone(rows[i]) || Url(rows[i]) == "" {
        ScanFromRespectsLimit(rows, s, i + 1, c);
      } else {
        ScanFromRespectsLimit(rows, s, i + 1, c + 1);
      }
    }
  }

  /** The counted rows lie in `[i, |rows|)` and increase strictly. */
  lemma ScanFromCountedRange(rows: seq<Row>, s: Services, i: nat, c: nat)
    requires i <= |rows|
    ensures var r := ScanFrom(rows, s, i, c);
      && (forall k :: k in r.counted ==> i <= k < |rows|)
      && Increasing(r.counted)
  {
    var r := ScanFrom(rows, s, i, c);
    ScanFromCountsEligible(rows, s, i, c);
    EligibleMembers(rows, i, End(r, |rows|));
    EligibleIncreasing(rows, i, End(r, |rows|));
  }

  /** The counted row just after which a scan from `i` resumes looking. */
  function Frontier(i: nat, counted: seq<nat>): nat
  {
    if counted == [] then i else Last(counted) + 1
  }

  /** A cap stop happens once the cap has been used up, at the first row
      after the last counted one that has no status, whether it has a URL
      or not. */
  lemma {:induction false} ScanFromCapStop(rows: seq<Row>, s: Services, i: nat, c: nat)
    requires i <= |rows| && c <= CheckLimit
    ensures var r := ScanFrom(rows, s, i, c);
      r.stop.CapReached? ==>
        && c + |r.counted| == CheckLimit
        && Frontier(i, r.counted) <= r.stop.at < |rows|
        && !IsDone(rows[r.stop.at])
        && forall k :: Frontier(i, r.counted) <= k < r.stop.at ==> IsDone(rows[k])
    decreases |rows| - i
  {
    if i < |rows| {
      if IsDone(rows[i]) {
        ScanFromCapStop(rows, s, i + 1, c);
      } else if c >= CheckLimit {
      } else if Url(rows[i]) == "" {
        ScanFromCapStop(rows, s, i + 1, c);
      } else {
        ScanFromCapStop(rows, s, i + 1, c + 1);
        var rest := ScanFrom(rows, s, i + 1, c + 1);
        if rest.counted != [] {
          assert Last([i] + rest.counted) == Last(rest.counted);
        }
      }
    }
  }

  /** Conversely, once the cap has been used up without a quota error, a
      row after the last counted one that has no status makes the scan stop
      at the cap. */
  lemma {:induction false} ScanFromCapForced(rows: seq<Row>, s: Services, i: nat, c: nat, k: nat)
    requires i <= |rows| && c <= CheckLimit
    ensures var r := ScanFrom(rows, s, i, c);
      (&& c + |r.counted| == CheckLimit
       && !r.stop.QuotaStop?
       && Frontier(i, r.counted) <= k < |rows|
       && !IsDone(rows[k]))
      ==> r.stop.CapReached?
    decreases |rows| - i
  {
    if i < |rows| {
      if IsDone(rows[i]) {
        ScanFromCapForced(rows, s, i + 1, c, k);
      } else if c >= CheckLimit {
      } else if Url(rows[i]) == "" {
        ScanFromCapForced(rows, s, i + 1, c, k);
      } else {
        ScanFromCapForced(rows, s, i + 1, c + 1, k);
        var rest := ScanFrom(rows, s, i + 1, c + 1);
        if rest.counted != [] {
          assert Last([i] + rest.counted) == Last(rest.counted);
        }
      }
    }
  }

  /** A quota stop happens at the last counted row, whose pipeline failed
      with the quota error. */
  lemma {:induction false} ScanFromQuotaStop(rows: seq<Row>, s: Services, i: nat, c: nat)
    requires i <= |rows|
    ensures var r := ScanFrom(rows, s, i, c);
      r.stop.QuotaStop? ==>
        && r.counted != []
        && Last(r.counted) == r.stop.at
        && i <= r.stop.at < |rows|
        && IsQuotaFailure(OutcomeAt(rows, s, r.stop.at))
    decreases |rows| - i
  {
    if i < |rows| {
      if IsDone(rows[i]) || (c < CheckLimit && Url(rows[i]) == "") {
        ScanFromQuotaStop(rows, s, i + 1, c);
      } else if c < CheckLimit {
        ScanFromQuotaStop(rows, s, i + 1, c + 1);
        var rest := ScanFrom(rows, s, i + 1, c + 1);
        if rest.counted != [] {
          assert Last([i] + rest.counted) == Last(rest.counted);
        }
      }
    }
  }

  /** Only a quota failure stops the scan: a counted row that failed with
      the quota error is where the scan stopped. */
  lemma {:induction false} ScanFromOnlyQuotaStops(rows: seq<Row>, s: Services, i: nat, c: nat)
    requires i <= |rows|
    ensures var r := ScanFrom(rows, s, i, c);
      && (forall k :: k in r.counted ==> i <= k < |rows|)
      && forall k :: k in r.counted && IsQuotaFailure(OutcomeAt(rows, s, k)) ==> r.stop == QuotaStop(k)
    decreases |rows| - i
  {
    ScanFromCountedRange(rows, s, i, c);
    if i < |rows| {
      if IsDone(rows[i]) || (c < CheckLimit && Url(rows[i]) == "") {
        ScanFromOnlyQuotaStops(rows, s, i + 1, c);
      } else if c < CheckLimit {
        ScanFromOnlyQuotaStops(rows, s, i + 1, c + 1);
      }
    }
  }

  /** The writes are for rows in `[lo, hi)`, in strictly increasing row
      order, so no row is written twice. */
  predicate WritesOrdered(writes: seq<Write>, lo: nat, hi: nat)
  {
    && (forall j :: 0 <= j < |writes| ==> lo <= writes[j].index < hi)
    && (forall a, b :: 0 <= a < b < |writes| ==> writes[a].index < writes[b].index)
  }

  lemma PrependWrite(w: Write, rest: seq<Write>, lo: nat, hi: nat)
    requires lo <= w.index < hi
    requires WritesOrdered(rest, w.index + 1, hi)
    ensures WritesOrdered([w] + rest, lo, hi)
  {
    var ws := [w] + rest;
    forall j | 0 < j < |ws| ensures ws[j] == rest[j - 1] { }
  }

  lemma {:induction false} ScanFromWritesOrdered(rows: seq<Row>, s: Services, i: nat, c: nat)
    requires i <= |rows|
    ensures WritesOrdered(ScanFrom(rows, s, i, c).writes, i, |rows|)
    decreases |rows| - i
  {
    if i < |rows| {
      if IsDone(rows[i]) || (c < CheckLimit && Url(rows[i]) == "") {
        ScanFromWritesOrdered(rows, s, i + 1, c);
        assert ScanFrom(rows, s, i, c) == ScanFrom(rows, s, i + 1, c);
      } else if c < CheckLimit {
        ScanFromWritesOrdered(rows, s, i + 1, c + 1);
        var r, rest := ScanFrom(rows, s, i, c), ScanFrom(rows, s, i + 1, c + 1);
        var o := OutcomeAt(rows, s, i);
        assert r == AfterCounting(i, o, rest);
        if o.Archived? {
          PrependWrite(Write(i, o.fileId), rest.writes, i, |rows|);
        }
      }
    }
  }

  /** Every status write is for a counted row whose pipeline stored a file,
      and carries the id the file store returned. */
  predicate WritesRecordArchived(rows: seq<Row>, s: Services, r: Report)
  {
    forall j :: 0 <= j < |r.writes| ==>
      && r.writes[j].index in r.counted
      && r.writes[j].index < |rows|
      && OutcomeAt(rows, s, r.writes[j].index).Archived?
      && OutcomeAt(rows, s, r.writes[j].index).fileId == r.writes[j].value
  }

  lemma {:induction false} ScanFromWritesAreArchived(rows: seq<Row>, s: Services, i: nat, c: nat)
    requires i <= |rows|
    ensures WritesRecordArchived(rows, s, ScanFrom(rows, s, i, c))
    decreases |rows| - i
  {
    if i < |rows| {
      if IsDone(rows[i]) || (c < CheckLimit && Url(rows[i]) == "") {
        ScanFromWritesAreArchived(rows, s, i + 1, c);
        assert ScanFrom(rows, s, i, c) == ScanFrom(rows, s, i + 1, c);
      } else if c < CheckLimit {
        ScanFromWritesAreArchived(rows, s, i + 1, c + 1);
        var r, rest := ScanFrom(rows, s, i, c), ScanFrom(rows, s, i + 1, c + 1);
        var o := OutcomeAt(rows, s, i);
        assert r == AfterCounting(i, o, rest);
        if o.Archived? {
          assert r.writes == [Write(i, o.fileId)] + rest.writes;
          assert r.counted == [i] + rest.counted;
          forall j | 0 < j < |r.writes| ensures r.writes[j] == rest.writes[j - 1] { }
        }
      }
    }
  }

  /** Every counted row whose pipeline stored a file has its status cell
      written with the returned id. */
  lemma {:induction false} ScanFromArchivedAreWritten(rows: seq<Row>, s: Services, i: nat, c: nat)
    requires i <= |rows|
    ensures var r := ScanFrom(rows, s, i, c);
      && (forall k :: k in r.counted ==> i <= k < |rows|)
      && forall k :: k in r.counted && OutcomeAt(rows, s, k).Archived? ==>
           Write(k, OutcomeAt(rows, s, k).fileId) in r.writes
    decreases |rows| - i
  {
    ScanFromCountedRange(rows, s, i, c);
    if i < |rows| {
      if IsDone(rows[i]) || (c < CheckLimit && Url(rows[i]) == "") {
        ScanFromArchivedAreWritten(rows, s, i + 1, c);
      } else if c < CheckLimit {
        ScanFromArchivedAreWritten(rows, s, i + 1, c + 1);
      }
    }
  }

  /** The rows the scan looks at split at any point in between. */
  lemma {:induction false} EligibleSplit(rows: seq<Row>, lo: nat, mid: nat, hi: nat)
    requires lo <= mid <= hi <= |rows|
    ensures Eligible(rows, lo, hi) == Eligible(rows, lo, mid) + Eligible(rows, mid, hi)
    decreases mid - lo
  {
    if lo < mid {
      EligibleSplit(rows, lo + 1, mid, hi);
    }
  }

  /** A row with date and title cells is stored under its cleaned date,
      `_`, its cleaned title and `.txt`. */
  lemma FullRowFileName(row: Row)
    requires |row| >= 2
    ensures StoredFileName(Date(row), Title(row)) == CleanFilename(row[0]) + "_" + CleanFilename(row[1]) + ".txt"
  {
    StoredFileNameParts(Date(row), Title(row));
  }

  /** A row with only a date cell gets the default title. */
  lemma DateOnlyRowFileName(row: Row)
    requires |row| == 1
    ensures StoredFileName(Date(row), Title(row)) == CleanFilename(row[0]) + "_" + NoTitle + ".txt"
  {
    StoredFileNameParts(Date(row), Title(row));
    assert CleanFilename(NoTitle) == NoTitle by { CleanFilenameFixesClean(NoTitle); }
  }

  /** An empty row gets both defaults, which need no cleaning. */
  lemma EmptyRowFileName(row: Row)
    requires |row| == 0
    ensures StoredFileName(Date(row), Title(row)) == "不明な日付_タイトルなし.txt"
  {
    assert Date(row) == UnknownDate && Title(row) == NoTitle;
    StoredFileNameParts(UnknownDate, NoTitle);
    assert CleanFilename(NoTitle) == NoTitle by { CleanFilenameFixesClean(NoTitle); }
    assert CleanFilename(UnknownDate) == UnknownDate by { CleanFilenameFixesClean(UnknownDate); }
    assert StoredFileName(UnknownDate, NoTitle) == UnknownDate + "_" + NoTitle + Extension;
    assert UnknownDate + "_" + NoTitle + Extension == "不明な日付_タイトルなし.txt";
  }

  /** A run counts exactly the rows with no status and a non-empty URL that
      come before the point where it stopped, in row order, and never more
      than the cap. */
  lemma RunCountsEligible(rows: seq<Row>, s: Services)
    ensures End(Scan(rows, s), |rows|) <= |rows|
    ensures |Scan(rows, s).counted| <= CheckLimit
    ensures Increasing(Scan(rows, s).counted)
    ensures forall k :: 0 <= k < |rows| ==>
      (k in Scan(rows, s).counted <==> k < End(Scan(rows, s), |rows|) && IsEligible(rows[k]))
  {
    var r := Scan(rows, s);
    ScanFromCountsEligible(rows, s, 0, 0);
    ScanFromRespectsLimit(rows, s, 0, 0);
    ScanFromCountedRange(rows, s, 0, 0);
    EligibleMembers(rows, 0, End(r, |rows|));
  }

  /** A run stops at the cap only once it has counted `CheckLimit` rows, and
      it does so at the first row after the last counted one that has no
      status, even when that row has no URL. Conversely, when `CheckLimit`
      rows were counted and none hit the quota error, any later row with no
      status makes the run stop at the cap. */
  lemma RunCapStop(rows: seq<Row>, s: Services)
    ensures Scan(rows, s).stop.CapReached? ==>
      && |Scan(rows, s).counted| == CheckLimit
      && Last(Scan(rows, s).counted) < Scan(rows, s).stop.at < |rows|
      && !IsDone(rows[Scan(rows, s).stop.at])
      && forall k :: Last(Scan(rows, s).counted) < k < Scan(rows, s).stop.at ==> IsDone(rows[k])
    ensures forall k ::
      (&& |Scan(rows, s).counted| == CheckLimit
       && !Scan(rows, s).stop.QuotaStop?
       && Last(Scan(rows, s).counted) < k < |rows|
       && !IsDone(rows[k]))
      ==> Scan(rows, s).stop.CapReached?
  {
    ScanFromCapStop(rows, s, 0, 0);
    forall k: nat
      ensures (&& |Scan(rows, s).counted| == CheckLimit
               && !Scan(rows, s).stop.QuotaStop?
               && Last(Scan(rows, s).counted) < k < |rows|
               && !IsDone(rows[k]))
              ==> Scan(rows, s).stop.CapReached?
    {
      ScanFromCapForced(rows, s, 0, 0, k);
    }
  }

  /** A quota error ends the run at the row where it occurred, which is the
      last row counted; no row after it is counted or written. It is the
      only error that ends the run: a counted row whose pipeline failed with
      the quota error is always where the run stopped. */
  lemma RunQuotaStop(rows: seq<Row>, s: Services)
    ensures forall k :: k in Scan(rows, s).counted ==> k < |rows|
    ensures Scan(rows, s).stop.QuotaStop? ==>
      && Scan(rows, s).counted != []
      && Last(Scan(rows, s).counted) == Scan(rows, s).stop.at < |rows|
      && IsQuotaFailure(OutcomeAt(rows, s, Scan(rows, s).stop.at))
      && (forall k :: k in Scan(rows, s).counted ==> k <= Scan(rows, s).stop.at)
      && (forall j :: 0 <= j < |Scan(rows, s).writes| ==> Scan(rows, s).writes[j].index < Scan(rows, s).stop.at)
    ensures forall k :: k in Scan(rows, s).counted && IsQuotaFailure(OutcomeAt(rows, s, k)) ==>
      Scan(rows, s).stop == QuotaStop(k)
  {
    var r := Scan(rows, s);
    ScanFromCountedRange(rows, s, 0, 0);
    ScanFromQuotaStop(rows, s, 0, 0);
    ScanFromOnlyQuotaStops(rows, s, 0, 0);
    ScanFromWritesAreArchived(rows, s, 0, 0);
    if r.stop.QuotaStop? {
      var at := r.stop.at;
      forall k | k in r.counted ensures k <= at {
        var a :| 0 <= a < |r.counted| && r.counted[a] == k;
        assert Last(r.counted) == r.counted[|r.counted| - 1];
      }
      forall j | 0 <= j < |r.writes| ensures r.writes[j].index < at {
        assert r.writes[j].index in r.counted;
        assert OutcomeAt(rows, s, r.writes[j].index).Archived?;
      }
    }
  }

  /** What a run writes: cells of counted rows whose pipeline stored a
      file, each written once with the returned file id, in row order; no
      other cell. */
  lemma RunWrites(rows: seq<Row>, s: Services)
    ensures WritesOrdered(Scan(rows, s).writes, 0, |rows|)
    ensures WritesRecordArchived(rows, s, Scan(rows, s))
    ensures forall k :: k in Scan(rows, s).counted ==> k < |rows|
    ensures forall k :: k in Scan(rows, s).counted && OutcomeAt(rows, s, k).Archived? ==>
      Write(k, OutcomeAt(rows, s, k).fileId) in Scan(rows, s).writes
  {
    ScanFromWritesOrdered(rows, s, 0, 0);
    ScanFromWritesAreArchived(rows, s, 0, 0);
    ScanFromArchivedAreWritten(rows, s, 0, 0);
  }

  /** With no quota error, a run counts all eligible rows when there are at
      most `CheckLimit` of them, and exactly `CheckLimit` rows, stopping at
      the cap, when there are more. */
  lemma RunCapEnforced(rows: seq<Row>, s: Services)
    requires forall k :: 0 <= k < |rows| && IsEligible(rows[k]) ==> !IsQuotaFailure(OutcomeAt(rows, s, k))
    ensures var n := |Eligible(rows, 0, |rows|)|;
      && |Scan(rows, s).counted| == (if n < CheckLimit then n else CheckLimit)
      && (n > CheckLimit ==> Scan(rows, s).stop.CapReached?)
  {
    var r := Scan(rows, s);
    ScanFromCountsEligible(rows, s, 0, 0);
    ScanFromRespectsLimit(rows, s, 0, 0);
    RunQuotaStop(rows, s);
    RunCapStop(rows, s);
    var e := End(r, |rows|);
    EligibleSplit(rows, 0, e, |rows|);
    EligibleMembers(rows, 0, e);
  }
}
