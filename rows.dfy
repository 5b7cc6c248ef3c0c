/** Reading one ledger row: cell defaults, the completion check and the
    video id taken from the URL cell. */
module Rows {
  import opened Text

  /** A row as the spreadsheet returns it: its cells from column A on,
      trailing empty cells dropped, so rows may be short. */
  type Row = seq<string>

  const UnknownDate: string := "不明な日付"
  const NoTitle: string := "タイトルなし"

  /** Position of column F, the status cell that holds the stored file id. */
  const StatusColumn: nat := 5

  /** The URL query marker before the video id. */
  const VideoMarker: string := "v="

  /** `row[k] if len(row) > k else default`. */
  function CellOr(row: Row, k: nat, default: string): string
  {
    if |row| > k then row[k] else default
  }

  function Date(row: Row): string { CellOr(row, 0, UnknownDate) }
  function Title(row: Row): string { CellOr(row, 1, NoTitle) }
  function Url(row: Row): string { CellOr(row, 2, "") }

  /** `len(row) >= 6 and row[5]`: the row already has a file id. */
  predicate IsDone(row: Row)
  {
    |row| > StatusColumn && row[StatusColumn] != ""
  }

  /** `url.split('v=')[-1].split('&')[0]`. Defined for every string. */
  function VideoId(url: string): string
  {
    Split(Last(Split(url, VideoMarker)), "&")[0]
  }

  /** Each of date, title and URL is the row's own cell when the row is
      long enough and its fixed default otherwise; the three defaults are
      distinct from one another. */
  lemma CellDefaults(row: Row)
    ensures |row| == 0 ==> Date(row) == UnknownDate && Title(row) == NoTitle && Url(row) == ""
    ensures |row| == 1 ==> Date(row) == row[0] && Title(row) == NoTitle && Url(row) == ""
    ensures |row| == 2 ==> Date(row) == row[0] && Title(row) == row[1] && Url(row) == ""
    ensures |row| >= 3 ==> Date(row) == row[0] && Title(row) == row[1] && Url(row) == row[2]
    ensures Url(row) != "" ==> |row| >= 3
  {
  }

  /** The text before the first `&` of `t`, or all of `t` without one. */
  predicate IsBeforeFirstAmpersand(t: string, id: string)
  {
    && (forall i :: 0 <= i < |id| ==> id[i] != '&')
    && (id == t || (|id| < |t| && t[..|id|] == id && t[|id|] == '&'))
  }

  lemma NoCharMeansNoOccurrence(s: string, c: char)
    requires !Contains(s, [c])
    ensures forall i :: 0 <= i < |s| ==> s[i] != c
  {
    forall i | 0 <= i < |s| ensures s[i] != c {
      if s[i] == c {
        assert s[i..i + 1] == [c];
        assert OccursAt(s, [c], i);
      }
    }
  }

  /** `t.split('&')[0]` is the text before the first `&` of `t`. */
  lemma FirstAmpersandPiece(t: string)
    ensures IsBeforeFirstAmpersand(t, Split(t, "&")[0])
  {
    SplitFirstPiece(t, "&");
    var id := Split(t, "&")[0];
    NoCharMeansNoOccurrence(id, '&');
    if id != t {
      assert t[|id|..|id| + 1] == "&";
    }
  }

  /** `url.split('v=')[-1]` is all of `url` when it has no `v=`, and
      otherwise the text after its last `v=`, which starts at `p`. */
  lemma LastMarkerPiece(url: string) returns (p: int)
    ensures p == -1 ==> !Contains(url, VideoMarker) && Last(Split(url, VideoMarker)) == url
    ensures p != -1 ==>
      && 0 <= p && OccursAt(url, VideoMarker, p)
      && (forall q :: p < q <= |url| ==> !OccursAt(url, VideoMarker, q))
      && Last(Split(url, VideoMarker)) == url[p + 2..]
  {
    var tail := Last(Split(url, VideoMarker));
    SplitLastPiece(url, VideoMarker);
    if tail == url && !Contains(url, VideoMarker) {
      p := -1;
    } else {
      p := |url| - |tail| - 2;
      assert url[p + 2..] == tail;
      assert url[p..p + 2] == VideoMarker;
      assert url[p + 1] == url[p..p + 2][1] == VideoMarker[1] == '=';
      forall q | p < q <= |url| ensures !OccursAt(url, VideoMarker, q) {
        if q == p + 1 {
          assert q + 2 <= |url| ==> url[q..q + 2][0] == '=' != VideoMarker[0];
        } else if q + 2 <= |url| {
          var k := q - p - 2;
          assert 0 <= k && k + 2 <= |tail|;
          assert url[q..q + 2] == tail[k..k + 2];
          assert !OccursAt(tail, VideoMarker, k);
        }
      }
    }
  }

  /** The id extraction never fails and its result holds no `&`. When the
      URL has no `v=`, the id is the URL up to its first `&`. Otherwise the
      returned position `p` is where the last `v=` of the URL starts, and
      the id is the text after it up to the first following `&`. */
  lemma VideoIdSpec(url: string) returns (p: int)
    ensures forall i :: 0 <= i < |VideoId(url)| ==> VideoId(url)[i] != '&'
    ensures p == -1 ==> !Contains(url, VideoMarker) && IsBeforeFirstAmpersand(url, VideoId(url))
    ensures p != -1 ==>
      && 0 <= p && OccursAt(url, VideoMarker, p)
      && (forall q :: p < q <= |url| ==> !OccursAt(url, VideoMarker, q))
      && IsBeforeFirstAmpersand(url[p + 2..], VideoId(url))
  {
    p := LastMarkerPiece(url);
    FirstAmpersandPiece(Last(Split(url, VideoMarker)));
  }
}
