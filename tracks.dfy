/** Choice of the caption track to download for one video. */
module Tracks {
  import opened Wrappers

  /** One entry of the caption listing: its id and the `language` and
      `trackKind` fields of its snippet. */
  datatype Track = Track(id: string, language: string, trackKind: string)

  const TargetLanguage: string := "ja"

  /** The `trackKind` of automatically recognised captions. */
  const AsrKind: string := "ASR"

  /** A Japanese caption track that is not automatic. */
  predicate IsManualJapanese(t: Track)
  {
    t.language == TargetLanguage && t.trackKind != AsrKind
  }

  /** A Japanese automatic caption track. */
  predicate IsAsrJapanese(t: Track)
  {
    t.language == TargetLanguage && t.trackKind == AsrKind
  }

  /** Python's `next((c for c in items[from:] if p(c)), None)`, as a position. */
  function FirstMatch(items: seq<Track>, p: Track -> bool, from: nat): (r: Option<nat>)
    requires from <= |items|
    ensures r.Some? ==> from <= r.value < |items| && p(items[r.value])
    ensures r.Some? ==> forall j :: from <= j < r.value ==> !p(items[j])
    ensures r.None? ==> forall j :: from <= j < |items| ==> !p(items[j])
    decreases |items| - from
  {
    if from == |items| then None
    else if p(items[from]) then Some(from)
    else FirstMatch(items, p, from + 1)
  }

  /** The position of the track to download: the first manual Japanese
      track, else the first automatic Japanese track, else the first track. */
  function SelectTrack(items: seq<Track>): (k: nat)
    requires |items| > 0
    ensures k < |items|
    ensures (exists j :: 0 <= j < |items| && IsManualJapanese(items[j])) ==>
      IsManualJapanese(items[k]) && forall j :: 0 <= j < k ==> !IsManualJapanese(items[j])
    ensures ((forall j :: 0 <= j < |items| ==> !IsManualJapanese(items[j]))
             && (exists j :: 0 <= j < |items| && IsAsrJapanese(items[j]))) ==>
      IsAsrJapanese(items[k]) && forall j :: 0 <= j < k ==> !IsAsrJapanese(items[j])
    ensures (forall j :: 0 <= j < |items| ==> !IsManualJapanese(items[j]) && !IsAsrJapanese(items[j])) ==>
      k == 0
  {
    match FirstMatch(items, IsManualJapanese, 0)
    case Some(k) => k
    case None =>
      match FirstMatch(items, IsAsrJapanese, 0)
      case Some(k) => k
      case None => 0
  }
}
