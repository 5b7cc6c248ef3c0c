/** String primitives used by the archiver: substring search (Python's `in`)
    and Python's `str.split` with a non-empty separator. */
module Text {

  /** `sep` occurs in `s` starting at position `i`. */
  predicate OccursAt(s: string, sep: string, i: nat)
  {
    i + |sep| <= |s| && s[i..i + |sep|] == sep
  }

  /** Python's `sep in s`. */
  predicate Contains(s: string, sep: string)
  {
    exists i | 0 <= i <= |s| :: OccursAt(s, sep, i)
  }

  /** Python's `s.split(sep)`: scan left to right, cut at every
      non-overlapping occurrence of `sep`. */
  function Split(s: string, sep: string): (pieces: seq<string>)
    requires sep != []
    ensures |pieces| >= 1
    decreases |s|
  {
    if |s| < |sep| then [s]
    else if s[..|sep|] == sep then [""] + Split(s[|sep|..], sep)
    else
      var rest := Split(s[1..], sep);
      [[s[0]] + rest[0]] + rest[1..]
  }

  /** Python's `sep.join(pieces)`. */
  function Join(pieces: seq<string>, sep: string): string
    decreases |pieces|
  {
    if |pieces| == 0 then ""
    else if |pieces| == 1 then pieces[0]
    else pieces[0] + sep + Join(pieces[1..], sep)
  }

  function Last<T>(s: seq<T>): T
    requires |s| > 0
  {
    s[|s| - 1]
  }

  lemma JoinPrependChar(c: char, pieces: seq<string>, sep: string)
    requires |pieces| >= 1
    ensures Join([[c] + pieces[0]] + pieces[1..], sep) == [c] + Join(pieces, sep)
  {
    var q := [[c] + pieces[0]] + pieces[1..];
    assert q[1..] == pieces[1..];
  }

  /** Joining the pieces of a split gives back the original string. */
  lemma {:induction false} SplitJoin(s: string, sep: string)
    requires sep != []
    ensures Join(Split(s, sep), sep) == s
    decreases |s|
  {
    if |s| < |sep| {
    } else if s[..|sep|] == sep {
      SplitJoin(s[|sep|..], sep);
      var rest := Split(s[|sep|..], sep);
      assert ([""] + rest)[1..] == rest;
      assert "" + sep + s[|sep|..] == s;
    } else {
      SplitJoin(s[1..], sep);
      var rest := Split(s[1..], sep);
      JoinPrependChar(s[0], rest, sep);
      assert [s[0]] + s[1..] == s;
    }
  }

  /** The first element of a non-empty join is a prefix of the join. */
  lemma JoinStartsWithFirst(pieces: seq<string>, sep: string)
    requires |pieces| >= 1
    ensures |pieces[0]| <= |Join(pieces, sep)|
    ensures Join(pieces, sep)[..|pieces[0]|] == pieces[0]
  {
    if |pieces| > 1 {
      var j := Join(pieces, sep);
      assert j == pieces[0] + (sep + Join(pieces[1..], sep));
    }
  }

  /** A prefix of `s` that is one character followed by a `sep`-free string
      contains `sep` only if `s` starts with it. */
  lemma NoOccurrenceConsChar(c: char, t: string, s: string, sep: string)
    requires sep != []
    requires |t| + 1 <= |s| && [c] + t == s[..|t| + 1]
    requires !OccursAt(s, sep, 0)
    requires !Contains(t, sep)
    ensures !Contains([c] + t, sep)
  {
    var u := [c] + t;
    forall i | 0 <= i <= |u| ensures !OccursAt(u, sep, i) {
      if i == 0 {
        assert |sep| <= |u| ==> s[..|sep|] == u[..|sep|];
      } else {
        assert i + |sep| <= |u| ==> u[i..i + |sep|] == t[i - 1..i - 1 + |sep|];
        assert !OccursAt(t, sep, i - 1);
      }
    }
  }

  /** No piece of a split contains the separator. */
  lemma {:induction false} SplitPiecesSeparatorFree(s: string, sep: string)
    requires sep != []
    ensures forall k :: 0 <= k < |Split(s, sep)| ==> !Contains(Split(s, sep)[k], sep)
    decreases |s|
  {
    var pieces := Split(s, sep);
    if |s| < |sep| {
      forall i | 0 <= i <= |s| ensures !OccursAt(s, sep, i) { }
    } else if s[..|sep|] == sep {
      SplitPiecesSeparatorFree(s[|sep|..], sep);
      var rest := Split(s[|sep|..], sep);
      assert pieces == [""] + rest;
      forall k | 0 <= k < |pieces| ensures !Contains(pieces[k], sep) {
        if k == 0 {
          assert !OccursAt("", sep, 0);
        } else {
          assert pieces[k] == rest[k - 1];
        }
      }
    } else {
      SplitPiecesSeparatorFree(s[1..], sep);
      var rest := Split(s[1..], sep);
      assert pieces == [[s[0]] + rest[0]] + rest[1..];
      forall k | 0 <= k < |pieces| ensures !Contains(pieces[k], sep) {
        if k == 0 {
          SplitJoin(s[1..], sep);
          JoinStartsWithFirst(rest, sep);
          assert [s[0]] + rest[0] == s[..|rest[0]| + 1];
          assert !OccursAt(s, sep, 0);
          NoOccurrenceConsChar(s[0], rest[0], s, sep);
        } else {
          assert pieces[k] == rest[k];
        }
      }
    }
  }

  /** A join of two or more pieces splits at the first separator. */
  lemma JoinFirstCut(pieces: seq<string>, sep: string)
    requires |pieces| >= 2
    ensures Join(pieces, sep) == pieces[0] + sep + Join(pieces[1..], sep)
  {
  }

  /** A join of two or more pieces splits at the last separator. */
  lemma {:induction false} JoinLastCut(pieces: seq<string>, sep: string)
    requires |pieces| >= 2
    ensures Join(pieces, sep) == Join(pieces[..|pieces| - 1], sep) + sep + Last(pieces)
    decreases |pieces|
  {
    if |pieces| == 2 {
      assert pieces[..1] == [pieces[0]];
      assert pieces[1..] == [pieces[1]];
    } else {
      JoinLastCut(pieces[1..], sep);
      var init := pieces[..|pieces| - 1];
      assert init[1..] == pieces[1..][..|pieces| - 2];
      assert Last(pieces[1..]) == Last(pieces);
      assert Join(init, sep) == init[0] + sep + Join(init[1..], sep);
    }
  }

  /** The first piece of `s.split(sep)` is the text before the first
      occurrence of `sep`, or all of `s` when `sep` does not occur. */
  lemma SplitFirstPiece(s: string, sep: string)
    requires sep != []
    ensures var first := Split(s, sep)[0];
      && !Contains(first, sep)
      && ((first == s && !Contains(s, sep))
          || (|first| + |sep| <= |s| && s[..|first|] == first && OccursAt(s, sep, |first|)))
  {
    var pieces := Split(s, sep);
    SplitJoin(s, sep);
    SplitPiecesSeparatorFree(s, sep);
    if |pieces| >= 2 {
      JoinFirstCut(pieces, sep);
      var first := pieces[0];
      var tail := Join(pieces[1..], sep);
      assert s == first + sep + tail;
      assert s[..|first|] == first;
      assert s[|first|..|first| + |sep|] == sep;
    }
  }

  /** The last piece of `s.split(sep)` is the text after the occurrence of
      `sep` the split cut at last, or all of `s` when `sep` does not occur. */
  lemma SplitLastPiece(s: string, sep: string)
    requires sep != []
    ensures var last := Last(Split(s, sep));
      && !Contains(last, sep)
      && ((last == s && !Contains(s, sep))
          || (|last| + |sep| <= |s| && s[|s| - |last|..] == last
              && OccursAt(s, sep, |s| - |last| - |sep|)))
  {
    var pieces := Split(s, sep);
    SplitJoin(s, sep);
    SplitPiecesSeparatorFree(s, sep);
    assert !Contains(pieces[|pieces| - 1], sep);
    if |pieces| >= 2 {
      JoinLastCut(pieces, sep);
      var last := Last(pieces);
      var init := Join(pieces[..|pieces| - 1], sep);
      assert s == init + sep + last;
      assert s[|s| - |last|..] == last;
      assert s[|init|..|init| + |sep|] == sep;
    }
  }
}
