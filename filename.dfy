/** `clean_filename` and the name under which a transcript is stored. */
module Filename {

  /** The characters `clean_filename` replaces: backslash, slash, colon,
      asterisk, question mark, double quote, less-than, greater-than, pipe. */
  const Reserved: set<char> := {'\\', '/', ':', '*', '?', '\"', '<', '>', '|'}

  /** What every reserved character becomes. */
  const Replacement: char := '-'

  /** Suffix appended to every stored file name. */
  const Extension: string := ".txt"

  function CleanChar(c: char): char
  {
    if c in Reserved then Replacement else c
  }

  /** `re.sub(r'[\\/:*?"<>|]', '-', text)`: one character at a time. */
  function CleanFilename(text: string): string
    decreases |text|
  {
    if text == [] then [] else [CleanChar(text[0])] + CleanFilename(text[1..])
  }

  /** The stored name `clean_filename(f"{date}_{title}") + ".txt"`. */
  function StoredFileName(date: string, title: string): string
  {
    CleanFilename(date + "_" + title) + Extension
  }

  /** Position by position: a reserved character becomes `-`, every other
      character is kept; the length does not change. */
  lemma {:induction false} CleanFilenameAt(text: string)
    ensures |CleanFilename(text)| == |text|
    ensures forall i :: 0 <= i < |text| ==>
      CleanFilename(text)[i] == (if text[i] in Reserved then Replacement else text[i])
    decreases |text|
  {
    if text != [] {
      CleanFilenameAt(text[1..]);
      var r := CleanFilename(text);
      assert r == [CleanChar(text[0])] + CleanFilename(text[1..]);
      forall i | 1 <= i < |text| ensures r[i] == CleanChar(text[i]) {
        assert r[i] == CleanFilename(text[1..])[i - 1];
        assert text[1..][i - 1] == text[i];
      }
    }
  }

  /** The cleaned name holds none of the reserved characters. */
  lemma CleanFilenameSafe(text: string)
    ensures forall i :: 0 <= i < |CleanFilename(text)| ==> CleanFilename(text)[i] !in Reserved
  {
    CleanFilenameAt(text);
  }

  /** Cleaning leaves an already clean text alone... */
  lemma CleanFilenameFixesClean(text: string)
    requires forall i :: 0 <= i < |text| ==> text[i] !in Reserved
    ensures CleanFilename(text) == text
  {
    CleanFilenameAt(text);
  }

  /** ...so cleaning twice is cleaning once. */
  lemma CleanFilenameIdempotent(text: string)
    ensures CleanFilename(CleanFilename(text)) == CleanFilename(text)
  {
    CleanFilenameSafe(text);
    CleanFilenameFixesClean(CleanFilename(text));
  }

  /** Cleaning works character by character, so it distributes over `+`. */
  lemma CleanFilenameAppend(a: string, b: string)
    ensures CleanFilename(a + b) == CleanFilename(a) + CleanFilename(b)
  {
    CleanFilenameAt(a);
    CleanFilenameAt(b);
    CleanFilenameAt(a + b);
    var l, r := CleanFilename(a + b), CleanFilename(a) + CleanFilename(b);
    forall i | 0 <= i < |l| ensures l[i] == r[i] {
      if i < |a| {
        assert (a + b)[i] == a[i];
      } else {
        assert (a + b)[i] == b[i - |a|];
      }
    }
  }

  /** The stored name is the cleaned date, `_`, the cleaned title and
      `.txt`. */
  lemma StoredFileNameParts(date: string, title: string)
    ensures StoredFileName(date, title)
         == CleanFilename(date) + "_" + CleanFilename(title) + Extension
  {
    CleanFilenameAppend(date, "_" + title);
    CleanFilenameAppend("_", title);
    assert CleanFilename("_") == "_" by { CleanFilenameFixesClean("_"); }
    assert date + "_" + title == date + ("_" + title);
  }

  /** The stored name is five characters longer than date and title
      together, holds no reserved character, and cleaning it again changes
      nothing. */
  lemma StoredFileNameSafe(date: string, title: string)
    ensures |StoredFileName(date, title)| == |date| + |title| + 5
    ensures forall i :: 0 <= i < |StoredFileName(date, title)| ==>
      StoredFileName(date, title)[i] !in Reserved
    ensures CleanFilename(StoredFileName(date, title)) == StoredFileName(date, title)
  {
    var name := StoredFileName(date, title);
    var cleaned := CleanFilename(date + "_" + title);
    CleanFilenameAt(date + "_" + title);
    CleanFilenameSafe(date + "_" + title);
    forall i | 0 <= i < |name| ensures name[i] !in Reserved {
      if i >= |cleaned| {
        assert name[i] == Extension[i - |cleaned|];
      } else {
        assert name[i] == cleaned[i];
      }
    }
    CleanFilenameFixesClean(name);
  }
}
