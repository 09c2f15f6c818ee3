/** The string helpers of yanconv.cpp: `stringSplit`, which cuts a string at
    every occurrence of a one-character delimiter, and `can_parse`, which
    says which file extensions the image class reads. */
module Text {

  /** `std::string::find` for a one-character delimiter: the index of the
      first `d` in `s`, or -1 (`npos` stored in an `int`) when there is
      none. */
  function Find(s: string, d: char): (k: int)
    ensures -1 <= k < |s|
  {
    if s == [] then -1
    else if s[0] == d then 0
    else
      var k := Find(s[1..], d);
      if k == -1 then -1 else k + 1
  }

  /** `s` holds no occurrence of the delimiter. */
  predicate Clean(s: string, d: char) {
    forall j :: 0 <= j < |s| ==> s[j] != d
  }

  /** `Find` gives the first occurrence, or -1 when there is none. */
  lemma {:induction false} FindIsFirst(s: string, d: char)
    ensures var k := Find(s, d);
      (k >= 0 ==> s[k] == d && forall j :: 0 <= j < k ==> s[j] != d) &&
      (k == -1 ==> Clean(s, d))
    decreases |s|
  {
    if s != [] && s[0] != d {
      FindIsFirst(s[1..], d);
      assert forall j :: 1 <= j < |s| ==> s[j] == s[1..][j - 1];
    }
  }

  /** The pieces `stringSplit` returns: the text before the first
      delimiter, then the pieces of the text after it; a string without a
      delimiter is its own single piece. */
  function Split(s: string, d: char): (parts: seq<string>)
    ensures |parts| >= 1
    decreases |s|
  {
    var k := Find(s, d);
    if k == -1 then [s] else [s[..k]] + Split(s[k + 1..], d)
  }

  /** `stringSplit(splitStr, delim)` with a one-character delimiter: the
      loop pushes the text before each delimiter and keeps the text after
      it, then pushes what is left. */
  method StringSplit(s: string, d: char) returns (parts: seq<string>)
    ensures parts == Split(s, d)
  {
    parts := [];
    var splitStr := s;
    var currDelimPos := Find(splitStr, d);
    while currDelimPos != -1
      invariant currDelimPos == Find(splitStr, d)
      invariant parts + Split(splitStr, d) == Split(s, d)
      decreases |splitStr|
    {
      assert Split(splitStr, d) == [splitStr[..currDelimPos]] + Split(splitStr[currDelimPos + 1..], d);
      parts := parts + [splitStr[..currDelimPos]];
      splitStr := splitStr[currDelimPos + 1..];
      currDelimPos := Find(splitStr, d);
    }
    parts := parts + [splitStr];
  }

  /** The pieces put back together with the delimiter between them. */
  function Join(parts: seq<string>, d: char): string
    requires |parts| >= 1
  {
    if |parts| == 1 then parts[0] else parts[0] + [d] + Join(parts[1..], d)
  }

  /** The number of occurrences of `d` in `s`. */
  function Occurrences(s: string, d: char): nat {
    if s == [] then 0 else (if s[0] == d then 1 else 0) + Occurrences(s[1..], d)
  }

  /** Splitting loses nothing: joining the pieces gives the string back. */
  lemma {:induction false} JoinSplit(s: string, d: char)
    ensures Join(Split(s, d), d) == s
    decreases |s|
  {
    var k := Find(s, d);
    if k != -1 {
      FindIsFirst(s, d);
      JoinSplit(s[k + 1..], d);
      assert s == s[..k] + [d] + s[k + 1..];
    }
  }

  /** No piece contains the delimiter. */
  lemma {:induction false} PiecesAreClean(s: string, d: char)
    ensures forall m :: 0 <= m < |Split(s, d)| ==> Clean(Split(s, d)[m], d)
    decreases |s|
  {
    var k := Find(s, d);
    FindIsFirst(s, d);
    if k != -1 {
      PiecesAreClean(s[k + 1..], d);
    }
  }

  /** Occurrences add up over a concatenation. */
  lemma {:induction false} OccurrencesAppend(a: string, b: string, d: char)
    ensures Occurrences(a + b, d) == Occurrences(a, d) + Occurrences(b, d)
    decreases |a|
  {
    if a == [] {
      assert a + b == b;
    } else {
      assert (a + b)[1..] == a[1..] + b;
      OccurrencesAppend(a[1..], b, d);
    }
  }

  /** A string without the delimiter has no occurrence of it. */
  lemma {:induction false} NoOccurrences(s: string, d: char)
    requires Clean(s, d)
    ensures Occurrences(s, d) == 0
    decreases |s|
  {
    if s != [] {
      NoOccurrences(s[1..], d);
    }
  }

  /** There is one piece more than there are delimiters. */
  lemma {:induction false} PieceCount(s: string, d: char)
    ensures |Split(s, d)| == Occurrences(s, d) + 1
    decreases |s|
  {
    var k := Find(s, d);
    FindIsFirst(s, d);
    if k == -1 {
      NoOccurrences(s, d);
    } else {
      PieceCount(s[k + 1..], d);
      assert s == s[..k] + ([d] + s[k + 1..]);
      OccurrencesAppend(s[..k], [d] + s[k + 1..], d);
      OccurrencesAppend([d], s[k + 1..], d);
      NoOccurrences(s[..k], d);
      assert Occurrences([d], d) == 1 by {
        assert [d][1..] == [];
      }
    }
  }

  /** Where `s` holds no delimiter, the delimiter itself is found right
      after it. */
  lemma {:induction false} FindAfterClean(s: string, t: string, d: char)
    requires Clean(s, d)
    ensures Find(s + [d] + t, d) == |s|
    decreases |s|
  {
    if s != [] {
      assert (s + [d] + t)[1..] == s[1..] + [d] + t;
      FindAfterClean(s[1..], t, d);
    }
  }

  /** Splitting inverts joining pieces that hold no delimiter. */
  lemma {:induction false} SplitJoin(parts: seq<string>, d: char)
    requires |parts| >= 1
    requires forall m :: 0 <= m < |parts| ==> Clean(parts[m], d)
    ensures Split(Join(parts, d), d) == parts
    decreases |parts|
  {
    if |parts| == 1 {
      SplitClean(parts[0], d);
    } else {
      var rest := parts[1..];
      forall m | 0 <= m < |rest|
        ensures Clean(rest[m], d)
      {
        assert rest[m] == parts[m + 1];
      }
      SplitJoin(rest, d);
      SplitJoinStep(parts[0], rest, d);
      assert parts == [parts[0]] + rest;
    }
  }

  /** A string without the delimiter is split into itself alone. */
  lemma SplitClean(s: string, d: char)
    requires Clean(s, d)
    ensures Split(s, d) == [s]
  {
    FindIsFirst(s, d);
  }

  /** One step of `SplitJoin`: a clean first piece is split off first. */
  lemma SplitJoinStep(first: string, rest: seq<string>, d: char)
    requires |rest| >= 1 && Clean(first, d)
    ensures Split(Join([first] + rest, d), d) == [first] + Split(Join(rest, d), d)
  {
    var tail := Join(rest, d);
    assert ([first] + rest)[1..] == rest;
    FindAfterClean(first, tail, d);
    var s := first + [d] + tail;
    assert s[..|first|] == first;
    assert s[|first| + 1..] == tail;
  }

  // ---------------------------------------------------------------------
  // Extensions
  // ---------------------------------------------------------------------

  /** The extensions (with their dot) that `read` dispatches on: PNG and
      PGM. */
  predicate ReadDispatches(ext: string) {
    ext == ".png" || ext == ".pgm"
  }

  /** `can_parse`: the extension names PNG or PGM, with or without the
      leading dot. */
  predicate CanParse(ext: string) {
    ext == "png" || ext == ".png" || ext == "pgm" || ext == ".pgm"
  }

  /** `can_parse` accepts exactly the extensions that `read` handles, given
      with or without their dot. */
  lemma {:induction false} CanParseMatchesRead(ext: string)
    ensures CanParse(ext) <==> ReadDispatches(ext) || ReadDispatches(['.'] + ext)
  {
    if ReadDispatches(['.'] + ext) {
      assert ext == (['.'] + ext)[1..];
    }
  }
}
