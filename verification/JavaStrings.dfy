/**
 The parts of `java.lang.String` and of commons-lang's `StringUtils` the modelled code relies on:
 searching a separator, counting its matches, splitting at it and testing for blank text.
 */
module JavaStrings {
  import opened Options

  /** `sep` occurs in `s` at offset `i`. */
  predicate OccursAt(s: string, sep: string, i: int)
  {
    0 <= i && i + |sep| <= |s| && forall k :: 0 <= k < |sep| ==> s[i + k] == sep[k]
  }

  predicate Contains(s: string, sep: string)
  {
    exists i :: 0 <= i <= |s| && OccursAt(s, sep, i)
  }

  predicate StartsWith(s: string, prefix: string)
  {
    OccursAt(s, prefix, 0)
  }

  predicate EndsWith(s: string, suffix: string)
  {
    OccursAt(s, suffix, |s| - |suffix|)
  }

  lemma OccursIsSlice(s: string, sep: string, i: int)
    ensures OccursAt(s, sep, i) <==> 0 <= i && i + |sep| <= |s| && s[i..i + |sep|] == sep
  {
    if 0 <= i && i + |sep| <= |s| {
      var cut := s[i..i + |sep|];
      assert forall k :: 0 <= k < |sep| ==> (cut[k] == sep[k] <==> s[i + k] == sep[k]);
      assert cut == sep <==> forall k :: 0 <= k < |sep| ==> cut[k] == sep[k];
    }
  }

  lemma StartsWithIff(s: string, prefix: string)
    ensures StartsWith(s, prefix) <==> prefix <= s
  {
    OccursIsSlice(s, prefix, 0);
  }

  lemma EndsWithIff(s: string, suffix: string)
    ensures EndsWith(s, suffix) <==> |suffix| <= |s| && s[|s| - |suffix|..] == suffix
  {
    OccursIsSlice(s, suffix, |s| - |suffix|);
  }

  /** `s.indexOf(sep, from)`, with `None` for -1. */
  function IndexOf(s: string, sep: string, from: nat): (r: Option<nat>)
    requires from <= |s|
    ensures r.Some? ==> from <= r.value && r.value + |sep| <= |s|
    decreases |s| - from
  {
    if OccursAt(s, sep, from) then Some(from)
    else if from == |s| then None
    else IndexOf(s, sep, from + 1)
  }

  /** The index is that of the first occurrence. */
  lemma {:induction false} IndexOfFirst(s: string, sep: string, from: nat)
    requires from <= |s|
    ensures var r := IndexOf(s, sep, from);
            && (r.None? ==> forall i :: from <= i ==> !OccursAt(s, sep, i))
            && (r.Some? ==> OccursAt(s, sep, r.value) && forall i :: from <= i < r.value ==> !OccursAt(s, sep, i))
    decreases |s| - from
  {
    if !OccursAt(s, sep, from) && from < |s| {
      IndexOfFirst(s, sep, from + 1);
    }
  }

  /** `StringUtils.countMatches`: matches are counted left to right and do not overlap. */
  function CountMatches(s: string, sep: string, from: nat := 0): nat
    requires |sep| > 0 && from <= |s|
    decreases |s| - from
  {
    match IndexOf(s, sep, from)
    case None => 0
    case Some(i) => 1 + CountMatches(s, sep, i + |sep|)
  }

  /** The pieces between the non-overlapping matches of `sep`, from offset `from` on. */
  function Pieces(s: string, sep: string, from: nat := 0): (r: seq<string>)
    requires |sep| > 0 && from <= |s|
    ensures r != []
    decreases |s| - from
  {
    match IndexOf(s, sep, from)
    case None => [s[from..]]
    case Some(i) => [s[from..i]] + Pieces(s, sep, i + |sep|)
  }

  function DropTrailingEmpty(parts: seq<string>): seq<string>
  {
    if |parts| > 0 && parts[|parts| - 1] == "" then DropTrailingEmpty(parts[..|parts| - 1]) else parts
  }

  /**
   `s.split(sep)`: the pieces without the empty ones at the end, except that a string
   without any match is returned whole, even if it is empty.
   */
  function Split(s: string, sep: string): seq<string>
    requires |sep| > 0
  {
    if IndexOf(s, sep, 0).None? then [s] else DropTrailingEmpty(Pieces(s, sep))
  }

  /** The parts with `sep` between them. */
  function Join(parts: seq<string>, sep: string): string
  {
    if parts == [] then ""
    else if |parts| == 1 then parts[0]
    else parts[0] + sep + Join(parts[1..], sep)
  }

  /** `Character.isWhitespace`. */
  predicate IsWhitespace(c: char)
  {
    var n := c as int;
    || 0x09 <= n <= 0x0D || 0x1C <= n <= 0x20 || n == 0x1680
    || 0x2000 <= n <= 0x2006 || 0x2008 <= n <= 0x200A
    || n == 0x2028 || n == 0x2029 || n == 0x205F || n == 0x3000
  }

  /**
   The characters Java counts as white space: the control characters for tabs, lines and separators, and the space, line
   and paragraph separators of Unicode but the three that forbid a line break.
   */
  const WHITESPACE: set<char> :=
    {'\t', '\n', '\U{000B}', '\U{000C}', '\r', '\U{001C}', '\U{001D}', '\U{001E}', '\U{001F}', ' ', '\U{1680}',
     '\U{2000}', '\U{2001}', '\U{2002}', '\U{2003}', '\U{2004}', '\U{2005}', '\U{2006}', '\U{2008}', '\U{2009}',
     '\U{200A}', '\U{2028}', '\U{2029}', '\U{205F}', '\U{3000}'}

  /** There is a text with something to see in it. */
  ghost predicate HasText(s: Option<string>)
  {
    s.Some? && exists c :: c in s.value && c !in WHITESPACE
  }

  lemma WhitespaceIs(c: char)
    ensures IsWhitespace(c) <==> c in WHITESPACE
  {
  }

  lemma BlankHasNoText(s: Option<string>)
    ensures IsBlank(s) <==> !HasText(s)
  {
    if s.Some? {
      forall c
        ensures IsWhitespace(c) <==> c in WHITESPACE
      {
        WhitespaceIs(c);
      }
      assert forall i :: 0 <= i < |s.value| ==> s.value[i] in s.value;
    }
  }

  /** `StringUtils.isBlank`; the absent string is blank. */
  predicate IsBlank(s: Option<string>)
  {
    s.None? || forall i :: 0 <= i < |s.value| ==> IsWhitespace(s.value[i])
  }

  /** `StringUtils.isEmpty`; the absent string is empty. */
  predicate IsEmpty(s: Option<string>)
  {
    s.None? || s.value == ""
  }

  /** The first piece ends where the separator is found. */
  lemma NextPiece(s: string, sep: string, from: nat, i: nat)
    requires |sep| > 0 && from <= |s| && IndexOf(s, sep, from) == Some(i)
    ensures Pieces(s, sep, from) == [s[from..i]] + Pieces(s, sep, i + |sep|)
  {
  }

  /** Joining the pieces gives back the text they were cut from. */
  lemma {:induction false} JoinPieces(s: string, sep: string, from: nat)
    requires |sep| > 0 && from <= |s|
    ensures Join(Pieces(s, sep, from), sep) == s[from..]
    decreases |s| - from
  {
    match IndexOf(s, sep, from)
    case None => JoinLast(s, sep, from);
    case Some(i) =>
      JoinPieces(s, sep, i + |sep|);
      JoinNext(s, sep, from, i);
  }

  lemma JoinLast(s: string, sep: string, from: nat)
    requires |sep| > 0 && from <= |s| && IndexOf(s, sep, from).None?
    ensures Join(Pieces(s, sep, from), sep) == s[from..]
  {
  }

  lemma JoinNext(s: string, sep: string, from: nat, i: nat)
    requires |sep| > 0 && from <= |s| && IndexOf(s, sep, from) == Some(i)
    requires Join(Pieces(s, sep, i + |sep|), sep) == s[i + |sep|..]
    ensures Join(Pieces(s, sep, from), sep) == s[from..]
  {
    NextPiece(s, sep, from, i);
    CutAtFirst(s, sep, from, i);
    Rejoined(s[from..i], Pieces(s, sep, i + |sep|), sep, s[i + |sep|..]);
  }

  lemma Rejoined(first: string, rest: seq<string>, sep: string, text: string)
    requires rest != [] && Join(rest, sep) == text
    ensures Join([first] + rest, sep) == first + sep + text
  {
    assert ([first] + rest)[1..] == rest;
  }

  lemma CutAtFirst(s: string, sep: string, from: nat, i: nat)
    requires from <= |s| && IndexOf(s, sep, from) == Some(i)
    ensures s[from..] == s[from..i] + sep + s[i + |sep|..]
  {
    IndexOfFirst(s, sep, from);
    CutAround(s, sep, from, i);
  }

  lemma CutAround(s: string, sep: string, from: nat, i: nat)
    requires from <= i && OccursAt(s, sep, i)
    ensures s[from..] == s[from..i] + sep + s[i + |sep|..]
  {
  }

  /** No piece contains the separator. */
  lemma {:induction false} PiecesAreFree(s: string, sep: string, from: nat)
    requires |sep| > 0 && from <= |s|
    ensures forall p :: p in Pieces(s, sep, from) ==> !Contains(p, sep)
    decreases |s| - from
  {
    match IndexOf(s, sep, from)
    case None => LastIsFree(s, sep, from);
    case Some(i) =>
      FirstIsFree(s, sep, from, i);
      NextPiece(s, sep, from, i);
      PiecesAreFree(s, sep, i + |sep|);
  }

  lemma LastIsFree(s: string, sep: string, from: nat)
    requires |sep| > 0 && from <= |s| && IndexOf(s, sep, from).None?
    ensures !Contains(s[from..], sep)
  {
    IndexOfFirst(s, sep, from);
    SliceIsFree(s, sep, from, |s|);
    assert s[from..|s|] == s[from..];
  }

  lemma FirstIsFree(s: string, sep: string, from: nat, i: nat)
    requires |sep| > 0 && from <= |s| && IndexOf(s, sep, from) == Some(i)
    ensures !Contains(s[from..i], sep)
  {
    IndexOfFirst(s, sep, from);
    SliceIsFree(s, sep, from, i);
  }

  lemma SliceIsFree(s: string, sep: string, lo: nat, hi: nat)
    requires |sep| > 0 && lo <= hi <= |s|
    requires forall i :: lo <= i && i + |sep| <= hi ==> !OccursAt(s, sep, i)
    ensures !Contains(s[lo..hi], sep)
  {
    var piece := s[lo..hi];
    forall i | 0 <= i <= |piece|
      ensures !OccursAt(piece, sep, i)
    {
      if i + |sep| <= |piece| {
        OccursInSlice(s, sep, lo, hi, i);
      }
    }
  }

  lemma OccursInSlice(s: string, sep: string, lo: nat, hi: nat, i: nat)
    requires lo <= hi <= |s| && i + |sep| <= hi - lo
    ensures OccursAt(s[lo..hi], sep, i) <==> OccursAt(s, sep, lo + i)
  {
    assert forall k :: 0 <= k < |sep| ==> (s[lo..hi][i + k] == sep[k] <==> s[lo + i + k] == sep[k]);
  }

  /** A text with exactly one match, neither at its start nor at its end, splits into two parts. */
  lemma SplitOnce(s: string, sep: string)
    requires |sep| > 0 && CountMatches(s, sep) == 1 && !StartsWith(s, sep) && !EndsWith(s, sep)
    ensures var i := IndexOf(s, sep, 0);
            && i.Some? && 0 < i.value && i.value + |sep| < |s|
            && IndexOf(s, sep, i.value + |sep|).None?
            && Split(s, sep) == Pieces(s, sep) == [s[..i.value], s[i.value + |sep|..]]
  {
    var i := IndexOf(s, sep, 0).value;
    MatchInside(s, sep, i);
    OnlyMatch(s, sep, i);
    NothingDropped(s[..i], s[i + |sep|..]);
  }

  lemma MatchInside(s: string, sep: string, i: nat)
    requires IndexOf(s, sep, 0) == Some(i) && !StartsWith(s, sep) && !EndsWith(s, sep)
    ensures 0 < i && i + |sep| < |s|
  {
    IndexOfFirst(s, sep, 0);
    assert i + |sep| == |s| ==> i == |s| - |sep|;
  }

  lemma OnlyMatch(s: string, sep: string, i: nat)
    requires |sep| > 0 && IndexOf(s, sep, 0) == Some(i) && CountMatches(s, sep) == 1
    ensures IndexOf(s, sep, i + |sep|).None?
    ensures Pieces(s, sep) == [s[..i], s[i + |sep|..]]
  {
    NoneBehind(s, sep, i);
    LastPieceIsRest(s, sep, i + |sep|);
    NextPiece(s, sep, 0, i);
    TwoPieces(Pieces(s, sep), Pieces(s, sep, i + |sep|), s, i, i + |sep|);
  }

  lemma TwoPieces(parts: seq<string>, rest: seq<string>, s: string, i: nat, j: nat)
    requires i <= |s| && j <= |s| && parts == [s[0..i]] + rest && rest == [s[j..]]
    ensures parts == [s[..i], s[j..]]
  {
    TakeFromStart(s, i);
  }

  lemma NoneBehind(s: string, sep: string, i: nat)
    requires |sep| > 0 && IndexOf(s, sep, 0) == Some(i) && CountMatches(s, sep) == 1
    ensures CountMatches(s, sep, i + |sep|) == 0
  {
  }

  lemma TakeFromStart(s: string, i: nat)
    requires i <= |s|
    ensures s[0..i] == s[..i]
  {
  }

  lemma LastPieceIsRest(s: string, sep: string, from: nat)
    requires |sep| > 0 && from <= |s| && CountMatches(s, sep, from) == 0
    ensures IndexOf(s, sep, from).None? && Pieces(s, sep, from) == [s[from..]]
  {
  }

  lemma NothingDropped(first: string, last: string)
    requires last != ""
    ensures DropTrailingEmpty([first, last]) == [first, last]
  {
  }

  /** The first match after `from` is where the text is first cut. */
  lemma FirstMatch(s: string, sep: string, from: nat, i: nat)
    requires from <= i <= |s| && OccursAt(s, sep, i)
    requires forall j :: from <= j < i ==> !OccursAt(s, sep, j)
    ensures IndexOf(s, sep, from) == Some(i)
  {
    IndexOfFirst(s, sep, from);
  }

  lemma OccursAtChar(s: string, sep: string, i: nat)
    requires |sep| == 1 && i < |s|
    ensures OccursAt(s, sep, i) <==> s[i] == sep[0]
  {
    assert s[i + 0] == s[i];
  }

  lemma NotContainedHasNoIndex(s: string, sep: string)
    requires |sep| > 0 && !Contains(s, sep)
    ensures IndexOf(s, sep, 0).None?
  {
    IndexOfFirst(s, sep, 0);
  }
}
