/** Small facts about taking sequences apart, kept away from larger proofs. */
module Seqs {
  lemma Unsnoc<T>(s: seq<T>) returns (init: seq<T>, last: T)
    requires s != []
    ensures init == s[..|s| - 1] && last == s[|s| - 1] && s == init + [last]
  {
    init, last := s[..|s| - 1], s[|s| - 1];
  }

  lemma Uncons<T>(s: seq<T>) returns (first: T, tail: seq<T>)
    requires s != []
    ensures first == s[0] && tail == s[1..] && s == [first] + tail
  {
    first, tail := s[0], s[1..];
  }

  lemma Snoc<T>(s: seq<T>, last: T)
    ensures (s + [last])[..|s|] == s && (s + [last])[|s|] == last && |s + [last]| == |s| + 1
  {
  }

  lemma ConsConcat<T>(s: seq<T>, t: seq<T>)
    requires s != []
    ensures (s + t)[0] == s[0] && (s + t)[1..] == s[1..] + t && s + t != []
  {
  }

  lemma ConcatSnoc<T>(s: seq<T>, t: seq<T>)
    requires t != []
    ensures var n := |s + t| - 1;
            n >= 0 && (s + t)[..n] == s + t[..|t| - 1] && (s + t)[n] == t[|t| - 1] && s + t != []
  {
  }

  lemma SplitAt<T>(s: seq<T>, p: nat, y: T)
    requires p < |s|
    ensures s == s[..p] + [s[p]] + s[p + 1..]
    ensures s[p := y] == s[..p] + [y] + s[p + 1..]
  {
  }

  lemma TakeOne<T>(s: seq<T>, i: nat)
    requires i < |s|
    ensures s[..i + 1] == s[..i] + [s[i]] && s[i..] == [s[i]] + s[i + 1..]
  {
  }

  lemma TakeAll<T>(s: seq<T>)
    ensures s[..|s|] == s && s[0..] == s
  {
  }

  lemma CutAt<T>(s: seq<T>, p: nat)
    requires p <= |s|
    ensures s == s[..p] + s[p..]
  {
  }

  lemma CutBehind<T>(s: seq<T>, i: nat, j: nat)
    requires i <= j <= |s|
    ensures s[i..] == s[i..j] + s[j..]
  {
  }

  lemma SliceOfSlice<T>(s: seq<T>, i: nat, end: nat, a: nat, b: nat)
    requires i <= end <= |s| && a <= b <= end - i
    ensures s[i..end][a..b] == s[i + a..i + b]
  {
    var cut := s[i..end];
    assert forall k :: 0 <= k < b - a ==> cut[a..b][k] == cut[a + k] == s[i + a + k];
  }

  lemma Empty<T>(s: seq<T>)
    ensures s + [] == s && [] + s == s
  {
  }

  lemma Assoc<T>(a: seq<T>, b: seq<T>, c: seq<T>)
    ensures (a + b) + c == a + (b + c)
  {
  }

  lemma TakeCons<T>(s: seq<T>, p: nat)
    requires 0 < p <= |s|
    ensures s[..p] == [s[0]] + s[1..][..p - 1]
  {
  }

  /** Removing an element and adding another one at its index replaces it. */
  lemma RemoveThenAdd<T>(s: seq<T>, i: nat, y: T)
    requires i < |s|
    ensures var others := s[..i] + s[i + 1..];
            others[..i] + [y] + others[i..] == s[i := y]
  {
  }

  lemma UpdateConcat<T>(s: seq<T>, t: seq<T>, i: nat, y: T)
    requires i < |s| + |t|
    ensures (s + t)[i := y] == if i < |s| then s[i := y] + t else s + t[i - |s| := y]
  {
  }

  lemma InsertBetween<T>(s: seq<T>, y: T, t: seq<T>)
    ensures (s + t)[..|s|] + [y] + (s + t)[|s|..] == (s + [y]) + t
  {
  }

  lemma UpdateMiddle<T>(s: seq<T>, x: T, t: seq<T>, y: T)
    ensures (s + [x] + t)[|s| := y] == s + [y] + t
  {
  }
}
