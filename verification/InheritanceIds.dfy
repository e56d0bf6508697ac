/**
 The ids of inheriting datasources, `descendant::ancestor`
 (`DatasourceInheritanceHelper.isInheriting`, `getDescendantId` and `getAncestorId`).
 */
module InheritanceIds {
  import opened Options
  import opened JavaStrings

  const SEPARATOR := "::"

  predicate IsInheriting(id: string)
  {
    && CountMatches(id, SEPARATOR) == 1
    && !StartsWith(id, SEPARATOR)
    && !EndsWith(id, SEPARATOR)
  }

  function DescendantId(id: string): string
    requires IsInheriting(id)
  {
    SplitOnce(id, SEPARATOR);
    Split(id, SEPARATOR)[0]
  }

  function AncestorId(id: string): string
    requires IsInheriting(id)
  {
    SplitOnce(id, SEPARATOR);
    Split(id, SEPARATOR)[1]
  }

  lemma FreeIsNotInheriting(id: string)
    requires !Contains(id, SEPARATOR)
    ensures !IsInheriting(id)
  {
    NotContainedHasNoIndex(id, SEPARATOR);
  }

  /**
   Every accepted id falls into two non-empty parts without a separator that rejoin to the id.
   The descendant's id is therefore never an inheriting id itself.
   */
  lemma InheritingIdSplits(id: string)
    requires IsInheriting(id)
    ensures DescendantId(id) != "" && !Contains(DescendantId(id), SEPARATOR)
    ensures AncestorId(id) != "" && !Contains(AncestorId(id), SEPARATOR)
    ensures DescendantId(id) + SEPARATOR + AncestorId(id) == id
    ensures !IsInheriting(DescendantId(id)) && !IsInheriting(AncestorId(id))
  {
    SplitOnce(id, SEPARATOR);
    PiecesAreFree(id, SEPARATOR, 0);
    JoinPieces(id, SEPARATOR, 0);
    FreeIsNotInheriting(DescendantId(id));
    FreeIsNotInheriting(AncestorId(id));
  }

  /**
   Exactly the ids `p::q` are accepted whose parts are non-empty, where `q` is free of
   separators and `p` stays free of them even with a colon behind it. The two parts are the ones
   `getDescendantId` and `getAncestorId` return: `a:::b` is `a` inheriting from `:b`, while
   `a:::`, which also ends with a separator, is not accepted.
   */
  lemma InheritingIffTwoParts(id: string, p: string, q: string)
    ensures IsInheriting(id) && DescendantId(id) == p && AncestorId(id) == q
       <==> && p != "" && q != "" && q != ":" && id == p + SEPARATOR + q
            && !Contains(p + ":", SEPARATOR) && !Contains(q, SEPARATOR)
  {
    if IsInheriting(id) && DescendantId(id) == p && AncestorId(id) == q {
      InheritingIdSplits(id);
      NoSeparatorAcross(id);
    }
    if && p != "" && q != "" && q != ":" && id == p + SEPARATOR + q
       && !Contains(p + ":", SEPARATOR) && !Contains(q, SEPARATOR) {
      TwoPartsAreInheriting(id, p, q);
    }
  }

  /** The separator does not occur earlier than behind the descendant's id, not even by a colon. */
  lemma NoSeparatorAcross(id: string)
    requires IsInheriting(id)
    ensures !Contains(DescendantId(id) + ":", SEPARATOR) && AncestorId(id) != ":"
  {
    var i := IndexOf(id, SEPARATOR, 0).value;
    SplitOnce(id, SEPARATOR);
    IndexOfFirst(id, SEPARATOR, 0);
    ColonsAt(id, i);
    SliceIsFree(id, SEPARATOR, 0, i + 1);
    assert id[0..i + 1] == id[..i] + ":";
    if |id| == i + 3 {
      assert id[i + 2] == id[i + 2..][0];
      ColonsAt(id, i + 1);
    }
  }

  lemma ColonsAt(id: string, i: nat)
    requires i + 2 <= |id|
    ensures OccursAt(id, SEPARATOR, i) <==> id[i] == id[i + 1] == ':'
  {
    assert SEPARATOR[0] == SEPARATOR[1] == ':' && id[i + 0] == id[i];
  }

  lemma TwoPartsAreInheriting(id: string, p: string, q: string)
    requires p != "" && q != "" && q != ":" && id == p + SEPARATOR + q
    requires !Contains(p + ":", SEPARATOR) && !Contains(q, SEPARATOR)
    ensures IsInheriting(id) && DescendantId(id) == p && AncestorId(id) == q
  {
    var n := |p|;
    SeparatorBehind(id, p, q);
    NoneInRest(id, p, q);
    assert CountMatches(id, SEPARATOR) == 1 + CountMatches(id, SEPARATOR, n + 2);
    SplitOnce(id, SEPARATOR);
    assert id[..n] == p && id[n + 2..] == q;
  }

  lemma SeparatorBehind(id: string, p: string, q: string)
    requires p != "" && id == p + SEPARATOR + q && !Contains(p + ":", SEPARATOR)
    ensures IndexOf(id, SEPARATOR, 0) == Some(|p|) && !StartsWith(id, SEPARATOR)
  {
    var n := |p|;
    assert id[0..n + 1] == p + ":" && OccursAt(id, SEPARATOR, n);
    forall i | 0 <= i < n
      ensures !OccursAt(id, SEPARATOR, i)
    {
      OccursInSlice(id, SEPARATOR, 0, n + 1, i);
    }
    FirstMatch(id, SEPARATOR, 0, n);
  }

  lemma NoneInRest(id: string, p: string, q: string)
    requires q != "" && q != ":" && id == p + SEPARATOR + q && !Contains(q, SEPARATOR)
    ensures IndexOf(id, SEPARATOR, |p| + 2).None? && !EndsWith(id, SEPARATOR)
  {
    var n := |p|;
    assert id[n + 2..|id|] == q;
    forall i | n + 2 <= i
      ensures !OccursAt(id, SEPARATOR, i)
    {
      if i + 2 <= |id| {
        OccursInSlice(id, SEPARATOR, n + 2, |id|, i - n - 2);
      }
    }
    IndexOfFirst(id, SEPARATOR, n + 2);
    NoSeparatorAtEnd(id, n, q);
  }

  lemma NoSeparatorAtEnd(id: string, n: nat, q: string)
    requires n + 2 <= |id| && id[n + 2..] == q != "" && q != ":"
    requires forall i :: n + 2 <= i ==> !OccursAt(id, SEPARATOR, i)
    ensures !EndsWith(id, SEPARATOR)
  {
    if |q| == 1 {
      assert id[n + 2] == q[0] && q == [q[0]];
      ColonsAt(id, n + 1);
    }
  }
}
