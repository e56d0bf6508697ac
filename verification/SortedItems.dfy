/**
 `DataContainer.doSort` told from the items: in which order the values of their properties stand in the result.
 */
module SortedItems {
  import opened Options
  import opened Seqs
  import opened StableSorting
  import opened ItemSorting

  /** The item has no value for the property. */
  predicate Misses(item: Item, property: string)
  {
    property !in item || item[property] == Null
  }

  /** The items that have a value for the property all have a number, all a text, or all something else. */
  ghost predicate OneKind(items: seq<Item>, property: string)
  {
    || (forall a: Item :: a in items ==> Misses(a, property) || a[property].Number?)
    || (forall a: Item :: a in items ==> Misses(a, property) || a[property].Text?)
    || (forall a: Item :: a in items ==> Misses(a, property) || a[property].Opaque?)
  }

  lemma OneKindIsUniform(items: seq<Item>, property: string)
    requires OneKind(items, property)
    ensures Uniform(items, property)
  {
  }

  /** The items have the same value for the property, or both none. */
  predicate Agree(a: Item, b: Item, property: string)
  {
    if Misses(a, property) then Misses(b, property) else !Misses(b, property) && a[property] == b[property]
  }

  /** The texts agree up to some place, where the first one ends or has the smaller letter. */
  ghost predicate Earlier(s: string, t: string)
  {
    exists k :: && 0 <= k <= |s| && k <= |t| && s[..k] == t[..k]
                && k < |t| && (k == |s| || s[k] < t[k])
  }

  lemma {:induction false} ChainAt(orders: seq<Order<Item>>, d: nat, a: Item, b: Item)
    requires d < |orders| && Chain(orders)(a, b) && forall m :: 0 <= m < d ==> orders[m](b, a)
    ensures orders[d](a, b)
  {
    if d > 0 {
      ChainAt(orders[1..], d - 1, a, b);
    }
  }

  lemma {:induction false} OrderAt(keys: seq<Key>, fold: char -> char, d: nat)
    requires d < |keys|
    ensures d < |Orders(keys, fold)| == |keys| && Orders(keys, fold)[d] == ItemOrder(keys[d], fold)
  {
    if d > 0 {
      OrderAt(keys[1..], fold, d - 1);
    } else {
      OrdersArePreorders(keys, fold);
    }
  }

  /** Two items of the result that agree on the first `d` keys stand in the order of the next key. */
  lemma InOrderOf(items: seq<Item>, keys: seq<Key>, fold: char -> char, d: nat, i: nat, j: nat)
    requires d < |keys| && i < j < |DoSort(items, keys, fold)|
    requires forall key :: key in keys ==> OneKind(items, key.property)
    requires var r := DoSort(items, keys, fold);
             forall m :: 0 <= m < d ==> Agree(r[i], r[j], keys[m].property)
    ensures var r := DoSort(items, keys, fold);
            ValueLeq(keys[d], fold, Property(r[i], keys[d].property), Property(r[j], keys[d].property))
  {
    var r, orders := DoSort(items, keys, fold), Orders(keys, fold);
    forall key | key in keys
      ensures Uniform(items, key.property)
    {
      OneKindIsUniform(items, key.property);
    }
    SortsOneKeyAfterTheOther(items, keys, fold);
    OrderAt(keys, fold, d);
    forall m | 0 <= m < d
      ensures orders[m](r[j], r[i])
    {
      OrderAt(keys, fold, m);
      SameValues(keys[m], fold, r[i], r[j]);
    }
    ChainAt(orders, d, r[i], r[j]);
  }

  lemma SameValues(key: Key, fold: char -> char, a: Item, b: Item)
    requires Agree(a, b, key.property)
    ensures ValueLeq(key, fold, Property(b, key.property), Property(a, key.property))
  {
    ValuesTotal(key, fold, Property(a, key.property), Property(a, key.property));
  }

  /**
   The order of the result, where all items have a number, a text or nothing for each key. The first key on which two items
   disagree decides: smaller numbers first, earlier texts first, and items without a value before all others; if the
   key is descending the other way round, but for texts compared without regard to case.
   */
  lemma SortedByValues(items: seq<Item>, keys: seq<Key>, fold: char -> char, d: nat, i: nat, j: nat)
    requires d < |keys| && i < j < |DoSort(items, keys, fold)|
    requires forall key :: key in keys ==> OneKind(items, key.property)
    requires var r := DoSort(items, keys, fold);
             forall m :: 0 <= m < d ==> Agree(r[i], r[j], keys[m].property)
    ensures var a, b, p := DoSort(items, keys, fold)[i], DoSort(items, keys, fold)[j], keys[d].property;
            && (Misses(a, p) && !Misses(b, p) ==> keys[d].ascending)
            && (!Misses(a, p) && Misses(b, p) ==> !keys[d].ascending)
            && (!Misses(a, p) && !Misses(b, p) && a[p].Number? && b[p].Number? ==>
                  if keys[d].ascending then a[p].n <= b[p].n else a[p].n >= b[p].n)
            && (!Misses(a, p) && !Misses(b, p) && a[p].Text? && b[p].Text? && !keys[d].ignoreCase ==>
                  if keys[d].ascending then !Earlier(b[p].s, a[p].s) else !Earlier(a[p].s, b[p].s))
            && (!Misses(a, p) && !Misses(b, p) && a[p].Text? && b[p].Text? && keys[d].ignoreCase ==>
                  !Earlier(Folded(b[p].s, fold), Folded(a[p].s, fold)))
  {
    var a, b, p := DoSort(items, keys, fold)[i], DoSort(items, keys, fold)[j], keys[d].property;
    InOrderOf(items, keys, fold, d, i, j);
    OrderOfValues(keys[d], fold);
    if !Misses(a, p) && !Misses(b, p) && a[p].Text? && b[p].Text? {
      TextsInOrder(keys[d], fold, a[p].s, b[p].s);
    }
  }

  function Folded(s: string, fold: char -> char): string
  {
    seq(|s|, i requires 0 <= i < |s| => fold(s[i]))
  }

  lemma EarlierIff(s: string, t: string, fold: char -> char)
    ensures Earlier(Folded(s, fold), Folded(t, fold)) <==> exists k :: ComesBefore(s, t, fold, k)
  {
    var f, g := Folded(s, fold), Folded(t, fold);
    if Earlier(f, g) {
      var k :| 0 <= k <= |f| && k <= |g| && f[..k] == g[..k] && k < |g| && (k == |f| || f[k] < g[k]);
      assert forall m :: 0 <= m < k ==> fold(s[m]) == f[..k][m] == g[..k][m] == fold(t[m]);
      assert ComesBefore(s, t, fold, k);
    }
    if exists k :: ComesBefore(s, t, fold, k) {
      var k: nat :| ComesBefore(s, t, fold, k);
      assert f[..k] == g[..k];
    }
  }

  lemma ExactlyIsFolded(s: string)
    ensures Folded(s, Exactly()) == s
  {
  }

  lemma TextsInOrder(key: Key, fold: char -> char, s: string, t: string)
    requires ValueLeq(key, fold, Text(s), Text(t))
    ensures !key.ignoreCase ==> if key.ascending then !Earlier(t, s) else !Earlier(s, t)
    ensures key.ignoreCase ==> !Earlier(Folded(t, fold), Folded(s, fold))
  {
    OrderOfValues(key, fold);
    EarlierIff(t, s, fold);
    EarlierIff(t, s, Exactly());
    EarlierIff(s, t, Exactly());
    ExactlyIsFolded(s);
    ExactlyIsFolded(t);
  }
}
