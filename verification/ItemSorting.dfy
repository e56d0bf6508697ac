/** `DataContainer.doSort`: sorting items by several of their properties. */
module ItemSorting {
  import opened Options
  import opened Seqs
  import opened StableSorting

  /** A property's value: null, one of two kinds of comparable values, or something that cannot be compared. */
  datatype Value = Null | Number(n: int) | Text(s: string) | Opaque(id: nat)

  /** An item with its readable properties. */
  type Item = map<string, Value>

  /** A sort key. */
  datatype Key = Key(property: string, ascending: bool, ignoreCase: bool)

  function Property(item: Item, name: string): Value
  {
    if name in item then item[name] else Null
  }

  // ---------- comparing ----------

  /** `compareTo` and, with letters folded, `compareToIgnoreCase`. */
  function CompareText(s: string, t: string, fold: char -> char): int
  {
    if s == [] || t == [] then |s| - |t|
    else
      var c, d := fold(s[0]) as int, fold(t[0]) as int;
      if c != d then c - d else CompareText(s[1..], t[1..], fold)
  }

  function Factor(key: Key): int
  {
    if key.ascending then 1 else -1
  }

  function Exactly(): char -> char
  {
    c => c
  }

  /** The comparator of one key; `None` where comparing values of different types throws. */
  function Compare(key: Key, fold: char -> char, p: Value, q: Value): Option<int>
  {
    if (p.Number? || p.Text?) && (q.Number? || q.Text?) then
      if key.ignoreCase && p.Text? && q.Text? then Some(CompareText(p.s, q.s, fold))
      else if p.Number? && q.Number? then Some((if p.n < q.n then -1 else if p.n > q.n then 1 else 0) * Factor(key))
      else if p.Text? && q.Text? then Some(CompareText(p.s, q.s, Exactly()) * Factor(key))
      else None
    else if p.Null? && !q.Null? then Some(-1 * Factor(key))
    else if !p.Null? && q.Null? then Some(1 * Factor(key))
    else Some(0)
  }

  /** The comparator chain: the first key that tells the items apart decides. */
  function CompareItems(keys: seq<Key>, fold: char -> char, a: Item, b: Item): Option<int>
  {
    if keys == [] then Some(0)
    else
      match Compare(keys[0], fold, Property(a, keys[0].property), Property(b, keys[0].property))
      case None => None
      case Some(0) => CompareItems(keys[1..], fold, a, b)
      case Some(r) => Some(r)
  }

  /** `doSort` */
  function DoSort(items: seq<Item>, keys: seq<Key>, fold: char -> char): seq<Item>
  {
    if keys == [] || items == [] then items
    else StableSort(items, (a, b) => CompareItems(keys, fold, a, b).Some? && CompareItems(keys, fold, a, b).value <= 0)
  }

  // ---------- total preorders ----------

  function Tag(v: Value): int
  {
    match v
    case Null => 0
    case Number(_) => 1
    case Text(_) => 2
    case Opaque(_) => 3
  }

  /** The values are null or of one type. */
  ghost predicate Uniform(items: seq<Item>, property: string)
  {
    forall a, b :: a in items && b in items ==>
                     var p, q := Property(a, property), Property(b, property);
                     p.Null? || q.Null? || Tag(p) == Tag(q)
  }

  /** The order of one key, extended to all values by telling their types apart. */
  predicate ValueLeq(key: Key, fold: char -> char, p: Value, q: Value)
  {
    if Tag(p) != Tag(q) then (Tag(p) - Tag(q)) * Factor(key) < 0
    else
      match Compare(key, fold, p, q)
      case None => true
      case Some(r) => r <= 0
  }

  function ItemOrder(key: Key, fold: char -> char): Order<Item>
  {
    (a, b) => ValueLeq(key, fold, Property(a, key.property), Property(b, key.property))
  }

  lemma {:induction false} TextSwapped(s: string, t: string, fold: char -> char)
    ensures CompareText(t, s, fold) == -CompareText(s, t, fold)
  {
    if s != [] && t != [] {
      TextSwapped(s[1..], t[1..], fold);
    }
  }

  lemma {:induction false} TextTransitive(s: string, t: string, u: string, fold: char -> char)
    requires CompareText(s, t, fold) <= 0 && CompareText(t, u, fold) <= 0
    ensures CompareText(s, u, fold) <= 0
  {
    if s != [] && t != [] && u != [] && fold(s[0]) == fold(t[0]) == fold(u[0]) {
      TextTransitive(s[1..], t[1..], u[1..], fold);
    }
  }

  lemma {:induction false} TextTransitiveDown(s: string, t: string, u: string, fold: char -> char)
    requires CompareText(s, t, fold) >= 0 && CompareText(t, u, fold) >= 0
    ensures CompareText(s, u, fold) >= 0
  {
    TextSwapped(s, t, fold);
    TextSwapped(t, u, fold);
    TextTransitive(u, t, s, fold);
    TextSwapped(u, s, fold);
  }

  lemma ValuesTotal(key: Key, fold: char -> char, p: Value, q: Value)
    ensures ValueLeq(key, fold, p, q) || ValueLeq(key, fold, q, p)
  {
    if p.Text? && q.Text? {
      TextSwapped(p.s, q.s, fold);
      TextSwapped(p.s, q.s, Exactly());
    }
  }

  lemma ValuesTransitive(key: Key, fold: char -> char, p: Value, q: Value, r: Value)
    requires ValueLeq(key, fold, p, q) && ValueLeq(key, fold, q, r)
    ensures ValueLeq(key, fold, p, r)
  {
    if p.Text? && q.Text? && r.Text? {
      if key.ignoreCase {
        TextTransitive(p.s, q.s, r.s, fold);
      } else if key.ascending {
        TextTransitive(p.s, q.s, r.s, Exactly());
      } else {
        TextTransitiveDown(p.s, q.s, r.s, Exactly());
      }
    }
  }

  lemma ItemOrderIsPreorder(key: Key, fold: char -> char)
    ensures TotalPreorder(ItemOrder(key, fold))
  {
    var leq := ItemOrder(key, fold);
    forall a, b
      ensures leq(a, b) || leq(b, a)
    {
      ValuesTotal(key, fold, Property(a, key.property), Property(b, key.property));
    }
    forall a, b, c | leq(a, b) && leq(b, c)
      ensures leq(a, c)
    {
      ValuesTransitive(key, fold, Property(a, key.property), Property(b, key.property), Property(c, key.property));
    }
  }

  /** The texts agree before `k`; there the first one ends, or has the smaller letter. */
  ghost predicate ComesBefore(s: string, t: string, fold: char -> char, k: nat)
  {
    && k <= |s| && k <= |t| && (forall i :: 0 <= i < k ==> fold(s[i]) == fold(t[i]))
    && (k < |t| && (k == |s| || fold(s[k]) < fold(t[k])))
  }

  /** Texts are compared like in a dictionary. */
  lemma {:induction false} TextsAsInDictionary(s: string, t: string, fold: char -> char)
    ensures CompareText(s, t, fold) < 0 <==> exists k :: ComesBefore(s, t, fold, k)
  {
    if s == [] || t == [] {
      assert s == [] && t != [] ==> ComesBefore(s, t, fold, 0);
    } else if fold(s[0]) == fold(t[0]) {
      TextsAsInDictionary(s[1..], t[1..], fold);
      if exists k :: ComesBefore(s[1..], t[1..], fold, k) {
        var k: nat :| ComesBefore(s[1..], t[1..], fold, k);
        assert ComesBefore(s, t, fold, k + 1);
      }
      if exists k :: ComesBefore(s, t, fold, k) {
        var k: nat :| ComesBefore(s, t, fold, k);
        assert ComesBefore(s[1..], t[1..], fold, k - 1);
      }
    } else {
      assert fold(s[0]) < fold(t[0]) ==> ComesBefore(s, t, fold, 0);
      assert forall k: nat :: ComesBefore(s, t, fold, k) ==> k == 0;
    }
  }

  /** Ascending means smaller numbers, earlier texts and nulls first; descending is the reverse. */
  lemma OrderOfValues(key: Key, fold: char -> char)
    ensures forall m, n :: ValueLeq(key, fold, Number(m), Number(n)) <==> if key.ascending then m <= n else n <= m
    ensures forall v: Value :: ValueLeq(key, fold, Null, v) <==> key.ascending || v == Null
    ensures forall v: Value :: ValueLeq(key, fold, v, Null) <==> !key.ascending || v == Null
    ensures forall s, t :: ValueLeq(key, fold, Text(s), Text(t)) <==>
                             if key.ignoreCase then !exists k :: ComesBefore(t, s, fold, k)
                             else if key.ascending then !exists k :: ComesBefore(t, s, Exactly(), k)
                             else !exists k :: ComesBefore(s, t, Exactly(), k)
  {
    forall s, t
      ensures ValueLeq(key, fold, Text(s), Text(t)) <==>
                if key.ignoreCase then !exists k :: ComesBefore(t, s, fold, k)
                else if key.ascending then !exists k :: ComesBefore(t, s, Exactly(), k)
                else !exists k :: ComesBefore(s, t, Exactly(), k)
    {
      TextSwapped(s, t, fold);
      TextSwapped(s, t, Exactly());
      TextsAsInDictionary(t, s, fold);
      TextsAsInDictionary(t, s, Exactly());
      TextsAsInDictionary(s, t, Exactly());
    }
  }

  // ---------- what the sort does ----------

  ghost function Orders(keys: seq<Key>, fold: char -> char): seq<Order<Item>>
  {
    if keys == [] then [] else [ItemOrder(keys[0], fold)] + Orders(keys[1..], fold)
  }

  lemma {:induction false} OrdersArePreorders(keys: seq<Key>, fold: char -> char)
    ensures |Orders(keys, fold)| == |keys|
    ensures forall k :: 0 <= k < |keys| ==> TotalPreorder(Orders(keys, fold)[k])
  {
    if keys != [] {
      OrdersArePreorders(keys[1..], fold);
      ItemOrderIsPreorder(keys[0], fold);
    }
  }

  /** On values null or of one type the comparator of a key does not throw and is its order, in both directions. */
  lemma CompareIsOrder(key: Key, fold: char -> char, p: Value, q: Value)
    requires p.Null? || q.Null? || Tag(p) == Tag(q)
    ensures Compare(key, fold, p, q).Some?
    ensures Compare(key, fold, p, q).value <= 0 <==> ValueLeq(key, fold, p, q)
    ensures Compare(key, fold, p, q).value >= 0 <==> ValueLeq(key, fold, q, p)
  {
    if p.Text? && q.Text? {
      TextSwapped(p.s, q.s, fold);
      TextSwapped(p.s, q.s, Exactly());
    }
  }

  lemma {:induction false} CompareItemsIsChain(keys: seq<Key>, fold: char -> char, a: Item, b: Item)
    requires forall key :: key in keys ==>
                             var p, q := Property(a, key.property), Property(b, key.property);
                             p.Null? || q.Null? || Tag(p) == Tag(q)
    ensures CompareItems(keys, fold, a, b).Some?
    ensures CompareItems(keys, fold, a, b).value <= 0 <==> Chain(Orders(keys, fold))(a, b)
  {
    if keys != [] {
      CompareIsOrder(keys[0], fold, Property(a, keys[0].property), Property(b, keys[0].property));
      CompareItemsIsChain(keys[1..], fold, a, b);
      assert Orders(keys, fold)[1..] == Orders(keys[1..], fold);
    }
  }

  /**
   If the values of every sort key's property are null or of one type, nothing throws, and the result is a stable
   sort by the chain of keys: the very list that sorting stably by one key after the other yields, the last
   key first.
   */
  lemma SortsOneKeyAfterTheOther(items: seq<Item>, keys: seq<Key>, fold: char -> char)
    requires forall key :: key in keys ==> Uniform(items, key.property)
    ensures forall a, b :: a in items && b in items ==> CompareItems(keys, fold, a, b).Some?
    ensures IsStableSortOf(DoSort(items, keys, fold), items, Chain(Orders(keys, fold)))
    ensures multiset(DoSort(items, keys, fold)) == multiset(items)
    ensures DoSort(items, keys, fold) == SortOneByOne(items, Orders(keys, fold))
  {
    var orders := Orders(keys, fold);
    OrdersArePreorders(keys, fold);
    ChainIsPreorder(orders);
    forall a, b | a in items && b in items
      ensures CompareItems(keys, fold, a, b).Some?
      ensures CompareItems(keys, fold, a, b).value <= 0 <==> Chain(orders)(a, b)
    {
      CompareItemsIsChain(keys, fold, a, b);
    }
    StableSortSorts(items, Chain(orders));
    StableSortPermutes(items, Chain(orders));
    ChainSortsOneByOne(items, orders);
    if keys == [] {
      SortByNothing(items, Chain(orders));
    } else {
      StableSortAgrees(items, (a, b) => CompareItems(keys, fold, a, b).Some? && CompareItems(keys, fold, a, b).value <= 0,
                       Chain(orders));
    }
  }

  lemma DoSortKeepsSize(items: seq<Item>, keys: seq<Key>, fold: char -> char)
    ensures |DoSort(items, keys, fold)| == |items|
  {
    StableSortPermutes(items, (a, b) => CompareItems(keys, fold, a, b).Some? && CompareItems(keys, fold, a, b).value <= 0);
  }

  /** The direction counts everywhere but for texts compared without regard to case. */
  lemma DirectionCounts(property: string, ignoreCase: bool, fold: char -> char, p: Value, q: Value)
    ensures var up, down := Compare(Key(property, true, ignoreCase), fold, p, q),
                            Compare(Key(property, false, ignoreCase), fold, p, q);
            && up.Some? == down.Some?
            && (up.Some? ==> down.value == if ignoreCase && p.Text? && q.Text? then up.value else -up.value)
  {
  }
}
