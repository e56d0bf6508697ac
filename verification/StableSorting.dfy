/**
 Stable sorting by a total preorder: what it yields is unique, and sorting by several keys at once is sorting
 by one key after the other, from the last to the first. `Collections.sort` is documented to be such a sort.
 */
module StableSorting {
  import opened Seqs

  /** `a` may stand before `b`. */
  type Order<!T> = (T, T) -> bool

  ghost predicate TotalPreorder<T(!new)>(leq: Order<T>)
  {
    && (forall a, b :: leq(a, b) || leq(b, a))
    && (forall a, b, c :: leq(a, b) && leq(b, c) ==> leq(a, c))
  }

  ghost predicate Sorted<T>(xs: seq<T>, leq: Order<T>)
  {
    forall i, j :: 0 <= i < j < |xs| ==> leq(xs[i], xs[j])
  }

  predicate Alike<T>(leq: Order<T>, a: T, b: T)
  {
    leq(a, b) && leq(b, a)
  }

  /** The elements that rank like `a`, in their order. */
  function ClassOf<T>(xs: seq<T>, leq: Order<T>, a: T): seq<T>
  {
    if xs == [] then []
    else if Alike(leq, a, xs[0]) then [xs[0]] + ClassOf(xs[1..], leq, a)
    else ClassOf(xs[1..], leq, a)
  }

  /** A stable sort: sorted, and elements of the same rank keep their order; in particular none is lost or added. */
  ghost predicate IsStableSortOf<T(!new)>(ys: seq<T>, xs: seq<T>, leq: Order<T>)
  {
    Sorted(ys, leq) && forall a :: ClassOf(ys, leq, a) == ClassOf(xs, leq, a)
  }

  // ---------- the sort ----------

  function Insert<T>(x: T, ys: seq<T>, leq: Order<T>): seq<T>
  {
    if ys == [] || leq(x, ys[0]) then [x] + ys else [ys[0]] + Insert(x, ys[1..], leq)
  }

  function StableSort<T>(xs: seq<T>, leq: Order<T>): seq<T>
  {
    if xs == [] then [] else Insert(xs[0], StableSort(xs[1..], leq), leq)
  }

  lemma ClassOfCons<T>(x: T, ys: seq<T>, leq: Order<T>, a: T)
    ensures ClassOf([x] + ys, leq, a) == (if Alike(leq, a, x) then [x] else []) + ClassOf(ys, leq, a)
  {
    ConsConcat([x], ys);
    Empty(ys);
    Empty(ClassOf(ys, leq, a));
  }

  lemma {:induction false} InsertKeepsClass<T(!new)>(x: T, ys: seq<T>, leq: Order<T>, a: T)
    requires TotalPreorder(leq) && Sorted(ys, leq)
    ensures ClassOf(Insert(x, ys, leq), leq, a) == ClassOf([x] + ys, leq, a)
  {
    if ys != [] && !leq(x, ys[0]) {
      var first, tail := Uncons(ys);
      InsertKeepsClass(x, tail, leq, a);
      ClassOfCons(first, Insert(x, tail, leq), leq, a);
      ClassOfCons(x, tail, leq, a);
      ClassOfCons(first, tail, leq, a);
      ClassOfCons(x, ys, leq, a);
      assert !(Alike(leq, a, x) && Alike(leq, a, first));
    }
  }

  lemma {:induction false} InsertSorts<T(!new)>(x: T, ys: seq<T>, leq: Order<T>)
    requires TotalPreorder(leq) && Sorted(ys, leq)
    ensures Sorted(Insert(x, ys, leq), leq)
    ensures forall y :: y in Insert(x, ys, leq) ==> y == x || y in ys
  {
    if ys != [] && !leq(x, ys[0]) {
      InsertSorts(x, ys[1..], leq);
      assert forall y :: y in Insert(x, ys[1..], leq) ==> leq(ys[0], y);
    }
  }

  lemma {:induction false} StableSortSorts<T(!new)>(xs: seq<T>, leq: Order<T>)
    requires TotalPreorder(leq)
    ensures IsStableSortOf(StableSort(xs, leq), xs, leq)
  {
    if xs != [] {
      var x, rest := Uncons(xs);
      StableSortSorts(rest, leq);
      var sorted := StableSort(rest, leq);
      InsertSorts(x, sorted, leq);
      forall a
        ensures ClassOf(StableSort(xs, leq), leq, a) == ClassOf(xs, leq, a)
      {
        InsertKeepsClass(x, sorted, leq, a);
        ConsConcat([x], sorted);
        Empty(sorted);
      }
    }
  }

  // ---------- uniqueness ----------

  lemma {:induction false} ClassMembers<T(!new)>(xs: seq<T>, leq: Order<T>, a: T, b: T)
    ensures b in ClassOf(xs, leq, a) <==> b in xs && Alike(leq, a, b)
  {
    if xs != [] {
      ClassMembers(xs[1..], leq, a, b);
    }
  }

  lemma SameMembers<T(!new)>(xs: seq<T>, ys: seq<T>, leq: Order<T>, b: T)
    requires TotalPreorder(leq) && forall a :: ClassOf(ys, leq, a) == ClassOf(xs, leq, a)
    ensures b in xs <==> b in ys
  {
    ClassMembers(xs, leq, b, b);
    ClassMembers(ys, leq, b, b);
    assert leq(b, b);
  }

  /** There is only one stable sort. */
  lemma {:induction false} StableSortIsUnique<T(!new)>(ys: seq<T>, zs: seq<T>, xs: seq<T>, leq: Order<T>)
    requires TotalPreorder(leq) && IsStableSortOf(ys, xs, leq) && IsStableSortOf(zs, xs, leq)
    ensures ys == zs
  {
    SameClassesSameSort(ys, zs, leq);
  }

  lemma {:induction false} SameClassesSameSort<T(!new)>(ys: seq<T>, zs: seq<T>, leq: Order<T>)
    requires TotalPreorder(leq) && Sorted(ys, leq) && Sorted(zs, leq)
    requires forall a :: ClassOf(ys, leq, a) == ClassOf(zs, leq, a)
    ensures ys == zs
  {
    if ys == [] {
      if zs != [] {
        SameMembers(ys, zs, leq, zs[0]);
      }
    } else {
      SameMembers(ys, zs, leq, ys[0]);
      SameMembers(ys, zs, leq, zs[0]);
      assert leq(ys[0], ys[0]) && leq(zs[0], zs[0]);
      assert Alike(leq, ys[0], zs[0]);
      assert ClassOf(ys, leq, ys[0])[0] == ys[0] && ClassOf(zs, leq, ys[0])[0] == zs[0];
      forall a
        ensures ClassOf(ys[1..], leq, a) == ClassOf(zs[1..], leq, a)
      {
        assert ClassOf(ys, leq, a) == ClassOf(zs, leq, a);
        Behind(ys, leq, a);
        Behind(zs, leq, a);
      }
      SameClassesSameSort(ys[1..], zs[1..], leq);
    }
  }

  lemma Behind<T>(xs: seq<T>, leq: Order<T>, a: T)
    requires xs != []
    ensures Alike(leq, a, xs[0]) ==> ClassOf(xs, leq, a) != [] && ClassOf(xs[1..], leq, a) == ClassOf(xs, leq, a)[1..]
    ensures !Alike(leq, a, xs[0]) ==> ClassOf(xs[1..], leq, a) == ClassOf(xs, leq, a)
  {
  }

  // ---------- several keys ----------

  /** First by one order, then by another. */
  function Then<T>(first: Order<T>, second: Order<T>): Order<T>
  {
    (a, b) => first(a, b) && (first(b, a) ==> second(a, b))
  }

  lemma ThenIsPreorder<T(!new)>(first: Order<T>, second: Order<T>)
    requires TotalPreorder(first) && TotalPreorder(second)
    ensures TotalPreorder(Then(first, second))
  {
  }

  lemma {:induction false} ClassOfClass<T(!new)>(xs: seq<T>, first: Order<T>, second: Order<T>, a: T)
    ensures ClassOf(xs, Then(first, second), a) == ClassOf(ClassOf(xs, first, a), second, a)
    ensures ClassOf(xs, Then(first, second), a) == ClassOf(ClassOf(xs, second, a), first, a)
  {
    if xs != [] {
      ClassOfClass(xs[1..], first, second, a);
      ConsConcat([xs[0]], ClassOf(xs[1..], first, a));
      Empty(ClassOf(xs[1..], first, a));
      ConsConcat([xs[0]], ClassOf(xs[1..], second, a));
      Empty(ClassOf(xs[1..], second, a));
    }
  }

  lemma {:induction false} ClassIsSorted<T(!new)>(xs: seq<T>, leq: Order<T>, ord: Order<T>, a: T)
    requires Sorted(xs, ord)
    ensures Sorted(ClassOf(xs, leq, a), ord)
  {
    if xs != [] {
      ClassIsSorted(xs[1..], leq, ord, a);
      forall b | b in ClassOf(xs[1..], leq, a)
        ensures ord(xs[0], b)
      {
        ClassMembers(xs[1..], leq, a, b);
      }
    }
  }

  lemma SortedTail<T>(xs: seq<T>, ord: Order<T>)
    requires Sorted(xs, ord)
    ensures xs != [] ==> Sorted(xs[1..], ord) && forall x :: x in xs[1..] ==> ord(xs[0], x)
  {
  }

  lemma {:induction false} SortedWithinClass<T(!new)>(xs: seq<T>, leq: Order<T>, ord: Order<T>, i: nat, j: nat, a: T)
    requires i < j < |xs| && Alike(leq, a, xs[i]) && Alike(leq, a, xs[j]) && Sorted(ClassOf(xs, leq, a), ord)
    ensures ord(xs[i], xs[j])
  {
    Behind(xs, leq, a);
    SortedTail(ClassOf(xs, leq, a), ord);
    if i == 0 {
      ClassMembers(xs[1..], leq, a, xs[j]);
      assert xs[1..][j - 1] == xs[j];
    } else {
      SortedWithinClass(xs[1..], leq, ord, i - 1, j - 1, a);
    }
  }

  /** Sorting by two keys is sorting by the second and then, stably, by the first. */
  lemma SortByTwoKeys<T(!new)>(xs: seq<T>, first: Order<T>, second: Order<T>)
    requires TotalPreorder(first) && TotalPreorder(second)
    ensures StableSort(xs, Then(first, second)) == StableSort(StableSort(xs, second), first)
  {
    var ys := StableSort(xs, second);
    var zs := StableSort(ys, first);
    StableSortSorts(xs, second);
    StableSortSorts(ys, first);
    forall i, j | 0 <= i < j < |zs|
      ensures Then(first, second)(zs[i], zs[j])
    {
      if first(zs[j], zs[i]) {
        assert first(zs[i], zs[i]);
        ClassIsSorted(ys, first, second, zs[i]);
        SortedWithinClass(zs, first, second, i, j, zs[i]);
      }
    }
    forall a
      ensures ClassOf(zs, Then(first, second), a) == ClassOf(xs, Then(first, second), a)
    {
      ClassOfClass(zs, first, second, a);
      ClassOfClass(ys, first, second, a);
      ClassOfClass(xs, first, second, a);
    }
    ThenIsPreorder(first, second);
    StableSortSorts(xs, Then(first, second));
    StableSortIsUnique(zs, StableSort(xs, Then(first, second)), xs, Then(first, second));
  }

  /** A chain of orders, the first one that decides counts. */
  function Chain<T>(orders: seq<Order<T>>): Order<T>
  {
    if orders == [] then (a, b) => true else Then(orders[0], Chain(orders[1..]))
  }

  lemma {:induction false} ChainIsPreorder<T(!new)>(orders: seq<Order<T>>)
    requires forall k :: 0 <= k < |orders| ==> TotalPreorder(orders[k])
    ensures TotalPreorder(Chain(orders))
  {
    if orders != [] {
      ChainIsPreorder(orders[1..]);
      ThenIsPreorder(orders[0], Chain(orders[1..]));
    }
  }

  /** One stable sort after the other, by the last order first. */
  function SortOneByOne<T>(xs: seq<T>, orders: seq<Order<T>>): seq<T>
  {
    if orders == [] then xs else StableSort(SortOneByOne(xs, orders[1..]), orders[0])
  }

  lemma {:induction false} SortByNothing<T(!new)>(xs: seq<T>, leq: Order<T>)
    requires forall a, b :: leq(a, b)
    ensures StableSort(xs, leq) == xs
  {
    if xs != [] {
      SortByNothing(xs[1..], leq);
    }
  }

  /** Sorting by a chain of orders is sorting by one after the other, the last one first. */
  lemma {:induction false} ChainSortsOneByOne<T(!new)>(xs: seq<T>, orders: seq<Order<T>>)
    requires forall k :: 0 <= k < |orders| ==> TotalPreorder(orders[k])
    ensures StableSort(xs, Chain(orders)) == SortOneByOne(xs, orders)
  {
    if orders == [] {
      SortByNothing(xs, Chain(orders));
    } else {
      ChainSortsOneByOne(xs, orders[1..]);
      ChainIsPreorder(orders[1..]);
      SortByTwoKeys(xs, orders[0], Chain(orders[1..]));
    }
  }

  /** Nothing is lost or added. */
  lemma {:induction false} InsertPermutes<T(!new)>(x: T, ys: seq<T>, leq: Order<T>)
    ensures multiset(Insert(x, ys, leq)) == multiset{x} + multiset(ys)
  {
    if ys != [] && !leq(x, ys[0]) {
      InsertPermutes(x, ys[1..], leq);
      assert ys == [ys[0]] + ys[1..];
    }
  }

  lemma {:induction false} StableSortPermutes<T(!new)>(xs: seq<T>, leq: Order<T>)
    ensures multiset(StableSort(xs, leq)) == multiset(xs) && |StableSort(xs, leq)| == |xs|
  {
    if xs != [] {
      StableSortPermutes(xs[1..], leq);
      InsertPermutes(xs[0], StableSort(xs[1..], leq), leq);
      assert xs == [xs[0]] + xs[1..];
      assert |multiset(StableSort(xs, leq))| == |multiset(xs)|;
    }
  }

  lemma {:induction false} InsertAgrees<T(!new)>(x: T, ys: seq<T>, leq: Order<T>, other: Order<T>)
    requires forall y :: y in ys ==> leq(x, y) == other(x, y)
    ensures Insert(x, ys, leq) == Insert(x, ys, other)
  {
    if ys != [] {
      InsertAgrees(x, ys[1..], leq, other);
    }
  }

  /** A sort compares nothing but the elements of its list. */
  lemma {:induction false} StableSortAgrees<T(!new)>(xs: seq<T>, leq: Order<T>, other: Order<T>)
    requires forall a, b :: a in xs && b in xs ==> leq(a, b) == other(a, b)
    ensures StableSort(xs, leq) == StableSort(xs, other)
  {
    if xs != [] {
      StableSortAgrees(xs[1..], leq, other);
      StableSortPermutes(xs[1..], leq);
      var sorted := StableSort(xs[1..], leq);
      forall y | y in sorted
        ensures y in xs
      {
        assert y in multiset(sorted) && y in multiset(xs[1..]);
      }
      InsertAgrees(xs[0], sorted, leq, other);
    }
  }
}
