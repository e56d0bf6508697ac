/**
 Lists whose elements are identified by a name, and the two ways `DatasourceInheritanceHelper.inherit`
 merges one into another: labels, params and bean options are removed and appended again,
 link panels (and fields, see module Fields) are replaced where they stand.
 */
module NamedLists {
  import opened Options
  import opened Seqs

  /** An element of a list merged by name: a param, a label, a bean option, a link panel or a field. */
  datatype Keyed<+T> = Keyed(key: string, body: T)

  ghost function Keys<T>(xs: seq<Keyed<T>>): set<string>
  {
    if xs == [] then {} else Keys(xs[..|xs| - 1]) + {xs[|xs| - 1].key}
  }

  /** No name occurs twice. */
  ghost predicate Distinct<T>(xs: seq<Keyed<T>>)
  {
    xs == [] || (Distinct(xs[..|xs| - 1]) && xs[|xs| - 1].key !in Keys(xs[..|xs| - 1]))
  }

  /** The index of the first element with the given key, or the length of the list. */
  function Position<T>(xs: seq<Keyed<T>>, key: string): (p: nat)
    ensures p <= |xs|
  {
    if xs == [] || xs[0].key == key then 0 else 1 + Position(xs[1..], key)
  }

  /** The finders of `DatasourceInheritanceHelper`: the first element with the key. */
  function Find<T>(xs: seq<Keyed<T>>, key: string): Option<Keyed<T>>
  {
    if xs == [] then None else if xs[0].key == key then Some(xs[0]) else Find(xs[1..], key)
  }

  /** The last element with the key: the one that counts if a definition repeats a name. */
  ghost function FindLast<T>(xs: seq<Keyed<T>>, key: string): Option<Keyed<T>>
  {
    if xs == [] then None
    else if xs[|xs| - 1].key == key then Some(xs[|xs| - 1])
    else FindLast(xs[..|xs| - 1], key)
  }

  /** The elements whose key is not among the given ones, in their order. */
  ghost function Without<T>(xs: seq<Keyed<T>>, keys: set<string>): seq<Keyed<T>>
  {
    if xs == [] then []
    else if xs[|xs| - 1].key in keys then Without(xs[..|xs| - 1], keys)
    else Without(xs[..|xs| - 1], keys) + [xs[|xs| - 1]]
  }

  /** The names of a list, in order. */
  ghost function Names<T>(xs: seq<Keyed<T>>): seq<string>
  {
    if xs == [] then [] else Names(xs[..|xs| - 1]) + [xs[|xs| - 1].key]
  }

  // ---------- lists put together ----------

  lemma {:induction false} KeysConcat<T>(xs: seq<Keyed<T>>, ys: seq<Keyed<T>>)
    ensures Keys(xs + ys) == Keys(xs) + Keys(ys)
  {
    if ys == [] {
      Empty(xs);
    } else {
      ConcatSnoc(xs, ys);
      KeysConcat(xs, ys[..|ys| - 1]);
    }
  }

  lemma {:induction false} DistinctConcat<T>(xs: seq<Keyed<T>>, ys: seq<Keyed<T>>)
    ensures Distinct(xs + ys) <==> Distinct(xs) && Distinct(ys) && Keys(xs) !! Keys(ys)
  {
    if ys == [] {
      Empty(xs);
    } else {
      ConcatSnoc(xs, ys);
      DistinctConcat(xs, ys[..|ys| - 1]);
      KeysConcat(xs, ys[..|ys| - 1]);
    }
  }

  lemma {:induction false} NamesConcat<T>(xs: seq<Keyed<T>>, ys: seq<Keyed<T>>)
    ensures Names(xs + ys) == Names(xs) + Names(ys)
  {
    if ys == [] {
      Empty(xs);
      Empty(Names(xs));
    } else {
      ConcatSnoc(xs, ys);
      NamesConcat(xs, ys[..|ys| - 1]);
    }
  }

  lemma {:induction false} FindConcat<T>(xs: seq<Keyed<T>>, ys: seq<Keyed<T>>, key: string)
    ensures Find(xs + ys, key) == Find(xs, key).OrElse(Find(ys, key))
  {
    if xs == [] {
      Empty(ys);
    } else {
      ConsConcat(xs, ys);
      FindConcat(xs[1..], ys, key);
    }
  }

  lemma {:induction false} WithoutConcat<T>(xs: seq<Keyed<T>>, ys: seq<Keyed<T>>, keys: set<string>)
    ensures Without(xs + ys, keys) == Without(xs, keys) + Without(ys, keys)
  {
    if ys == [] {
      Empty(xs);
      Empty(Without(xs, keys));
    } else {
      ConcatSnoc(xs, ys);
      WithoutConcat(xs, ys[..|ys| - 1], keys);
    }
  }

  lemma One<T>(x: Keyed<T>)
    ensures Keys([x]) == {x.key} && Distinct([x]) && Names([x]) == [x.key]
    ensures forall key :: Find([x], key) == if key == x.key then Some(x) else None
    ensures forall keys :: Without([x], keys) == if x.key in keys then [] else [x]
  {
    assert [x][..0] == [] && [x][1..] == [];
  }

  /** An element between two lists. */
  lemma Between<T>(front: seq<Keyed<T>>, x: Keyed<T>, back: seq<Keyed<T>>)
    ensures var xs := front + [x] + back;
            && Keys(xs) == Keys(front) + {x.key} + Keys(back)
            && Names(xs) == Names(front) + [x.key] + Names(back)
            && (Distinct(xs) <==> Distinct(front + back) && x.key !in Keys(front) && x.key !in Keys(back))
    ensures Keys(front + back) == Keys(front) + Keys(back)
  {
    One(x);
    KeysConcat(front, [x]);
    KeysConcat(front + [x], back);
    KeysConcat(front, back);
    NamesConcat(front, [x]);
    NamesConcat(front + [x], back);
    DistinctConcat(front, [x]);
    DistinctConcat(front + [x], back);
    DistinctConcat(front, back);
  }

  lemma FindBetween<T>(front: seq<Keyed<T>>, x: Keyed<T>, back: seq<Keyed<T>>, key: string)
    requires x.key !in Keys(front)
    ensures Find(front + [x] + back, key) == if key == x.key then Some(x) else Find(front + back, key)
  {
    One(x);
    FindConcat(front, [x], key);
    FindConcat(front + [x], back, key);
    FindConcat(front, back, key);
    FindPresent(front, key);
  }

  lemma WithoutBetween<T>(front: seq<Keyed<T>>, x: Keyed<T>, back: seq<Keyed<T>>, keys: set<string>)
    ensures Without(front + [x] + back, keys)
         == if x.key in keys then Without(front, keys) + Without(back, keys)
            else Without(front, keys) + [x] + Without(back, keys)
  {
    One(x);
    WithoutConcat(front, [x], keys);
    WithoutConcat(front + [x], back, keys);
    Empty(Without(front, keys));
  }

  // ---------- finding ----------

  lemma {:induction false} FindPresent<T>(xs: seq<Keyed<T>>, key: string)
    ensures Find(xs, key).Some? <==> key in Keys(xs)
    ensures Find(xs, key).Some? ==> Find(xs, key).value.key == key
  {
    if xs != [] {
      var first, tail := Uncons(xs);
      FindPresent(tail, key);
      KeysConcat([first], tail);
      One(first);
    }
  }

  lemma {:induction false} PositionFinds<T>(xs: seq<Keyed<T>>, key: string)
    ensures var p := Position(xs, key);
            && (p < |xs| <==> key in Keys(xs))
            && (p < |xs| ==> xs[p].key == key && key !in Keys(xs[..p]))
  {
    if xs != [] {
      var first, tail := Uncons(xs);
      One(first);
      KeysConcat([first], tail);
      PositionFinds(tail, key);
      var p := Position(xs, key);
      if 0 < p < |xs| {
        TakeCons(xs, p);
        KeysConcat([first], tail[..p - 1]);
      }
    }
  }

  /** The finder takes a list apart at the first element with the key. */
  lemma PositionSplits<T>(xs: seq<Keyed<T>>, key: string)
    ensures var p := Position(xs, key);
            && (p < |xs| <==> key in Keys(xs))
            && (p < |xs| ==> xs[p].key == key && key !in Keys(xs[..p]) && xs == xs[..p] + [xs[p]] + xs[p + 1..])
  {
    PositionFinds(xs, key);
    var p := Position(xs, key);
    if p < |xs| {
      SplitAt(xs, p, xs[p]);
    }
  }

  lemma PositionIs<T>(xs: seq<Keyed<T>>, key: string, p: nat)
    requires p <= |xs| && (p < |xs| ==> xs[p].key == key) && forall k :: 0 <= k < p ==> xs[k].key != key
    ensures Position(xs, key) == p
  {
    if p > 0 {
      PositionIs(xs[1..], key, p - 1);
    }
  }

  lemma FindLastStep<T>(xs: seq<Keyed<T>>, x: Keyed<T>, key: string)
    ensures FindLast(xs + [x], key) == if key == x.key then Some(x) else FindLast(xs, key)
  {
    Snoc(xs, x);
  }

  // ---------- leaving elements out ----------

  lemma {:induction false} WithoutUnused<T>(xs: seq<Keyed<T>>, keys: set<string>)
    requires keys !! Keys(xs)
    ensures Without(xs, keys) == xs
  {
    if xs != [] {
      var init, last := Unsnoc(xs);
      WithoutUnused(init, keys);
    }
  }

  lemma {:induction false} WithoutTwice<T>(xs: seq<Keyed<T>>, keys: set<string>, more: set<string>)
    ensures Without(Without(xs, keys), more) == Without(xs, keys + more)
  {
    if xs != [] {
      var init, last := Unsnoc(xs);
      WithoutTwice(init, keys, more);
      Snoc(Without(init, keys), last);
    }
  }

  lemma {:induction false} WithoutKeys<T>(xs: seq<Keyed<T>>, keys: set<string>)
    ensures Keys(Without(xs, keys)) == Keys(xs) - keys
    ensures Distinct(xs) ==> Distinct(Without(xs, keys))
  {
    if xs != [] {
      var init, last := Unsnoc(xs);
      WithoutKeys(init, keys);
      Snoc(Without(init, keys), last);
    }
  }

  /** In a list without repeated names, removing the first element with a key removes the key. */
  lemma RemovalIsWithout<T>(xs: seq<Keyed<T>>, key: string)
    requires Distinct(xs)
    ensures var p := Position(xs, key);
            Without(xs, {key}) == if p < |xs| then xs[..p] + xs[p + 1..] else xs
  {
    PositionSplits(xs, key);
    var p := Position(xs, key);
    if p < |xs| {
      Between(xs[..p], xs[p], xs[p + 1..]);
      WithoutBetween(xs[..p], xs[p], xs[p + 1..], {key});
      WithoutUnused(xs[..p], {key});
      WithoutUnused(xs[p + 1..], {key});
    } else {
      WithoutUnused(xs, {key});
    }
  }

  lemma {:induction false} FindWithout<T>(xs: seq<Keyed<T>>, keys: set<string>, key: string)
    ensures Find(Without(xs, keys), key) == if key in keys then None else Find(xs, key)
  {
    if xs != [] {
      var init, last := Unsnoc(xs);
      FindWithout(init, keys, key);
      One(last);
      FindConcat(init, [last], key);
      FindConcat(Without(init, keys), [last], key);
    }
  }

  // ---------- remove and append ----------

  /** One turn of the label, param and bean option loops: the old element goes, the new one is added at the end. */
  function AppendStep<T>(xs: seq<Keyed<T>>, y: Keyed<T>): seq<Keyed<T>>
  {
    var p := Position(xs, y.key);
    (if p < |xs| then xs[..p] + xs[p + 1..] else xs) + [y]
  }

  /** The list after all elements of `ys` have been merged into `xs`. */
  function AppendMerged<T>(xs: seq<Keyed<T>>, ys: seq<Keyed<T>>): seq<Keyed<T>>
  {
    if ys == [] then xs
    else AppendStep(AppendMerged(xs, ys[..|ys| - 1]), ys[|ys| - 1])
  }

  method AppendMerge<T>(inherited: seq<Keyed<T>>, added: seq<Keyed<T>>) returns (merged: seq<Keyed<T>>)
    ensures merged == AppendMerged(inherited, added)
  {
    merged := inherited;
    for i := 0 to |added|
      invariant merged == AppendMerged(inherited, added[..i])
    {
      var l := added[i];
      var orig := Position(merged, l.key);
      if orig < |merged| {
        merged := merged[..orig] + merged[orig + 1..];
      }
      merged := merged + [l];
      TakeOne(added, i);
      Snoc(added[..i], l);
    }
    TakeAll(added);
  }

  lemma AppendStepResult<T>(xs: seq<Keyed<T>>, y: Keyed<T>)
    requires Distinct(xs)
    ensures AppendStep(xs, y) == Without(xs, {y.key}) + [y]
    ensures Distinct(AppendStep(xs, y)) && Keys(AppendStep(xs, y)) == Keys(xs) + {y.key}
  {
    RemovalIsWithout(xs, y.key);
    WithoutKeys(xs, {y.key});
    Snoc(Without(xs, {y.key}), y);
  }

  lemma AppendStepLookup<T>(xs: seq<Keyed<T>>, y: Keyed<T>, key: string)
    requires Distinct(xs)
    ensures Find(AppendStep(xs, y), key) == if key == y.key then Some(y) else Find(xs, key)
  {
    AppendStepResult(xs, y);
    FindConcat(Without(xs, {y.key}), [y], key);
    FindWithout(xs, {y.key}, key);
    One(y);
  }

  /** After remove-and-append a name means the definition's last element of that name, else the inherited one. */
  lemma {:induction false} AppendMergeLookup<T>(xs: seq<Keyed<T>>, ys: seq<Keyed<T>>, key: string)
    requires Distinct(xs)
    ensures Distinct(AppendMerged(xs, ys))
    ensures Find(AppendMerged(xs, ys), key) == FindLast(ys, key).OrElse(Find(xs, key))
  {
    if ys != [] {
      var init, y := Unsnoc(ys);
      AppendMergeLookup(xs, init, key);
      AppendStepResult(AppendMerged(xs, init), y);
      AppendStepLookup(AppendMerged(xs, init), y, key);
    }
  }

  /** The elements of `ys` that no later element of `ys` replaces, in their order. */
  ghost function LastOccurrences<T>(ys: seq<Keyed<T>>): seq<Keyed<T>>
  {
    if ys == [] then []
    else if ys[0].key in Keys(ys[1..]) then LastOccurrences(ys[1..])
    else [ys[0]] + LastOccurrences(ys[1..])
  }

  lemma {:induction false} LastOccurrencesStep<T>(ys: seq<Keyed<T>>, y: Keyed<T>)
    ensures LastOccurrences(ys + [y]) == Without(LastOccurrences(ys), {y.key}) + [y]
  {
    if ys == [] {
      assert ys + [y] == [y];
    } else {
      var first, tail := ys[0], ys[1..];
      ConsConcat(ys, [y]);
      LastOccurrencesStep(tail, y);
      One(y);
      KeysConcat(tail, [y]);
      if first.key !in Keys(tail) {
        One(first);
        WithoutConcat([first], LastOccurrences(tail), {y.key});
        Assoc([first], Without(LastOccurrences(tail), {y.key}), [y]);
        Empty(Without(LastOccurrences(tail), {y.key}));
      }
    }
  }

  /**
   What remove-and-append leaves: the inherited elements the definition does not name, in their order,
   followed by the definition's own elements, each name once, at the place of its last occurrence.
   */
  lemma {:induction false} AppendMergeResult<T>(xs: seq<Keyed<T>>, ys: seq<Keyed<T>>)
    requires Distinct(xs)
    ensures AppendMerged(xs, ys) == Without(xs, Keys(ys)) + LastOccurrences(ys)
    ensures Distinct(AppendMerged(xs, ys))
  {
    if ys == [] {
      WithoutUnused(xs, {});
      Empty(xs);
    } else {
      var init, y := Unsnoc(ys);
      var kept, last := Without(xs, Keys(init)), LastOccurrences(init);
      AppendMergeResult(xs, init);
      AppendStepResult(kept + last, y);
      WithoutConcat(kept, last, {y.key});
      WithoutTwice(xs, Keys(init), {y.key});
      LastOccurrencesStep(init, y);
      Assoc(Without(kept, {y.key}), Without(last, {y.key}), [y]);
    }
  }

  // ---------- replace in place ----------

  /** One turn of the link panel loop: the old panel is replaced where it stands, a new one is added at the end. */
  function ReplaceStep<T>(xs: seq<Keyed<T>>, y: Keyed<T>): seq<Keyed<T>>
  {
    var p := Position(xs, y.key);
    if p < |xs| then xs[p := y] else xs + [y]
  }

  function ReplaceMerged<T>(xs: seq<Keyed<T>>, ys: seq<Keyed<T>>): seq<Keyed<T>>
  {
    if ys == [] then xs
    else ReplaceStep(ReplaceMerged(xs, ys[..|ys| - 1]), ys[|ys| - 1])
  }

  method ReplaceMerge<T>(inherited: seq<Keyed<T>>, added: seq<Keyed<T>>) returns (merged: seq<Keyed<T>>)
    ensures merged == ReplaceMerged(inherited, added)
  {
    merged := inherited;
    for i := 0 to |added|
      invariant merged == ReplaceMerged(inherited, added[..i])
    {
      var lp := added[i];
      var index := Position(merged, lp.key);
      if index < |merged| {
        RemoveThenAdd(merged, index, lp);
        merged := merged[..index] + merged[index + 1..];
        merged := merged[..index] + [lp] + merged[index..];
      } else {
        merged := merged + [lp];
      }
      TakeOne(added, i);
      Snoc(added[..i], lp);
    }
    TakeAll(added);
  }

  /** Replacing the first element with the key of `y`, or not finding any. */
  lemma Replacing<T>(xs: seq<Keyed<T>>, y: Keyed<T>, key: string)
    requires Distinct(xs) && y.key in Keys(xs)
    ensures Position(xs, y.key) < |xs|
    ensures var r := xs[Position(xs, y.key) := y];
            && Distinct(r) && Keys(r) == Keys(xs) && Names(r) == Names(xs)
            && Find(r, key) == if key == y.key then Some(y) else Find(xs, key)
  {
    PositionSplits(xs, y.key);
    var p := Position(xs, y.key);
    var front, back := xs[..p], xs[p + 1..];
    SplitAt(xs, p, y);
    Between(front, xs[p], back);
    Between(front, y, back);
    FindBetween(front, xs[p], back, key);
    FindBetween(front, y, back, key);
  }

  lemma ReplaceStepResult<T>(xs: seq<Keyed<T>>, y: Keyed<T>, key: string)
    requires Distinct(xs)
    ensures Distinct(ReplaceStep(xs, y)) && Keys(ReplaceStep(xs, y)) == Keys(xs) + {y.key}
    ensures Find(ReplaceStep(xs, y), key) == if key == y.key then Some(y) else Find(xs, key)
    ensures Names(ReplaceStep(xs, y)) == Names(xs) + if y.key in Keys(xs) then [] else [y.key]
  {
    PositionSplits(xs, y.key);
    if y.key in Keys(xs) {
      Replacing(xs, y, key);
      Empty(Names(xs));
    } else {
      Appending(xs, y, key);
    }
  }

  lemma Appending<T>(xs: seq<Keyed<T>>, y: Keyed<T>, key: string)
    requires Distinct(xs) && y.key !in Keys(xs)
    ensures Distinct(xs + [y]) && Keys(xs + [y]) == Keys(xs) + {y.key} && Names(xs + [y]) == Names(xs) + [y.key]
    ensures Find(xs + [y], key) == if key == y.key then Some(y) else Find(xs, key)
  {
    Snoc(xs, y);
    FindConcat(xs, [y], key);
    One(y);
    FindPresent(xs, key);
  }

  /** After replacing in place a name means the definition's last element of that name, else the inherited one. */
  lemma {:induction false} ReplaceMergeLookup<T>(xs: seq<Keyed<T>>, ys: seq<Keyed<T>>, key: string)
    requires Distinct(xs)
    ensures Distinct(ReplaceMerged(xs, ys))
    ensures Find(ReplaceMerged(xs, ys), key) == FindLast(ys, key).OrElse(Find(xs, key))
  {
    if ys != [] {
      var init, y := Unsnoc(ys);
      ReplaceMergeLookup(xs, init, key);
      ReplaceStepResult(ReplaceMerged(xs, init), y, key);
    }
  }

  /** The names of `ys` outside `known`, each once, in the order of their first occurrence. */
  ghost function NewNames<T>(known: set<string>, ys: seq<Keyed<T>>): seq<string>
    decreases |ys|
  {
    if ys == [] then []
    else if ys[0].key in known then NewNames(known, ys[1..])
    else [ys[0].key] + NewNames(known + {ys[0].key}, ys[1..])
  }

  lemma {:induction false} NewNamesStep<T>(known: set<string>, ys: seq<Keyed<T>>, y: Keyed<T>)
    ensures NewNames(known, ys + [y])
         == NewNames(known, ys) + if y.key in known + Keys(ys) then [] else [y.key]
    decreases |ys|
  {
    if ys == [] {
      assert ys + [y] == [y];
    } else {
      var first, tail := Uncons(ys);
      ConsConcat(ys, [y]);
      One(first);
      KeysConcat([first], tail);
      var known' := if first.key in known then known else known + {first.key};
      assert known' + Keys(tail) == known + Keys(ys);
      NewNamesStep(known', tail, y);
      Assoc([first.key], NewNames(known', tail), if y.key in known + Keys(ys) then [] else [y.key]);
    }
  }

  /**
   The order replacing in place leaves: all inherited names where they were, then the new ones in the
   order in which the definition first mentions them.
   */
  lemma {:induction false} ReplaceMergeOrder<T>(xs: seq<Keyed<T>>, ys: seq<Keyed<T>>)
    requires Distinct(xs)
    ensures Distinct(ReplaceMerged(xs, ys)) && Keys(ReplaceMerged(xs, ys)) == Keys(xs) + Keys(ys)
    ensures Names(ReplaceMerged(xs, ys)) == Names(xs) + NewNames(Keys(xs), ys)
  {
    if ys == [] {
      Empty(Names(xs));
    } else {
      var init, y := Unsnoc(ys);
      ReplaceMergeOrder(xs, init);
      ReplaceStepResult(ReplaceMerged(xs, init), y, y.key);
      NewNamesStep(Keys(xs), init, y);
      Assoc(Names(xs), NewNames(Keys(xs), init), if y.key in Keys(xs) + Keys(init) then [] else [y.key]);
    }
  }
}
