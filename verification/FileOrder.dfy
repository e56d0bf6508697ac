/**
 From the files of an application to the datasources read back from its provider: which definitions they come from,
 and that the order in which the files are read does not matter as long as ids are distinct.
 */
module FileOrder {
  import opened Options
  import opened Seqs
  import opened InheritanceIds
  import opened NamedLists
  import opened Datasources
  import opened Inheritance
  import opened DatasourceChains
  import opened Config
  import opened ConfigDatasources

  // ---------- rearranged lists ----------

  /** All elements in the contents of the parts. */
  ghost function Pooled<F, X>(parts: seq<F>, contents: F -> seq<X>): multiset<X>
  {
    if parts == [] then multiset{} else Pooled(parts[..|parts| - 1], contents) + multiset(contents(parts[|parts| - 1]))
  }

  lemma {:induction false} PooledWithout<F, X>(parts: seq<F>, contents: F -> seq<X>, k: nat)
    requires k < |parts|
    ensures Pooled(parts, contents) == Pooled(parts[..k] + parts[k + 1..], contents) + multiset(contents(parts[k]))
  {
    var init, last := Unsnoc(parts);
    if k == |init| {
      assert parts[..k] + parts[k + 1..] == init;
    } else {
      PooledWithout(init, contents, k);
      assert parts[..k] + parts[k + 1..] == (init[..k] + init[k + 1..]) + [last];
      Snoc(init[..k] + init[k + 1..], last);
    }
  }

  lemma TakenOut<F>(parts: seq<F>, k: nat)
    requires k < |parts|
    ensures multiset(parts) == multiset(parts[..k] + parts[k + 1..]) + multiset{parts[k]}
  {
    assert parts == parts[..k] + [parts[k]] + parts[k + 1..];
  }

  lemma Cancel<F>(a: multiset<F>, b: multiset<F>, x: F)
    requires a + multiset{x} == b + multiset{x}
    ensures a == b
  {
    assert a == (a + multiset{x}) - multiset{x};
  }

  /** The last element of a list, taken out of the list and of a rearrangement. */
  lemma LastTakenOut<F>(parts: seq<F>, other: seq<F>) returns (k: nat)
    requires parts != [] && multiset(parts) == multiset(other)
    ensures k < |other| && other[k] == parts[|parts| - 1]
    ensures multiset(parts[..|parts| - 1]) == multiset(other[..k] + other[k + 1..])
  {
    var init, last := Unsnoc(parts);
    assert last in multiset(other);
    k :| 0 <= k < |other| && other[k] == last;
    TakenOut(other, k);
    assert multiset(parts) == multiset(init) + multiset{last};
    Cancel(multiset(init), multiset(other[..k] + other[k + 1..]), last);
  }

  /** The order of the parts makes no difference to their contents together. */
  lemma {:induction false} PooledPermutes<F, X>(parts: seq<F>, other: seq<F>, contents: F -> seq<X>)
    requires multiset(parts) == multiset(other)
    ensures Pooled(parts, contents) == Pooled(other, contents)
    decreases |parts|
  {
    if parts == [] {
      assert |multiset(other)| == 0;
    } else {
      var k := LastTakenOut(parts, other);
      PooledPermutes(parts[..|parts| - 1], other[..k] + other[k + 1..], contents);
      PooledWithout(other, contents, k);
    }
  }

  lemma {:induction false} KeyOfMember<T>(xs: seq<Keyed<T>>, key: string)
    ensures key in Keys(xs) <==> exists x :: x in xs && x.key == key
  {
    if xs != [] {
      var init, last := Unsnoc(xs);
      KeyOfMember(init, key);
    }
  }

  /** Distinct keys stay distinct when a list is rearranged. */
  lemma {:induction false} DistinctPermutes<T>(xs: seq<Keyed<T>>, ys: seq<Keyed<T>>)
    requires multiset(xs) == multiset(ys) && Distinct(xs)
    ensures Distinct(ys) && Keys(ys) == Keys(xs)
    decreases |xs|
  {
    if xs == [] {
      assert |multiset(ys)| == 0;
    } else {
      var k := LastTakenOut(xs, ys);
      DistinctPermutes(xs[..|xs| - 1], ys[..k] + ys[k + 1..]);
      PutBack(ys[..k], ys[k], ys[k + 1..]);
      SplitAt(ys, k, ys[k]);
    }
  }

  lemma PutBack<T>(a: seq<Keyed<T>>, x: Keyed<T>, b: seq<Keyed<T>>)
    requires Distinct(a + b) && x.key !in Keys(a + b)
    ensures Distinct(a + [x] + b) && Keys(a + [x] + b) == Keys(a + b) + {x.key}
  {
    DistinctConcat(a, b);
    KeysConcat(a, b);
    DistinctConcat(a + [x], b);
    KeysConcat(a + [x], b);
    Snoc(a, x);
  }

  /** With distinct keys an element is found exactly if it is there. */
  lemma {:induction false} FoundIfThere<T>(xs: seq<Keyed<T>>, x: Keyed<T>)
    requires Distinct(xs)
    ensures FindLast(xs, x.key) == Some(x) <==> x in xs
  {
    if xs != [] {
      var init, last := Unsnoc(xs);
      FoundIfThere(init, x);
      KeyOfMember(init, last.key);
    }
  }

  lemma {:induction false} FoundIsThere<T>(xs: seq<Keyed<T>>, key: string)
    ensures FindLast(xs, key).Some? ==> FindLast(xs, key).value in xs && FindLast(xs, key).value.key == key
    ensures FindLast(xs, key).Some? <==> key in Keys(xs)
  {
    if xs != [] {
      FoundIsThere(xs[..|xs| - 1], key);
    }
  }

  lemma FoundAlike<T>(xs: seq<Keyed<T>>, ys: seq<Keyed<T>>, key: string)
    requires multiset(xs) == multiset(ys) && Distinct(xs)
    ensures FindLast(xs, key) == FindLast(ys, key)
  {
    DistinctPermutes(xs, ys);
    FoundIsThere(xs, key);
    FoundIsThere(ys, key);
    if FindLast(xs, key).Some? {
      var x := FindLast(xs, key).value;
      assert x in multiset(xs) && x in multiset(ys);
      FoundIfThere(ys, x);
    }
  }

  // ---------- rearranged files ----------

  function RootsIn(f: File): seq<File>
  {
    if f.document.Root? then [f] else []
  }

  function DeclarationsIn(f: File): seq<Keyed<Declared<DatasourceView>>>
  {
    DatasourceDeclarations(PlainIn(f), f.name)
  }

  lemma {:induction false} DeclaredIsPooled(files: seq<File>)
    ensures multiset(DeclaredDatasources(files)) == Pooled(files, DeclarationsIn)
    ensures multiset(DeclaredDefinitions(files)) == Pooled(files, InheritingIn)
  {
    if files != [] {
      DeclaredIsPooled(files[..|files| - 1]);
    }
  }

  /** Reading goes through exactly if the files hold at most one root config. */
  lemma {:induction false} RootsCounted(files: seq<File>)
    ensures ReadAll(files).Some? <==> |Pooled(files, RootsIn)| <= 1
    ensures ReadAll(files).Some? ==> (ReadAll(files).value.root.Some? <==> |Pooled(files, RootsIn)| == 1)
  {
    if files != [] {
      var init, f := Unsnoc(files);
      RootsCounted(init);
      if ReadAll(init).Some? && !Refused(ReadAll(init).value, f.document) {
        RootRead(ReadAll(init).value, f);
      }
    }
  }

  /** No id is declared twice, neither by a datasource nor by an inheriting definition. */
  ghost predicate IdsDistinct(files: seq<File>)
  {
    && Distinct(DeclaredDatasources(files))
    && TargetsDistinct(Keys(DeclaredDatasources(files)), DeclaredDefinitions(files))
  }

  lemma {:induction false} ItemsAreDeclared(files: seq<File>)
    requires ReadAll(files).Some?
    ensures ReadAll(files).value.store.items.Keys == Keys(DeclaredDatasources(files))
  {
    LastDatasourceWins(files);
    var items, declared := ReadAll(files).value.store.items, DeclaredDatasources(files);
    forall id
      ensures id in items <==> id in Keys(declared)
    {
      FoundIsThere(declared, id);
    }
  }

  lemma ItemsAlike(files: seq<File>, reordered: seq<File>)
    requires ReadAll(files).Some? && ReadAll(reordered).Some? && IdsDistinct(files)
    requires multiset(DeclaredDatasources(files)) == multiset(DeclaredDatasources(reordered))
    ensures ReadAll(files).value.store.items == ReadAll(reordered).value.store.items
  {
    LastDatasourceWins(files);
    LastDatasourceWins(reordered);
    forall id
      ensures FindLast(DeclaredDatasources(files), id) == FindLast(DeclaredDatasources(reordered), id)
    {
      FoundAlike(DeclaredDatasources(files), DeclaredDatasources(reordered), id);
    }
  }

  /**
   If no id is declared twice, the files may be read in any order: what is refused is refused either way, and
   `getDatasource` returns the same in the end.
   */
  lemma FileOrderDoesNotMatter(files: seq<File>, reordered: seq<File>)
    requires multiset(files) == multiset(reordered) && IdsDistinct(files)
    ensures ReadAll(files).Some? <==> ReadAll(reordered).Some?
    ensures ReadAll(files).Some? ==>
              var c, d := ReadAll(files).value, ReadAll(reordered).value;
              ReadsAlike(DatasourceRules(), Process(DatasourceRules(), c.store, c.work),
                                            Process(DatasourceRules(), d.store, d.work))
  {
    RootsCounted(files);
    RootsCounted(reordered);
    PooledPermutes(files, reordered, RootsIn);
    if ReadAll(files).Some? {
      DeclaredIsPooled(files);
      DeclaredIsPooled(reordered);
      PooledPermutes(files, reordered, DeclarationsIn);
      PooledPermutes(files, reordered, InheritingIn);
      LastDatasourceWins(files);
      LastDatasourceWins(reordered);
      ItemsAreDeclared(files);
      ItemsAlike(files, reordered);
      ReadingIsIdempotent();
      var c, d := ReadAll(files).value, ReadAll(reordered).value;
      OrderDoesNotMatter(DatasourceRules(), c.store, d.store, c.work, d.work);
    }
  }

  /**
   Whatever `getDatasource` returns after loading comes from a datasource declared in the files, the last of its id, and
   inheriting definitions declared in the files, and the nearest of these wins.
   */
  lemma FilesReadBack(files: seq<File>, id: string)
    returns (chain: seq<Definition<DatasourceView>>, base: Keyed<Declared<DatasourceView>>)
    requires ReadAll(files).Some? && id in InheritAll(ReadAll(files).value).store.items
    ensures FindLast(DeclaredDatasources(files), base.key) == Some(base)
    ensures Linked(chain, id, base.key) && forall d :: d in chain ==> d in DeclaredDefinitions(files)
    ensures ChainFits(Bodies(chain), base.body.item)
    ensures var ds := Bound(InheritAll(ReadAll(files).value).store.items[id]);
            && ds == Bound(Resolved(Bodies(chain), base.body.item))
            && (NamesDistinct(base.body.item) ==> forall name :: NearestWins(ds, Bodies(chain), base.body.item, name))
  {
    var c, root := ReadAll(files).value, "";
    LastDatasourceWins(files);
    chain, root := ReadBack(c.store, c.work, id);
    base := FindLast(DeclaredDatasources(files), root).value;
    FoundIsThere(DeclaredDatasources(files), root);
  }
}
