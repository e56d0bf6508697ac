/**
 Datasource inheritance put together: the worklist engine of module Inheritance run with the reading
 and merging of module Datasources, and the chain of definitions behind every id it registers.
 */
module DatasourceChains {
  import opened Options
  import opened Seqs
  import opened InheritanceIds
  import opened NamedLists
  import opened Fields
  import opened Datasources
  import opened Inheritance

  /** `inherit`, with `None` where it hits a null pointer. */
  function Merge(def: DatasourceView, ancestor: DatasourceView): Option<DatasourceView>
  {
    if IsInheriting(def.id) && Mergeable(def, ancestor) then Some(Inherited(def, ancestor)) else None
  }

  function DatasourceRules(): Rules<DatasourceView>
  {
    Rules(Bound, Merge)
  }

  /** A definition on the worklist, with its id taken apart. */
  function ToDefinition(view: DatasourceView, resource: string): Definition<DatasourceView>
    requires IsInheriting(view.id)
  {
    Definition(DescendantId(view.id), AncestorId(view.id), view, resource)
  }

  /** All definitions on the worklist are inheriting ones. */
  ghost predicate WellFormed(work: seq<Definition<DatasourceView>>)
  {
    forall d :: d in work ==> IsInheriting(d.body.id) && d == ToDefinition(d.body, d.resource)
  }

  /** The definitions of a chain without their resource names. */
  function Bodies(chain: seq<Definition<DatasourceView>>): seq<DatasourceView>
  {
    seq(|chain|, i requires 0 <= i < |chain| => chain[i].body)
  }

  lemma ReadingIsIdempotent()
    ensures Idempotent(DatasourceRules())
  {
    forall ds: DatasourceView
      ensures Bound(Bound(ds)) == Bound(ds)
    {
      BoundTwice(ds);
    }
  }

  /** Folding a chain is resolving it. */
  lemma {:induction false} FoldResolves(chain: seq<Definition<DatasourceView>>, base: DatasourceView)
    requires Fold(DatasourceRules(), chain, base).Some?
    ensures ChainFits(Bodies(chain), base)
    ensures Fold(DatasourceRules(), chain, base) == Some(Bound(Resolved(Bodies(chain), base)))
  {
    if chain != [] {
      FoldStep(chain, base);
      FoldResolves(chain[1..], base);
      BehindFirst(chain);
    }
  }

  lemma FoldStep(chain: seq<Definition<DatasourceView>>, base: DatasourceView)
    requires chain != [] && Fold(DatasourceRules(), chain, base).Some?
    ensures var ancestor := Fold(DatasourceRules(), chain[1..], base);
            && ancestor.Some? && Mergeable(chain[0].body, ancestor.value) && IsInheriting(chain[0].body.id)
            && Fold(DatasourceRules(), chain, base) == Some(Bound(Inherited(chain[0].body, ancestor.value)))
  {
    var ancestor := Fold(DatasourceRules(), chain[1..], base).value;
    assert Merge(chain[0].body, ancestor).Some?;
  }

  lemma BehindFirst(chain: seq<Definition<DatasourceView>>)
    requires chain != []
    ensures Bodies(chain)[0] == chain[0].body && Bodies(chain)[1..] == Bodies(chain[1..])
  {
  }

  /** In a datasource resolved from a chain the name stands for the nearest definition of each kind. */
  ghost predicate NearestWins(ds: DatasourceView, chain: seq<DatasourceView>, base: DatasourceView, name: string)
    requires ChainFits(chain, base)
  {
    && Find(ds.fields, name) == NearestField(chain, base, name)
    && Find(ParamsOf(ds), name) == Nearest(chain, ParamsOf, base, name)
    && Find(LabelsOf(ds), name) == Nearest(chain, LabelsOf, base, name)
    && Find(PanelsOf(ds), name) == Nearest(chain, PanelsOf, base, name)
    && Find(OptionsOf(ds), name) == NearestOption(chain, base, name)
  }

  /**
   Every datasource that `getDatasource` returns after `processInheritance`, and also if that ended in a null pointer,
   is resolved from a chain of definitions down to a base datasource, so its params, labels, fields, options and link
   panels are those of the nearest definition. Ids may repeat or clash with base ids.
   */
  lemma ReadBack(store: Store<DatasourceView>, work: seq<Definition<DatasourceView>>, id: string)
    returns (chain: seq<Definition<DatasourceView>>, root: string)
    requires id in Process(DatasourceRules(), store, work).store.items
    ensures root in store.items && Linked(chain, id, root) && forall d :: d in chain ==> d in work
    ensures ChainFits(Bodies(chain), store.items[root])
    ensures var base, ds := store.items[root], Bound(Process(DatasourceRules(), store, work).store.items[id]);
            && ds == Bound(Resolved(Bodies(chain), base))
            && (NamesDistinct(base) ==> NamesDistinct(ds) && forall name :: NearestWins(ds, Bodies(chain), base, name))
  {
    var item := Process(DatasourceRules(), store, work).store.items[id];
    chain, root := RegisteredChain(store, work, id);
    FoldResolves(chain, store.items[root]);
    if NamesDistinct(store.items[root]) {
      ResolvedNamesDistinct(Bodies(chain), store.items[root]);
      forall name
        ensures NearestWins(Bound(item), Bodies(chain), store.items[root], name)
      {
        ResolvedNearest(Bodies(chain), store.items[root], name);
      }
    }
  }

  lemma RegisteredChain(store: Store<DatasourceView>, work: seq<Definition<DatasourceView>>, id: string)
    returns (chain: seq<Definition<DatasourceView>>, root: string)
    requires id in Process(DatasourceRules(), store, work).store.items
    ensures var item := Process(DatasourceRules(), store, work).store.items[id];
            ChainYields(DatasourceRules(), store.items, work, id, item, chain, root)
  {
    ReadingIsIdempotent();
    EverythingIsChained(DatasourceRules(), store, work);
    var item := Process(DatasourceRules(), store, work).store.items[id];
    chain, root :| ChainYields(DatasourceRules(), store.items, work, id, item, chain, root);
  }

  lemma ResolvedNearest(chain: seq<DatasourceView>, base: DatasourceView, name: string)
    requires ChainFits(chain, base) && NamesDistinct(base)
    ensures NearestWins(Bound(Resolved(chain, base)), chain, base, name)
  {
    NearestFieldWins(chain, base, name);
    NearestParamWins(chain, base, name);
    NearestLabelWins(chain, base, name);
    NearestPanelWins(chain, base, name);
    NearestOptionWins(chain, base, name);
  }

  /** Whatever the order of the worklist, `getDatasource` returns the same afterwards, or an error occurs. */
  lemma WorklistOrderDoesNotMatter(store: Store<DatasourceView>, work: seq<Definition<DatasourceView>>,
      reordered: seq<Definition<DatasourceView>>)
    requires TargetsDistinct(store.items.Keys, work) && multiset(work) == multiset(reordered)
    ensures ReadsAlike(DatasourceRules(), Process(DatasourceRules(), store, work),
                       Process(DatasourceRules(), store, reordered))
  {
    ReadingIsIdempotent();
    OrderDoesNotMatter(DatasourceRules(), store, store, work, reordered);
  }

  /** No id that inheritance registers is an inheriting one. */
  lemma RegisteredIdsAreFinal(store: Store<DatasourceView>, work: seq<Definition<DatasourceView>>, id: string)
    requires WellFormed(work) && Process(DatasourceRules(), store, work).Swept?
    requires id in Process(DatasourceRules(), store, work).store.items && id !in store.items
    ensures !IsInheriting(id)
  {
    ProcessedKeys(DatasourceRules(), store, work, id);
    var depth: nat :| Derivable(store.items.Keys, work, depth, id);
    var d :| d in work && d.target == id;
    InheritingIdSplits(d.body.id);
  }

  /** A chain of definitions from the worklist down to a base datasource, of which the nearest cannot be merged. */
  ghost predicate Misfit(store: Store<DatasourceView>, work: seq<Definition<DatasourceView>>,
      chain: seq<Definition<DatasourceView>>, root: string)
  {
    && chain != [] && root in store.items && Linked(chain, chain[0].target, root)
    && (forall d :: d in chain ==> d in work) && !Mergeable(chain[0].body, store.items[root])
  }

  /**
   `processInheritance` ends in a null pointer exactly if some definition resolves to a base datasource that lacks
   a container or the bean which the definition is to be merged into.
   */
  lemma BreaksIffMisfit(store: Store<DatasourceView>, work: seq<Definition<DatasourceView>>)
    requires TargetsDistinct(store.items.Keys, work) && WellFormed(work)
    ensures Process(DatasourceRules(), store, work).Broken? <==> exists chain, root :: Misfit(store, work, chain, root)
  {
    var rules := DatasourceRules();
    ReadingIsIdempotent();
    ProcessedMeaning(rules, store, work);
    if SomeFails(rules, store.items, work) {
      var d, chain, root := FailureBehind(rules, store.items, work);
      UnmergeableAtTheEnd(d.body, chain, store.items[root]);
      OneMore(store, work, d, chain, root);
    }
    if exists chain, root :: Misfit(store, work, chain, root) {
      var chain: seq<Definition<DatasourceView>>, root: string :| Misfit(store, work, chain, root);
      FollowChain(rules, store.items, work, chain, chain[0].target, root);
      if Fold(rules, chain, store.items[root]).Some? {
        FoldResolves(chain, store.items[root]);
        assert Bodies(chain)[0] == chain[0].body;
      }
    }
  }

  /** What cannot be merged with the near end of a chain cannot be merged with its far end. */
  lemma UnmergeableAtTheEnd(def: DatasourceView, chain: seq<Definition<DatasourceView>>, base: DatasourceView)
    requires IsInheriting(def.id) && Fold(DatasourceRules(), chain, base).Some?
    requires DatasourceRules().merge(def, Fold(DatasourceRules(), chain, base).value) == None
    ensures !Mergeable(def, base)
  {
    FoldResolves(chain, base);
    assert Merge(def, Bound(Resolved(Bodies(chain), base))) == None;
  }

  lemma OneMore(store: Store<DatasourceView>, work: seq<Definition<DatasourceView>>, d: Definition<DatasourceView>,
      chain: seq<Definition<DatasourceView>>, root: string)
    requires d in work && root in store.items && Linked(chain, d.source, root) && forall e :: e in chain ==> e in work
    requires !Mergeable(d.body, store.items[root])
    ensures Misfit(store, work, [d] + chain, root)
  {
    ConsConcat([d], chain);
    Empty(chain);
  }
}
