/**
 Worklists that define an id twice: the definition visited last wins, so their order can be read off the result of
 `ApplicationConfigProviderImpl.processInheritance`.
 */
module RepeatedIds {
  import opened Options
  import opened Seqs
  import opened InheritanceIds
  import opened Datasources
  import opened Inheritance
  import opened DatasourceChains

  /** No definition on the worklist has this id. */
  ghost predicate Untargeted<T>(work: seq<Definition<T>>, id: string)
  {
    forall d :: d in work ==> d.target != id
  }

  /** The id is registered in both stores and reads the same. */
  ghost predicate ReadsSame<T>(rules: Rules<T>, store: Store<T>, other: Store<T>, id: string)
  {
    id in store.items && id in other.items && rules.bind(store.items[id]) == rules.bind(other.items[id])
  }

  lemma {:induction false} SweepKeepsReading<T(!new)>(rules: Rules<T>, store: Store<T>, work: seq<Definition<T>>, id: string)
    requires Idempotent(rules) && id in store.items && Untargeted(work, id)
    ensures ReadsSame(rules, Sweep(rules, store, work).store, store, id)
  {
    if work != [] {
      var init, d := Unsnoc(work);
      SweepKeepsReading(rules, store, init, id);
    }
  }

  /** What no definition redefines reads the same in the end. */
  lemma {:induction false} ProcessKeepsReading<T(!new)>(rules: Rules<T>, store: Store<T>, work: seq<Definition<T>>,
      id: string)
    requires Idempotent(rules) && id in store.items && Untargeted(work, id)
    ensures ReadsSame(rules, Process(rules, store, work).store, store, id)
    decreases |work|
  {
    if work != [] {
      var s := Sweep(rules, store, work);
      SweepKeepsReading(rules, store, work, id);
      if s.Swept? && |s.left| < |work| {
        SweepLeft(rules, store, work);
        ProcessKeepsReading(rules, s.store, s.left, id);
      }
    }
  }

  /** Whatever is left by a sweep had no ancestor at its start. */
  lemma {:induction false} LeftHadNoAncestor<T>(rules: Rules<T>, store: Store<T>, work: seq<Definition<T>>)
    requires Sweep(rules, store, work).Swept?
    ensures forall d :: d in Sweep(rules, store, work).left ==> d.source !in store.items
  {
    if work != [] {
      var init, d := Unsnoc(work);
      LeftHadNoAncestor(rules, store, init);
      SweepRegisters(rules, store, init);
    }
  }

  /** The `j`-th definition's ancestor is there from the start and stays as it is, and nobody redefines its id later. */
  ghost predicate Decides<T>(store: Store<T>, work: seq<Definition<T>>, j: nat)
  {
    && j < |work| && work[j].source in store.items && Untargeted(work, work[j].source)
    && forall k :: j < k < |work| ==> work[k].target != work[j].target
  }

  lemma {:induction false} SweepLetsLastWin<T(!new)>(rules: Rules<T>, store: Store<T>, work: seq<Definition<T>>, j: nat,
      item: T)
    requires Idempotent(rules) && Decides(store, work, j) && Sweep(rules, store, work).Swept?
    requires rules.merge(work[j].body, rules.bind(store.items[work[j].source])) == Some(item)
    ensures var s := Sweep(rules, store, work).store;
            work[j].target in s.items && rules.bind(s.items[work[j].target]) == rules.bind(item)
  {
    var init, d := Unsnoc(work);
    if j == |init| {
      SweepKeepsReading(rules, store, init, d.source);
    } else {
      assert forall k :: 0 <= k < |init| ==> init[k] == work[k];
      SweepLetsLastWin(rules, store, init, j, item);
    }
  }

  /** If all definitions of its id have an ancestor from the start, the last of them decides what the id reads as. */
  lemma LastDefinitionWins<T(!new)>(rules: Rules<T>, store: Store<T>, work: seq<Definition<T>>, j: nat, item: T)
    requires Idempotent(rules) && Decides(store, work, j) && Process(rules, store, work).Swept?
    requires forall d :: d in work && d.target == work[j].target ==> d.source in store.items
    requires rules.merge(work[j].body, rules.bind(store.items[work[j].source])) == Some(item)
    ensures var s := Process(rules, store, work).store;
            work[j].target in s.items && rules.bind(s.items[work[j].target]) == rules.bind(item)
  {
    var s := Sweep(rules, store, work);
    SweepLetsLastWin(rules, store, work, j, item);
    LeftHadNoAncestor(rules, store, work);
    SweepLeft(rules, store, work);
    if |s.left| < |work| {
      ProcessKeepsReading(rules, s.store, s.left, work[j].target);
    }
  }

  function Swapped<T>(s: seq<T>, i: nat, j: nat): seq<T>
    requires i < |s| && j < |s|
  {
    s[i := s[j]][j := s[i]]
  }

  lemma SwappedPermutes<T>(s: seq<T>, i: nat, j: nat)
    requires i < |s| && j < |s|
    ensures multiset(Swapped(s, i, j)) == multiset(s)
  {
  }

  /** The only definitions of their id, with the same ancestor, which is registered and not redefined. */
  ghost predicate Rivals<T>(store: Store<T>, work: seq<Definition<T>>, i: nat, j: nat)
  {
    && i < j < |work| && work[i].target == work[j].target && work[i].source == work[j].source
    && work[i].source in store.items && Untargeted(work, work[i].source)
    && forall k :: 0 <= k < |work| && k != i && k != j ==> work[k].target != work[i].target
  }

  lemma RivalsSwapped<T>(store: Store<T>, work: seq<Definition<T>>, i: nat, j: nat)
    requires Rivals(store, work, i, j)
    ensures Rivals(store, Swapped(work, i, j), i, j)
  {
    var swapped := Swapped(work, i, j);
    forall d | d in swapped
      ensures d in work
    {
      SwappedPermutes(work, i, j);
      assert d in multiset(swapped);
    }
  }

  lemma RivalDecides<T(!new)>(rules: Rules<T>, store: Store<T>, work: seq<Definition<T>>, i: nat, j: nat, item: T)
    requires Idempotent(rules) && Rivals(store, work, i, j) && Process(rules, store, work).Swept?
    requires rules.merge(work[j].body, rules.bind(store.items[work[j].source])) == Some(item)
    ensures var s := Process(rules, store, work).store;
            work[j].target in s.items && rules.bind(s.items[work[j].target]) == rules.bind(item)
  {
    LastDefinitionWins(rules, store, work, j, item);
  }

  /** Rivals that make datasources which read differently can be told apart: exchanging them changes what is read. */
  lemma RivalsReadDifferently<T(!new)>(rules: Rules<T>, store: Store<T>, work: seq<Definition<T>>, i: nat, j: nat,
      x: T, y: T)
    requires Idempotent(rules) && Rivals(store, work, i, j) && Process(rules, store, work).Swept?
    requires rules.merge(work[i].body, rules.bind(store.items[work[i].source])) == Some(x)
    requires rules.merge(work[j].body, rules.bind(store.items[work[i].source])) == Some(y)
    requires rules.bind(x) != rules.bind(y)
    ensures multiset(Swapped(work, i, j)) == multiset(work)
    ensures !ReadsAlike(rules, Process(rules, store, work), Process(rules, store, Swapped(work, i, j)))
  {
    var swapped := Swapped(work, i, j);
    SwappedPermutes(work, i, j);
    RivalsSwapped(store, work, i, j);
    RivalDecides(rules, store, work, i, j, y);
    if Process(rules, store, swapped).Swept? {
      RivalDecides(rules, store, swapped, i, j, x);
    }
  }

  /**
   Distinct ids are needed for the order of a worklist not to matter: wherever an id has two definitions and no third,
   of an ancestor that is registered and not redefined, and they make datasources that read differently, some
   other order of the worklist reads differently.
   */
  lemma RepeatedIdsDependOnOrder(store: Store<DatasourceView>, work: seq<Definition<DatasourceView>>, i: nat, j: nat)
    returns (reordered: seq<Definition<DatasourceView>>)
    requires Rivals(store, work, i, j) && Process(DatasourceRules(), store, work).Swept?
    requires IsInheriting(work[i].body.id) && IsInheriting(work[j].body.id)
    requires var ancestor := Bound(store.items[work[i].source]);
             && Mergeable(work[i].body, ancestor) && Mergeable(work[j].body, ancestor)
             && Bound(Inherited(work[i].body, ancestor)) != Bound(Inherited(work[j].body, ancestor))
    ensures multiset(reordered) == multiset(work)
    ensures !ReadsAlike(DatasourceRules(), Process(DatasourceRules(), store, work),
                                           Process(DatasourceRules(), store, reordered))
  {
    var ancestor := Bound(store.items[work[i].source]);
    ReadingIsIdempotent();
    reordered := Swapped(work, i, j);
    RivalsReadDifferently(DatasourceRules(), store, work, i, j, Inherited(work[i].body, ancestor),
                          Inherited(work[j].body, ancestor));
  }
}
