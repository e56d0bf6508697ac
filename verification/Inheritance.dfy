/**
 The fixpoint engine of `ApplicationConfigProviderImpl.processInheritance`: sweeps over a worklist of
 inheriting definitions until it is empty or a sweep makes no progress. What a datasource is, how it is
 read and how it is merged are left open here; module DatasourceChains fills them in.
 */
module Inheritance {
  import opened Options
  import opened Seqs

  /** An inheriting datasource with the two parts of its id and the resource it was read from. */
  datatype Definition<T> = Definition(target: string, source: string, body: T, resource: string)

  /** The registered datasources and the resource names. */
  datatype Store<T> = Store(items: map<string, T>, resources: map<string, string>)

  /** What reading makes of a registered datasource, and what a definition and its ancestor make together, if anything. */
  datatype Rules<!T> = Rules(bind: T -> T, merge: (T, T) -> Option<T>)

  /** A sweep ends with the definitions it had to leave, or is cut short by an error in `inherit`. */
  datatype Outcome<T> = Swept(store: Store<T>, left: seq<Definition<T>>) | Broken(store: Store<T>)

  function DatasourceKey(id: string): string
  {
    "datasource:" + id
  }

  /** `addDataSource` */
  function Register<T>(store: Store<T>, id: string, item: T, resource: string): Store<T>
  {
    Store(store.items[id := item], store.resources[DatasourceKey(id) := resource])
  }

  /** `getDatasource` on a registered id: the registered datasource gets its bindings. */
  function Read<T>(rules: Rules<T>, store: Store<T>, id: string): Store<T>
    requires id in store.items
  {
    store.(items := store.items[id := rules.bind(store.items[id])])
  }

  /** One turn of the inner loop. */
  function Visit<T>(rules: Rules<T>, sofar: Outcome<T>, d: Definition<T>): Outcome<T>
  {
    if sofar.Broken? then sofar
    else if d.source !in sofar.store.items then Swept(sofar.store, sofar.left + [d])
    else
      var store := Read(rules, sofar.store, d.source);
      match rules.merge(d.body, store.items[d.source])
      case None => Broken(store)
      case Some(item) => Swept(Register(store, d.target, item, d.resource), sofar.left)
  }

  /** The inner loop over the whole worklist. */
  function Sweep<T>(rules: Rules<T>, store: Store<T>, work: seq<Definition<T>>): Outcome<T>
  {
    if work == [] then Swept(store, [])
    else Visit(rules, Sweep(rules, store, work[..|work| - 1]), work[|work| - 1])
  }

  lemma SweepTurn<T>(rules: Rules<T>, store: Store<T>, work: seq<Definition<T>>, i: nat)
    requires i < |work|
    ensures Sweep(rules, store, work[..i + 1]) == Visit(rules, Sweep(rules, store, work[..i]), work[i])
  {
    TakeOne(work, i);
    Snoc(work[..i], work[i]);
  }

  lemma SweepBreaks<T>(rules: Rules<T>, store: Store<T>, work: seq<Definition<T>>, i: nat)
    requires i <= |work| && Sweep(rules, store, work[..i]).Broken?
    ensures Sweep(rules, store, work) == Sweep(rules, store, work[..i])
    decreases |work| - i
  {
    if i == |work| {
      TakeAll(work);
    } else {
      SweepTurn(rules, store, work, i);
      SweepBreaks(rules, store, work, i + 1);
    }
  }

  lemma {:induction false} SweepLeft<T>(rules: Rules<T>, store: Store<T>, work: seq<Definition<T>>)
    requires Sweep(rules, store, work).Swept?
    ensures |Sweep(rules, store, work).left| <= |work|
    ensures forall d :: d in Sweep(rules, store, work).left ==> d in work
  {
    if work != [] {
      var init, d := Unsnoc(work);
      SweepLeft(rules, store, init);
    }
  }

  /** A sweep that leaves as much as it was given has changed nothing: no ancestor was there. */
  lemma {:induction false} SweepStuck<T>(rules: Rules<T>, store: Store<T>, work: seq<Definition<T>>)
    requires Sweep(rules, store, work).Swept? && |Sweep(rules, store, work).left| >= |work|
    ensures Sweep(rules, store, work) == Swept(store, work)
    ensures forall d :: d in work ==> d.source !in store.items
  {
    if work != [] {
      var init, d := Unsnoc(work);
      SweepLeft(rules, store, init);
      SweepStuck(rules, store, init);
    }
  }

  /** `processInheritance`: sweep until nothing is left or a sweep leaves as much as it was given. */
  function Process<T>(rules: Rules<T>, store: Store<T>, work: seq<Definition<T>>): Outcome<T>
    decreases |work|
  {
    if work == [] then Swept(store, [])
    else
      match Sweep(rules, store, work)
      case Broken(s) => Broken(s)
      case Swept(s, left) => if |work| <= |left| then Swept(s, []) else Process(rules, s, left)
  }

  // ---------- resource names ----------

  /** Every registered datasource has the name of the resource it came from. */
  ghost predicate AllNamed<T>(store: Store<T>)
  {
    forall id :: id in store.items ==> DatasourceKey(id) in store.resources
  }

  /** A sweep names whatever it registers and forgets no name. */
  lemma {:induction false} SweepNames<T>(rules: Rules<T>, store: Store<T>, work: seq<Definition<T>>)
    requires AllNamed(store)
    ensures AllNamed(Sweep(rules, store, work).store)
    ensures store.resources.Keys <= Sweep(rules, store, work).store.resources.Keys
  {
    if work != [] {
      SweepNames(rules, store, work[..|work| - 1]);
    }
  }

  lemma {:induction false} ProcessNames<T>(rules: Rules<T>, store: Store<T>, work: seq<Definition<T>>)
    requires AllNamed(store)
    ensures AllNamed(Process(rules, store, work).store)
    ensures store.resources.Keys <= Process(rules, store, work).store.resources.Keys
    decreases |work|
  {
    if work != [] {
      var s := Sweep(rules, store, work);
      SweepNames(rules, store, work);
      if s.Swept? && |s.left| < |work| {
        ProcessNames(rules, s.store, s.left);
      }
    }
  }

  /** Names other than those of datasources stay as they are. */
  lemma {:induction false} SweepKeepsName<T>(rules: Rules<T>, store: Store<T>, work: seq<Definition<T>>, key: string)
    requires key in store.resources && forall id :: key != DatasourceKey(id)
    ensures var s := Sweep(rules, store, work).store;
            key in s.resources && s.resources[key] == store.resources[key]
  {
    if work != [] {
      SweepKeepsName(rules, store, work[..|work| - 1], key);
    }
  }

  lemma {:induction false} ProcessKeepsName<T>(rules: Rules<T>, store: Store<T>, work: seq<Definition<T>>, key: string)
    requires key in store.resources && forall id :: key != DatasourceKey(id)
    ensures var s := Process(rules, store, work).store;
            key in s.resources && s.resources[key] == store.resources[key]
    decreases |work|
  {
    if work != [] {
      var s := Sweep(rules, store, work);
      SweepKeepsName(rules, store, work, key);
      if s.Swept? && |s.left| < |work| {
        ProcessKeepsName(rules, s.store, s.left, key);
      }
    }
  }

  // ---------- which ids are there in the end ----------

  /** A chain of at most `depth` definitions leads from `id` down to one of the given ids. */
  ghost predicate Derivable<T(!new)>(ids: set<string>, work: seq<Definition<T>>, depth: nat, id: string)
  {
    id in ids || (depth > 0 && exists d :: d in work && d.target == id && Derivable(ids, work, depth - 1, d.source))
  }

  /** Some finite chain of definitions leads from `id` down to one of the given ids. */
  ghost predicate Resolvable<T(!new)>(ids: set<string>, work: seq<Definition<T>>, id: string)
  {
    exists depth :: Derivable(ids, work, depth, id)
  }

  lemma ResolvableStep<T(!new)>(ids: set<string>, work: seq<Definition<T>>, d: Definition<T>)
    requires d in work && Resolvable(ids, work, d.source)
    ensures Resolvable(ids, work, d.target)
  {
    var depth: nat :| Derivable(ids, work, depth, d.source);
    assert Derivable(ids, work, depth + 1, d.target);
  }

  /** The resolvable ids lie in every set that holds the given ids and is closed under the definitions. */
  lemma {:induction false} ResolvableIsLeast<T(!new)>(ids: set<string>, work: seq<Definition<T>>, closed: set<string>,
      depth: nat, id: string)
    requires ids <= closed && forall d :: d in work && d.source in closed ==> d.target in closed
    requires Derivable(ids, work, depth, id)
    ensures id in closed
  {
    if id !in ids {
      var d :| d in work && d.target == id && Derivable(ids, work, depth - 1, d.source);
      ResolvableIsLeast(ids, work, closed, depth - 1, d.source);
    }
  }

  lemma {:induction false} DerivableGrows<T(!new)>(ids: set<string>, work: seq<Definition<T>>,
      more: seq<Definition<T>>, depth: nat, id: string)
    requires forall d :: d in work ==> d in more
    requires Derivable(ids, work, depth, id)
    ensures Derivable(ids, more, depth, id) && Derivable(ids, more, depth + 1, id)
  {
    if id !in ids {
      var d :| d in work && d.target == id && Derivable(ids, work, depth - 1, d.source);
      DerivableGrows(ids, work, more, depth - 1, d.source);
    }
  }

  /** A sweep loses no id and registers whatever it finds the ancestor of. */
  lemma {:induction false} SweepRegisters<T>(rules: Rules<T>, store: Store<T>, work: seq<Definition<T>>)
    requires Sweep(rules, store, work).Swept?
    ensures var s := Sweep(rules, store, work);
            && store.items.Keys <= s.store.items.Keys
            && (forall d :: d in work ==> d in s.left || d.target in s.store.items)
            && (forall d :: d in work && d.source in store.items ==> d.target in s.store.items)
  {
    if work != [] {
      var init, d := Unsnoc(work);
      SweepRegisters(rules, store, init);
    }
  }

  /** Every id a sweep registers is justified by a chain. */
  lemma {:induction false} SweepIsJustified<T(!new)>(rules: Rules<T>, store: Store<T>, work: seq<Definition<T>>, id: string)
    requires Sweep(rules, store, work).Swept? && id in Sweep(rules, store, work).store.items
    ensures Resolvable(store.items.Keys, work, id)
  {
    if work == [] {
      assert Derivable(store.items.Keys, work, 0, id);
    } else {
      var init, d := Unsnoc(work);
      var below := if id in Sweep(rules, store, init).store.items then id else d.source;
      SweepIsJustified(rules, store, init, below);
      ResolvableGrows(store.items.Keys, init, d, below);
      if below != id {
        ResolvableStep(store.items.Keys, work, d);
      }
    }
  }

  lemma ResolvableGrows<T(!new)>(ids: set<string>, work: seq<Definition<T>>, d: Definition<T>, id: string)
    requires Resolvable(ids, work, id)
    ensures Resolvable(ids, work + [d], id) && d in work + [d]
  {
    var depth: nat :| Derivable(ids, work, depth, id);
    DerivableGrows(ids, work, work + [d], depth, id);
  }

  /** A sweep shortens every chain by at least one definition. */
  lemma {:induction false} SweepShortensChains<T(!new)>(rules: Rules<T>, store: Store<T>, work: seq<Definition<T>>,
      depth: nat, id: string)
    requires Sweep(rules, store, work).Swept?
    requires Derivable(store.items.Keys, work, depth + 1, id)
    ensures var s := Sweep(rules, store, work);
            Derivable(s.store.items.Keys, s.left, depth, id)
  {
    SweepRegisters(rules, store, work);
    if id !in store.items {
      var d :| d in work && d.target == id && Derivable(store.items.Keys, work, depth, d.source);
      if depth > 0 {
        SweepShortensChains(rules, store, work, depth - 1, d.source);
      }
    }
  }

  /** A sweep makes no new id reachable. */
  lemma {:induction false} SweepAddsNothing<T(!new)>(rules: Rules<T>, store: Store<T>, work: seq<Definition<T>>,
      depth: nat, id: string)
    requires Sweep(rules, store, work).Swept?
    requires var s := Sweep(rules, store, work); Derivable(s.store.items.Keys, s.left, depth, id)
    ensures Resolvable(store.items.Keys, work, id)
  {
    var s := Sweep(rules, store, work);
    if id in s.store.items {
      SweepIsJustified(rules, store, work, id);
    } else {
      SweepLeft(rules, store, work);
      var d :| d in s.left && d.target == id && Derivable(s.store.items.Keys, s.left, depth - 1, d.source);
      SweepAddsNothing(rules, store, work, depth - 1, d.source);
      ResolvableStep(store.items.Keys, work, d);
    }
  }

  /** Without progress only the registered ids can be reached: the definitions left are orphans or form cycles. */
  lemma {:induction false} StuckMeansDone<T(!new)>(ids: set<string>, work: seq<Definition<T>>, depth: nat, id: string)
    requires forall d :: d in work ==> d.source !in ids
    requires Derivable(ids, work, depth, id)
    ensures id in ids
  {
    if id !in ids {
      var d :| d in work && d.target == id && Derivable(ids, work, depth - 1, d.source);
      StuckMeansDone(ids, work, depth - 1, d.source);
    }
  }

  /**
   The ids after `processInheritance` are exactly the ids from which a finite chain of definitions leads
   down to a registered one, whatever the order of the worklist and even if ids repeat or clash.
   */
  lemma {:induction false} ProcessedKeys<T(!new)>(rules: Rules<T>, store: Store<T>, work: seq<Definition<T>>, id: string)
    requires Process(rules, store, work).Swept?
    ensures Process(rules, store, work).left == []
    ensures id in Process(rules, store, work).store.items <==> Resolvable(store.items.Keys, work, id)
    decreases |work|
  {
    if id in store.items {
      assert Derivable(store.items.Keys, work, 0, id);
    }
    if work == [] {
      if Resolvable(store.items.Keys, work, id) {
        var depth: nat :| Derivable(store.items.Keys, work, depth, id);
      }
    } else {
      var s := Sweep(rules, store, work);
      if |work| <= |s.left| {
        SweepStuck(rules, store, work);
        if Resolvable(store.items.Keys, work, id) {
          var depth: nat :| Derivable(store.items.Keys, work, depth, id);
          StuckMeansDone(store.items.Keys, work, depth, id);
        }
      } else {
        SweepKeepsResolvable(rules, store, work, id);
        ProcessedKeys(rules, s.store, s.left, id);
      }
    }
  }

  /** After a sweep the same ids can still be reached, no more and no fewer. */
  lemma SweepKeepsResolvable<T(!new)>(rules: Rules<T>, store: Store<T>, work: seq<Definition<T>>, id: string)
    requires Sweep(rules, store, work).Swept?
    ensures var s := Sweep(rules, store, work);
            Resolvable(s.store.items.Keys, s.left, id) <==> Resolvable(store.items.Keys, work, id)
  {
    var s := Sweep(rules, store, work);
    if Resolvable(store.items.Keys, work, id) {
      var depth: nat :| Derivable(store.items.Keys, work, depth, id);
      DerivableGrows(store.items.Keys, work, work, depth, id);
      SweepShortensChains(rules, store, work, depth, id);
    }
    if Resolvable(s.store.items.Keys, s.left, id) {
      var depth: nat :| Derivable(s.store.items.Keys, s.left, depth, id);
      SweepAddsNothing(rules, store, work, depth, id);
    }
  }

  // ---------- how long it takes ----------

  /** Rounds of the outer loop, ancestor lookups and calls of `inherit`. */
  datatype Effort = Effort(rounds: nat, lookups: nat, merges: nat)

  /** The effort of `processInheritance`; a round cut short by an error is counted as a whole. */
  ghost function EffortOf<T>(rules: Rules<T>, store: Store<T>, work: seq<Definition<T>>): Effort
    decreases |work|
  {
    if work == [] then Effort(0, 0, 0)
    else
      match Sweep(rules, store, work)
      case Broken(_) => Effort(1, |work|, |work|)
      case Swept(s, left) =>
        if |work| <= |left| then Effort(1, |work|, 0)
        else
          var rest := EffortOf(rules, s, left);
          Effort(1 + rest.rounds, |work| + rest.lookups, |work| - |left| + rest.merges)
  }

  /** At most n rounds, n(n+1)/2 lookups, and every definition is inherited at most once. */
  lemma {:induction false} EffortIsBounded<T>(rules: Rules<T>, store: Store<T>, work: seq<Definition<T>>)
    ensures var e, n := EffortOf(rules, store, work), |work|;
            e.rounds <= n && 2 * e.lookups <= n * (n + 1) && e.merges <= n
    decreases |work|
  {
    var n := |work|;
    var s := Sweep(rules, store, work);
    if n > 0 && s.Swept? && |s.left| < n {
      var m := |s.left|;
      EffortIsBounded(rules, s.store, s.left);
      GaussStep(m, n);
    }
    assert n > 0 ==> 2 * n <= n * (n + 1);
  }

  /** The definitions a sweep merges, each as often as it does so. */
  ghost function MergedInSweep<T>(rules: Rules<T>, store: Store<T>, work: seq<Definition<T>>): multiset<Definition<T>>
  {
    if work == [] then multiset{}
    else
      var init, d := work[..|work| - 1], work[|work| - 1];
      var before := Sweep(rules, store, init);
      MergedInSweep(rules, store, init)
      + if before.Swept? && d.source in before.store.items && Visit(rules, before, d).Swept? then multiset{d} else multiset{}
  }

  /** The definitions that `processInheritance` merges, each as often as it does so. */
  ghost function MergedInAll<T>(rules: Rules<T>, store: Store<T>, work: seq<Definition<T>>): multiset<Definition<T>>
    decreases |work|
  {
    if work == [] then multiset{}
    else
      var s := Sweep(rules, store, work);
      MergedInSweep(rules, store, work)
      + if s.Swept? && |s.left| < |work| then MergedInAll(rules, s.store, s.left) else multiset{}
  }

  /** A sweep merges a definition or leaves it, once for every time it is on the worklist. */
  lemma {:induction false} SweepAccounts<T>(rules: Rules<T>, store: Store<T>, work: seq<Definition<T>>)
    ensures var s, merged := Sweep(rules, store, work), MergedInSweep(rules, store, work);
            && (s.Swept? ==> merged + multiset(s.left) == multiset(work))
            && merged <= multiset(work)
  {
    if work != [] {
      var init, d := Unsnoc(work);
      SweepAccounts(rules, store, init);
      assert multiset(init + [d]) == multiset(init) + multiset{d};
    }
  }

  /** Each definition is inherited at most once for every time it is on the worklist. */
  lemma {:induction false} EachInheritedOnce<T>(rules: Rules<T>, store: Store<T>, work: seq<Definition<T>>)
    ensures MergedInAll(rules, store, work) <= multiset(work)
    decreases |work|
  {
    if work != [] {
      var s := Sweep(rules, store, work);
      SweepAccounts(rules, store, work);
      if s.Swept? && |s.left| < |work| {
        EachInheritedOnce(rules, s.store, s.left);
      }
    }
  }

  lemma GaussStep(m: nat, n: nat)
    requires m < n
    ensures 2 * n + m * (m + 1) <= n * (n + 1)
  {
    assert m * (m + 1) <= (n - 1) * n;
  }

  /** The state after the given number of rounds. */
  ghost function AfterRounds<T>(rules: Rules<T>, store: Store<T>, work: seq<Definition<T>>, rounds: nat): Outcome<T>
    decreases rounds
  {
    if rounds == 0 || work == [] then Swept(store, work)
    else
      match Sweep(rules, store, work)
      case Broken(s) => Broken(s)
      case Swept(s, left) =>
        if |work| <= |left| then Swept(s, []) else AfterRounds(rules, s, left, rounds - 1)
  }

  /** An id at chain depth k is registered by the end of round k. */
  lemma {:induction false} ResolvedByDepth<T(!new)>(rules: Rules<T>, store: Store<T>, work: seq<Definition<T>>,
      depth: nat, id: string)
    requires Derivable(store.items.Keys, work, depth, id)
    requires AfterRounds(rules, store, work, depth).Swept?
    ensures id in AfterRounds(rules, store, work, depth).store.items
    decreases depth
  {
    if depth > 0 && work != [] {
      var s := Sweep(rules, store, work);
      if |work| <= |s.left| {
        SweepStuck(rules, store, work);
        StuckMeansDone(store.items.Keys, work, depth, id);
      } else {
        SweepShortensChains(rules, store, work, depth - 1, id);
        ResolvedByDepth(rules, s.store, s.left, depth - 1, id);
      }
    }
  }

  // ---------- what the ids mean in the end ----------

  /** No two definitions have the same descendant id, and none clashes with a registered id. */
  ghost predicate TargetsDistinct<T>(ids: set<string>, work: seq<Definition<T>>)
  {
    && (forall i, j :: 0 <= i < j < |work| ==> work[i].target != work[j].target)
    && (forall i :: 0 <= i < |work| ==> work[i].target !in ids)
  }

  ghost function DefinitionOf<T>(work: seq<Definition<T>>, id: string): (r: Option<Definition<T>>)
    ensures r.Some? ==> r.value in work && r.value.target == id
  {
    if work == [] then None
    else if work[0].target == id then Some(work[0])
    else DefinitionOf(work[1..], id)
  }

  /** What an id stands for: nothing within the given depth, a definition that cannot be merged, or a datasource. */
  datatype Meaning<T> = Unknown | Fails | Means(item: T)

  /** The meaning of an id, found by following its chain and without any worklist. */
  ghost function MeaningOf<T>(rules: Rules<T>, base: map<string, T>, work: seq<Definition<T>>, depth: nat, id: string):
    Meaning<T>
  {
    if id in base then Means(rules.bind(base[id]))
    else if depth == 0 then Unknown
    else
      match DefinitionOf(work, id)
      case None => Unknown
      case Some(d) =>
        match MeaningOf(rules, base, work, depth - 1, d.source)
        case Unknown => Unknown
        case Fails => Unknown
        case Means(a) =>
          match rules.merge(d.body, a)
          case None => Fails
          case Some(item) => Means(rules.bind(item))
  }

  lemma {:induction false} MeaningIsStable<T>(rules: Rules<T>, base: map<string, T>, work: seq<Definition<T>>,
      depth: nat, deeper: nat, id: string)
    requires depth <= deeper && MeaningOf(rules, base, work, depth, id) != Unknown
    ensures MeaningOf(rules, base, work, deeper, id) == MeaningOf(rules, base, work, depth, id)
  {
    if id !in base {
      var d := DefinitionOf(work, id).value;
      MeaningIsStable(rules, base, work, depth - 1, deeper - 1, d.source);
    }
  }

  /** The datasource an id stands for at some depth. */
  ghost predicate Denotes<T>(rules: Rules<T>, base: map<string, T>, work: seq<Definition<T>>, id: string, item: T)
  {
    exists depth :: MeaningOf(rules, base, work, depth, id) == Means(item)
  }

  /** Some resolvable definition cannot be merged with what its ancestor stands for. */
  ghost predicate SomeFails<T>(rules: Rules<T>, base: map<string, T>, work: seq<Definition<T>>)
  {
    exists depth, id :: MeaningOf(rules, base, work, depth, id) == Fails
  }

  lemma {:induction false} DefinitionIsUnique<T>(work: seq<Definition<T>>, d: Definition<T>)
    requires TargetsDistinct({}, work)
    ensures d in work <==> DefinitionOf(work, d.target) == Some(d)
  {
    if work != [] {
      DefinitionIsUnique(work[1..], d);
      assert work == [work[0]] + work[1..];
    }
  }

  /** Merging a definition with what its ancestor stands for gives what the definition's id stands for. */
  lemma MeaningStep<T>(rules: Rules<T>, base: map<string, T>, work: seq<Definition<T>>, d: Definition<T>, a: T)
    requires TargetsDistinct(base.Keys, work) && d in work && Denotes(rules, base, work, d.source, a)
    ensures match rules.merge(d.body, a)
            case None => SomeFails(rules, base, work)
            case Some(item) => Denotes(rules, base, work, d.target, rules.bind(item))
  {
    var depth: nat :| MeaningOf(rules, base, work, depth, d.source) == Means(a);
    DefinitionIsUnique(work, d);
    match rules.merge(d.body, a)
    case None => assert MeaningOf(rules, base, work, depth + 1, d.target) == Fails;
    case Some(item) => assert MeaningOf(rules, base, work, depth + 1, d.target) == Means(rules.bind(item));
  }

  ghost predicate Idempotent<T(!new)>(rules: Rules<T>)
  {
    forall item :: rules.bind(rules.bind(item)) == rules.bind(item)
  }

  /** Every registered datasource reads as what its id stands for. */
  ghost predicate Faithful<T>(rules: Rules<T>, base: map<string, T>, work: seq<Definition<T>>, store: Store<T>)
  {
    forall id :: id in store.items ==> Denotes(rules, base, work, id, rules.bind(store.items[id]))
  }

  lemma VisitIsFaithful<T(!new)>(rules: Rules<T>, base: map<string, T>, all: seq<Definition<T>>, sofar: Outcome<T>,
      d: Definition<T>)
    requires TargetsDistinct(base.Keys, all) && Idempotent(rules) && d in all
    requires sofar.Swept? && Faithful(rules, base, all, sofar.store)
    ensures Visit(rules, sofar, d).Swept? ==> Faithful(rules, base, all, Visit(rules, sofar, d).store)
    ensures Visit(rules, sofar, d).Broken? ==> SomeFails(rules, base, all)
  {
    if d.source in sofar.store.items {
      var store := Read(rules, sofar.store, d.source);
      var ancestor := store.items[d.source];
      MeaningStep(rules, base, all, d, ancestor);
    }
  }

  lemma {:induction false} SweepIsFaithful<T(!new)>(rules: Rules<T>, base: map<string, T>, all: seq<Definition<T>>,
      store: Store<T>, work: seq<Definition<T>>)
    requires TargetsDistinct(base.Keys, all) && Idempotent(rules) && forall d :: d in work ==> d in all
    requires Faithful(rules, base, all, store)
    ensures Sweep(rules, store, work).Swept? ==> Faithful(rules, base, all, Sweep(rules, store, work).store)
    ensures Sweep(rules, store, work).Broken? ==> SomeFails(rules, base, all)
  {
    if work != [] {
      var init, d := Unsnoc(work);
      SweepIsFaithful(rules, base, all, store, init);
      if Sweep(rules, store, init).Swept? {
        VisitIsFaithful(rules, base, all, Sweep(rules, store, init), d);
      }
    }
  }

  lemma {:induction false} ProcessIsFaithful<T(!new)>(rules: Rules<T>, base: map<string, T>, all: seq<Definition<T>>,
      store: Store<T>, work: seq<Definition<T>>)
    requires TargetsDistinct(base.Keys, all) && Idempotent(rules) && forall d :: d in work ==> d in all
    requires Faithful(rules, base, all, store)
    ensures Process(rules, store, work).Swept? ==> Faithful(rules, base, all, Process(rules, store, work).store)
    ensures Process(rules, store, work).Broken? ==> SomeFails(rules, base, all)
    decreases |work|
  {
    if work != [] {
      SweepIsFaithful(rules, base, all, store, work);
      var s := Sweep(rules, store, work);
      if s.Swept? && |s.left| < |work| {
        SweepLeft(rules, store, work);
        ProcessIsFaithful(rules, base, all, s.store, s.left);
      }
    }
  }

  /** What has a meaning or fails can be reached by a chain. */
  lemma {:induction false} MeaningIsDerivable<T(!new)>(rules: Rules<T>, base: map<string, T>, work: seq<Definition<T>>,
      depth: nat, id: string)
    requires MeaningOf(rules, base, work, depth, id) != Unknown
    ensures Derivable(base.Keys, work, depth, id)
  {
    if id !in base {
      var d := DefinitionOf(work, id).value;
      MeaningIsDerivable(rules, base, work, depth - 1, d.source);
    }
  }

  lemma MeaningIsUnique<T>(rules: Rules<T>, base: map<string, T>, work: seq<Definition<T>>, depth: nat, other: nat,
      id: string)
    requires MeaningOf(rules, base, work, depth, id) != Unknown && MeaningOf(rules, base, work, other, id) != Unknown
    ensures MeaningOf(rules, base, work, depth, id) == MeaningOf(rules, base, work, other, id)
  {
    var deeper := if depth <= other then other else depth;
    MeaningIsStable(rules, base, work, depth, deeper, id);
    MeaningIsStable(rules, base, work, other, deeper, id);
  }

  /**
   With distinct descendant ids `processInheritance` runs into an error exactly if some chain contains a
   definition that cannot be merged, and otherwise every id reads as what its chain makes of it.
   */
  lemma ProcessedMeaning<T(!new)>(rules: Rules<T>, store: Store<T>, work: seq<Definition<T>>)
    requires TargetsDistinct(store.items.Keys, work) && Idempotent(rules)
    ensures Process(rules, store, work).Broken? <==> SomeFails(rules, store.items, work)
    ensures Process(rules, store, work).Swept? ==>
              forall id, item :: (id in Process(rules, store, work).store.items
                                  && rules.bind(Process(rules, store, work).store.items[id]) == item)
                            <==> Denotes(rules, store.items, work, id, item)
  {
    var base := store.items;
    forall id | id in base
      ensures Denotes(rules, base, work, id, rules.bind(base[id]))
    {
      assert MeaningOf(rules, base, work, 0, id) == Means(rules.bind(base[id]));
    }
    ProcessIsFaithful(rules, base, work, store, work);
    var r := Process(rules, store, work);
    if r.Swept? {
      forall depth: nat, id | MeaningOf(rules, base, work, depth, id) != Unknown
        ensures id in r.store.items
        ensures MeaningOf(rules, base, work, depth, id) == Means(rules.bind(r.store.items[id]))
      {
        MeaningIsDerivable(rules, base, work, depth, id);
        ProcessedKeys(rules, store, work, id);
        var other: nat :| MeaningOf(rules, base, work, other, id) == Means(rules.bind(r.store.items[id]));
        MeaningIsUnique(rules, base, work, depth, other, id);
      }
    }
  }

  // ---------- chains ----------

  /** The definitions lead from `id` down to `root`, each naming the next one as its ancestor. */
  ghost predicate Linked<T>(chain: seq<Definition<T>>, id: string, root: string)
  {
    if chain == [] then id == root
    else chain[0].target == id && Linked(chain[1..], chain[0].source, root)
  }

  /** What the definitions of a chain, the nearest one first, make of the datasource at its far end. */
  ghost function Fold<T>(rules: Rules<T>, chain: seq<Definition<T>>, base: T): Option<T>
  {
    if chain == [] then Some(rules.bind(base))
    else
      match Fold(rules, chain[1..], base)
      case None => None
      case Some(ancestor) =>
        match rules.merge(chain[0].body, ancestor)
        case None => None
        case Some(item) => Some(rules.bind(item))
  }

  /** Behind every meaning there is a chain of definitions down to a registered datasource. */
  lemma {:induction false} ChainBehind<T>(rules: Rules<T>, base: map<string, T>, work: seq<Definition<T>>, depth: nat,
      id: string) returns (chain: seq<Definition<T>>, root: string)
    requires MeaningOf(rules, base, work, depth, id).Means?
    ensures root in base && Linked(chain, id, root) && forall d :: d in chain ==> d in work
    ensures Fold(rules, chain, base[root]) == Some(MeaningOf(rules, base, work, depth, id).item)
  {
    if id in base {
      chain, root := [], id;
    } else {
      var d := DefinitionOf(work, id).value;
      var below, end := ChainBehind(rules, base, work, depth - 1, d.source);
      chain, root := [d] + below, end;
      assert chain[1..] == below;
    }
  }

  // ---------- the order of the worklist ----------

  /** The chain yields what reading the item yields. */
  ghost predicate ChainYields<T>(rules: Rules<T>, base: map<string, T>, all: seq<Definition<T>>, id: string, item: T,
      chain: seq<Definition<T>>, root: string)
  {
    && root in base && Linked(chain, id, root) && (forall d :: d in chain ==> d in all)
    && Fold(rules, chain, base[root]) == Some(rules.bind(item))
  }

  /** Everything registered comes from a chain of definitions down to what was registered at first. */
  ghost predicate AllChained<T(!new)>(rules: Rules<T>, base: map<string, T>, all: seq<Definition<T>>, store: Store<T>)
  {
    forall id :: id in store.items ==>
                   exists chain, root :: ChainYields(rules, base, all, id, store.items[id], chain, root)
  }

  lemma OneMoreLink<T>(rules: Rules<T>, base: map<string, T>, all: seq<Definition<T>>, d: Definition<T>, ancestor: T,
      item: T, chain: seq<Definition<T>>, root: string)
    requires d in all && ChainYields(rules, base, all, d.source, ancestor, chain, root)
    requires rules.merge(d.body, rules.bind(ancestor)) == Some(item)
    ensures ChainYields(rules, base, all, d.target, item, [d] + chain, root)
  {
    ConsConcat([d], chain);
    Empty(chain);
  }

  lemma ReadKeepsChains<T(!new)>(rules: Rules<T>, base: map<string, T>, all: seq<Definition<T>>, store: Store<T>,
      source: string)
    requires Idempotent(rules) && AllChained(rules, base, all, store) && source in store.items
    ensures AllChained(rules, base, all, Read(rules, store, source))
  {
    var after := Read(rules, store, source);
    forall id | id in after.items
      ensures exists chain, root :: ChainYields(rules, base, all, id, after.items[id], chain, root)
    {
      var chain, root :| ChainYields(rules, base, all, id, store.items[id], chain, root);
      assert ChainYields(rules, base, all, id, after.items[id], chain, root);
    }
  }

  /** Neither reading nor merging breaks the chains, whether or not ids are distinct. */
  lemma VisitKeepsChains<T(!new)>(rules: Rules<T>, base: map<string, T>, all: seq<Definition<T>>, sofar: Outcome<T>,
      d: Definition<T>)
    requires Idempotent(rules) && d in all && AllChained(rules, base, all, sofar.store)
    ensures AllChained(rules, base, all, Visit(rules, sofar, d).store)
  {
    if sofar.Swept? && d.source in sofar.store.items {
      var ancestor := sofar.store.items[d.source];
      ReadKeepsChains(rules, base, all, sofar.store, d.source);
      var merged := rules.merge(d.body, rules.bind(ancestor));
      if merged.Some? {
        var chain, root :| ChainYields(rules, base, all, d.source, ancestor, chain, root);
        OneMoreLink(rules, base, all, d, ancestor, merged.value, chain, root);
      }
    }
  }

  lemma {:induction false} SweepKeepsChains<T(!new)>(rules: Rules<T>, base: map<string, T>, all: seq<Definition<T>>,
      store: Store<T>, work: seq<Definition<T>>)
    requires Idempotent(rules) && (forall d :: d in work ==> d in all) && AllChained(rules, base, all, store)
    ensures AllChained(rules, base, all, Sweep(rules, store, work).store)
  {
    if work != [] {
      var init, d := Unsnoc(work);
      SweepKeepsChains(rules, base, all, store, init);
      VisitKeepsChains(rules, base, all, Sweep(rules, store, init), d);
    }
  }

  lemma {:induction false} ProcessKeepsChains<T(!new)>(rules: Rules<T>, base: map<string, T>, all: seq<Definition<T>>,
      store: Store<T>, work: seq<Definition<T>>)
    requires Idempotent(rules) && (forall d :: d in work ==> d in all) && AllChained(rules, base, all, store)
    ensures AllChained(rules, base, all, Process(rules, store, work).store)
    decreases |work|
  {
    if work != [] {
      var s := Sweep(rules, store, work);
      SweepKeepsChains(rules, base, all, store, work);
      if s.Swept? && |s.left| < |work| {
        SweepLeft(rules, store, work);
        ProcessKeepsChains(rules, base, all, s.store, s.left);
      }
    }
  }

  /** For any worklist, even one that repeats ids: whatever is registered in the end is the fold of a chain. */
  lemma EverythingIsChained<T(!new)>(rules: Rules<T>, store: Store<T>, work: seq<Definition<T>>)
    requires Idempotent(rules)
    ensures AllChained(rules, store.items, work, Process(rules, store, work).store)
  {
    forall id | id in store.items
      ensures ChainYields(rules, store.items, work, id, store.items[id], [], id)
    {
    }
    ProcessKeepsChains(rules, store.items, work, store, work);
  }

  /** Behind every failure there is a definition that cannot be merged with what a chain makes of its far end. */
  lemma FailureBehind<T>(rules: Rules<T>, base: map<string, T>, work: seq<Definition<T>>)
    returns (d: Definition<T>, chain: seq<Definition<T>>, root: string)
    requires SomeFails(rules, base, work)
    ensures d in work && root in base && Linked(chain, d.source, root) && forall e :: e in chain ==> e in work
    ensures Fold(rules, chain, base[root]).Some? && rules.merge(d.body, Fold(rules, chain, base[root]).value) == None
  {
    var depth: nat, id :| MeaningOf(rules, base, work, depth, id) == Fails;
    d := DefinitionOf(work, id).value;
    chain, root := ChainBehind(rules, base, work, depth - 1, d.source);
  }

  /** Every chain down to a registered datasource is what its near end means, unless some definition fails. */
  lemma {:induction false} FollowChain<T>(rules: Rules<T>, base: map<string, T>, work: seq<Definition<T>>,
      chain: seq<Definition<T>>, id: string, root: string)
    requires TargetsDistinct(base.Keys, work) && Linked(chain, id, root) && root in base
    requires forall d :: d in chain ==> d in work
    ensures || SomeFails(rules, base, work)
            || (Fold(rules, chain, base[root]).Some?
                && MeaningOf(rules, base, work, |chain|, id) == Means(Fold(rules, chain, base[root]).value))
  {
    if chain != [] {
      FollowChain(rules, base, work, chain[1..], chain[0].source, root);
      DefinitionIsUnique(work, chain[0]);
      var i :| 0 <= i < |work| && work[i] == chain[0];
      assert id !in base;
      assert MeaningOf(rules, base, work, |chain|, id) == Fails ==> SomeFails(rules, base, work);
    }
  }

  lemma DefinitionAfterReordering<T>(work: seq<Definition<T>>, reordered: seq<Definition<T>>, id: string)
    requires TargetsDistinct({}, work) && TargetsDistinct({}, reordered)
    requires multiset(work) == multiset(reordered)
    ensures DefinitionOf(work, id) == DefinitionOf(reordered, id)
  {
    assert forall d :: d in work <==> d in multiset(work);
    assert forall d :: d in reordered <==> d in multiset(reordered);
    var d, e := DefinitionOf(work, id), DefinitionOf(reordered, id);
    if d.Some? {
      DefinitionIsUnique(reordered, d.value);
    }
    if e.Some? {
      DefinitionIsUnique(work, e.value);
    }
  }

  lemma {:induction false} MeaningAfterReordering<T>(rules: Rules<T>, base: map<string, T>, work: seq<Definition<T>>,
      reordered: seq<Definition<T>>, depth: nat, id: string)
    requires TargetsDistinct({}, work) && TargetsDistinct({}, reordered)
    requires multiset(work) == multiset(reordered)
    ensures MeaningOf(rules, base, work, depth, id) == MeaningOf(rules, base, reordered, depth, id)
  {
    DefinitionAfterReordering(work, reordered, id);
    if id !in base && depth > 0 && DefinitionOf(work, id).Some? {
      MeaningAfterReordering(rules, base, work, reordered, depth - 1, DefinitionOf(work, id).value.source);
    }
  }

  lemma {:induction false} ReorderedTargetsDistinct<T(!new)>(ids: set<string>, work: seq<Definition<T>>,
      reordered: seq<Definition<T>>)
    requires TargetsDistinct(ids, work) && multiset(work) == multiset(reordered)
    ensures TargetsDistinct(ids, reordered)
  {
    assert forall d :: d in work <==> d in multiset(work);
    assert forall d :: d in reordered <==> d in multiset(reordered);
    forall j | 0 <= j < |reordered|
      ensures reordered[j].target !in ids
    {
      assert reordered[j] in work;
    }
    forall i, j | 0 <= i < j < |reordered|
      ensures reordered[i].target != reordered[j].target
    {
      if reordered[i].target == reordered[j].target {
        DefinitionIsUnique(work, reordered[i]);
        DefinitionIsUnique(work, reordered[j]);
        assert reordered[i] == reordered[j];
        Occurrences(reordered, i, j);
        OnlyOnce(work, reordered[i]);
      }
    }
  }

  lemma Occurrences<T>(s: seq<T>, i: nat, j: nat)
    requires i < j < |s| && s[i] == s[j]
    ensures multiset(s)[s[i]] >= 2
  {
    assert s == s[..j] + s[j..];
    assert s[..j][i] == s[i] && s[j..][0] == s[j];
  }

  lemma {:induction false} OnlyOnce<T>(work: seq<Definition<T>>, d: Definition<T>)
    requires TargetsDistinct({}, work)
    ensures multiset(work)[d] <= 1
  {
    if work != [] {
      OnlyOnce(work[1..], d);
      assert work == [work[0]] + work[1..];
      if work[0] == d {
        assert d !in work[1..];
      }
    }
  }

  lemma DenotesAfterReordering<T(!new)>(rules: Rules<T>, base: map<string, T>, work: seq<Definition<T>>,
      reordered: seq<Definition<T>>)
    requires TargetsDistinct({}, work) && TargetsDistinct({}, reordered)
    requires multiset(work) == multiset(reordered)
    ensures SomeFails(rules, base, work) <==> SomeFails(rules, base, reordered)
    ensures forall id, item :: Denotes(rules, base, work, id, item) <==> Denotes(rules, base, reordered, id, item)
  {
    forall depth: nat, id
      ensures MeaningOf(rules, base, work, depth, id) == MeaningOf(rules, base, reordered, depth, id)
    {
      MeaningAfterReordering(rules, base, work, reordered, depth, id);
    }
  }

  /** Two outcomes agree if both are errors or if they have the same ids and every id reads the same. */
  ghost predicate ReadsAlike<T>(rules: Rules<T>, r: Outcome<T>, s: Outcome<T>)
  {
    if r.Broken? || s.Broken? then r.Broken? && s.Broken?
    else
      && r.store.items.Keys == s.store.items.Keys
      && forall id :: id in r.store.items ==> rules.bind(r.store.items[id]) == rules.bind(s.store.items[id])
  }

  /** Neither the order of the worklist nor the resource names make a difference for what is read back. */
  lemma OrderDoesNotMatter<T(!new)>(rules: Rules<T>, store: Store<T>, other: Store<T>, work: seq<Definition<T>>,
      reordered: seq<Definition<T>>)
    requires TargetsDistinct(store.items.Keys, work) && Idempotent(rules)
    requires store.items == other.items && multiset(work) == multiset(reordered)
    ensures ReadsAlike(rules, Process(rules, store, work), Process(rules, other, reordered))
  {
    ReorderedTargetsDistinct(store.items.Keys, work, reordered);
    DenotesAfterReordering(rules, store.items, work, reordered);
    ProcessedMeaning(rules, store, work);
    ProcessedMeaning(rules, other, reordered);
    var r, s := Process(rules, store, work), Process(rules, other, reordered);
    if r.Swept? {
      forall id | id in r.store.items
        ensures id in s.store.items && rules.bind(r.store.items[id]) == rules.bind(s.store.items[id])
      {
        assert Denotes(rules, store.items, work, id, rules.bind(r.store.items[id]));
      }
      forall id | id in s.store.items
        ensures id in r.store.items
      {
        assert Denotes(rules, store.items, work, id, rules.bind(s.store.items[id]));
      }
    }
  }
}
