/**
 The serialized form of a provider: `writeData` writes a stream of records, `readData` rebuilds a provider
 from it (`ApplicationConfigProviderImpl`).
 */
module Snapshots {
  import opened Options
  import opened Seqs
  import opened Datasources
  import opened Inheritance
  import opened DatasourceChains
  import opened Config

  /** An object in the stream; the reader tells its kind by its class. */
  datatype Record =
    | PageMap(pages: map<string, Page>)
    | ActionMap(actions: map<string, map<string, Action>>)
    | DataSourceMap(items: map<string, DatasourceView>)
    | EventMap(events: map<string, Event>)
    | RootConfigObject(root: RootConfig)
    | Null
    | PlainText(text: string)
    | NameSet(names: set<string>)
    | ResourceMap(resources: map<string, string>)

  /** A provider none of whose fields has been set; empty maps stand for the null ones. */
  const UNREAD := Config(map[], map[], map[], None, None, None, Store(map[], map[]), [])

  /** `writeData`: the four maps, the root config even if it is null, then what there is of the rest. */
  function Written(c: Config): seq<Record>
  {
    WrittenMaps(c) + [if c.root.Some? then RootConfigObject(c.root.value) else Null] + WrittenOptions(c)
  }

  function WrittenMaps(c: Config): seq<Record>
  {
    [PageMap(c.pages), ActionMap(c.actions), DataSourceMap(c.store.items), EventMap(c.events)]
  }

  function WrittenOptions(c: Config): seq<Record>
  {
    (if c.defaultPage.Some? then [PlainText(c.defaultPage.value)] else [])
    + (if c.sessionParams.Some? then [NameSet(c.sessionParams.value)] else [])
  }

  /** One turn of the loop of `readData`. */
  function Take(c: Config, r: Record): Config
  {
    match r
    case PageMap(pages) => c.(pages := pages)
    case ActionMap(actions) => c.(actions := actions)
    case DataSourceMap(items) => c.(store := c.store.(items := items))
    case EventMap(events) => c.(events := events)
    case RootConfigObject(root) => c.(root := Some(root))
    case Null => c
    case PlainText(text) => c.(defaultPage := Some(text))
    case NameSet(names) => c.(sessionParams := Some(names))
    case ResourceMap(resources) => c.(store := c.store.(resources := resources))
  }

  /** `readData`: stops at the end of the stream and at a null object. */
  function Restored(c: Config, records: seq<Record>): Config
    decreases |records|
  {
    if records == [] || records[0].Null? then c else Restored(Take(c, records[0]), records[1..])
  }

  /** Records without a null are read before those behind them. */
  lemma {:induction false} ReadConcat(c: Config, first: seq<Record>, rest: seq<Record>)
    requires forall r :: r in first ==> !r.Null?
    ensures Restored(c, first + rest) == Restored(Restored(c, first), rest)
    decreases |first|
  {
    if first == [] {
      Empty(rest);
    } else {
      ConsConcat(first, rest);
      ReadConcat(Take(c, first[0]), first[1..], rest);
    }
  }

  lemma ReadMore(c: Config, r: Record, rest: seq<Record>)
    ensures Restored(c, [r] + rest) == if r.Null? then c else Restored(Take(c, r), rest)
  {
    ConsConcat([r], rest);
    Empty(rest);
  }

  lemma ReadMaps(c: Config, target: Config)
    ensures Restored(target, WrittenMaps(c))
         == target.(pages := c.pages, actions := c.actions, events := c.events,
                    store := target.store.(items := c.store.items))
  {
    var p, a, d, e := PageMap(c.pages), ActionMap(c.actions), DataSourceMap(c.store.items), EventMap(c.events);
    assert WrittenMaps(c) == [p] + [a, d, e] && [a, d, e] == [a] + [d, e] && [d, e] == [d] + [e] && [e] == [e] + [];
    ReadMore(target, p, [a, d, e]);
    ReadMore(Take(target, p), a, [d, e]);
    ReadMore(Take(Take(target, p), a), d, [e]);
    ReadMore(Take(Take(Take(target, p), a), d), e, []);
  }

  lemma ReadOptions(c: Config, target: Config)
    ensures Restored(target, WrittenOptions(c))
         == target.(defaultPage := c.defaultPage.OrElse(target.defaultPage),
                    sessionParams := c.sessionParams.OrElse(target.sessionParams))
  {
    var names := if c.sessionParams.Some? then [NameSet(c.sessionParams.value)] else [];
    Empty(names);
    var t := target.(defaultPage := c.defaultPage.OrElse(target.defaultPage));
    if c.defaultPage.Some? {
      ReadMore(target, PlainText(c.defaultPage.value), names);
    }
    if c.sessionParams.Some? {
      ReadMore(t, NameSet(c.sessionParams.value), []);
    }
  }

  /**
   Reading back what was written. With a root config everything that was written is restored. Without one
   the reader stops at the null in its place, so the four maps are restored but default page and session
   params are left as they were. Resource names and the worklist are never written.
   */
  lemma ReadWritten(c: Config, target: Config)
    ensures var maps := target.(pages := c.pages, actions := c.actions, events := c.events,
                                store := target.store.(items := c.store.items));
            Restored(target, Written(c))
            == if c.root.None? then maps
               else maps.(root := c.root,
                          defaultPage := c.defaultPage.OrElse(target.defaultPage),
                          sessionParams := c.sessionParams.OrElse(target.sessionParams))
  {
    var maps := Restored(target, WrittenMaps(c));
    var root := if c.root.Some? then RootConfigObject(c.root.value) else Null;
    ReadMaps(c, target);
    ReadConcat(target, WrittenMaps(c), [root] + WrittenOptions(c));
    Assoc(WrittenMaps(c), [root], WrittenOptions(c));
    ReadMore(maps, root, WrittenOptions(c));
    ReadOptions(c, Take(maps, root));
  }

  /**
   What a clone of a loaded provider knows: all of it but the resource names. If the application has no root
   config, the clone has no default page and no session params either.
   */
  lemma ClonedState(files: seq<File>)
    requires ReadAll(files).Some?
    ensures var c := InheritAll(ReadAll(files).value);
            Restored(UNREAD, Written(c))
            == c.(store := c.store.(resources := map[]),
                  defaultPage := if c.root.Some? then c.defaultPage else None,
                  sessionParams := if c.root.Some? then c.sessionParams else None)
  {
    ReadWritten(InheritAll(ReadAll(files).value), UNREAD);
  }

  // ---------- reads ----------

  /** What `getDatasource` has made of the registered datasources after any number of reads. */
  function AfterReads(store: Store<DatasourceView>, ids: seq<string>): Store<DatasourceView>
  {
    if ids == [] then store
    else
      var before, id := AfterReads(store, ids[..|ids| - 1]), ids[|ids| - 1];
      if id in before.items then Inheritance.Read(DatasourceRules(), before, id) else before
  }

  /**
   Whatever was read from a provider before, and even if it was written to a snapshot and read back in
   between, `getDatasource` returns the same.
   */
  lemma {:induction false} ReadsCommute(store: Store<DatasourceView>, ids: seq<string>)
    ensures AfterReads(store, ids).items.Keys == store.items.Keys
    ensures forall id :: id in store.items ==> Bound(AfterReads(store, ids).items[id]) == Bound(store.items[id])
  {
    if ids != [] {
      var before, last := AfterReads(store, ids[..|ids| - 1]), ids[|ids| - 1];
      ReadsCommute(store, ids[..|ids| - 1]);
      if last in before.items {
        BoundTwice(before.items[last]);
      }
    }
  }
}
