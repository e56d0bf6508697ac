/**
 `ApplicationConfigProviderImpl` as an object: reading the documents of an application, processing the
 inheritance of its datasources, writing the snapshot and building clones from it.
 */
module ConfigProvider {
  import opened Options
  import opened Seqs
  import opened InheritanceIds
  import opened FieldNodes
  import opened Datasources
  import opened InheritanceHelper
  import opened Inheritance
  import opened DatasourceChains
  import opened DatasourceRegistry
  import opened Config
  import opened Snapshots

  lemma NextFile(files: seq<File>, i: nat)
    requires i < |files| && ReadAll(files[..i]).Some?
    ensures var c := ReadAll(files[..i]).value;
            ReadAll(files[..i + 1]) == if Refused(c, files[i].document) then None else Some(ReadDocument(c, files[i]))
  {
    Snoc(files[..i], files[i]);
    TakeOne(files, i);
  }

  lemma RefusedAt(files: seq<File>, i: nat)
    requires i < |files| && ReadAll(files[..i]).Some? && ReadAll(files[..i + 1]).None?
    ensures ReadAll(files).None? && ReadUntilRefused(files) == ReadAll(files[..i]).value
  {
    TakeOne(files, i);
    SplitAt(files, i, files[i]);
    RefusedForGood(files[..i], files[i], files[i + 1..]);
  }

  lemma NextPage(c: Config, list: seq<Page>, resource: string, i: nat)
    requires i < |list|
    ensures AddPages(c, list[..i + 1], resource) == AddPage(AddPages(c, list[..i], resource), list[i], resource)
  {
    Snoc(list[..i], list[i]);
    TakeOne(list, i);
  }

  lemma NextEvent(c: Config, list: seq<Event>, resource: string, i: nat)
    requires i < |list|
    ensures AddEvents(c, list[..i + 1], resource) == AddEvent(AddEvents(c, list[..i], resource), list[i], resource)
  {
    Snoc(list[..i], list[i]);
    TakeOne(list, i);
  }

  lemma NextDatasource(c: Config, list: seq<DatasourceView>, resource: string, i: nat)
    requires i < |list|
    ensures AddDatasources(c, list[..i + 1], resource)
         == AddListed(AddDatasources(c, list[..i], resource), list[i], resource)
  {
    Snoc(list[..i], list[i]);
    TakeOne(list, i);
  }

  lemma NextAction(list: seq<Action>, i: nat)
    requires i < |list|
    ensures ActionIndex(list[..i + 1]) == ActionIndex(list[..i])[list[i].id := list[i]]
  {
    Snoc(list[..i], list[i]);
    TakeOne(list, i);
  }

  /** The loop of `addEvent` over the event's actions. */
  method IndexActions(list: seq<Action>) returns (index: map<string, Action>)
    ensures index == ActionIndex(list)
  {
    index := map[];
    for i := 0 to |list|
      invariant index == ActionIndex(list[..i])
    {
      NextAction(list, i);
      index := index[list[i].id := list[i]];
    }
    TakeAll(list);
  }

  lemma SameIndex(c: Config, e: Event, index: map<string, Action>, resource: string)
    requires index == ActionIndex(e.actions)
    ensures AddIndexed(c, e, index, resource) == AddEvent(c, e, resource)
  {
  }

  class Provider {
    var pages: map<string, Page>
    var events: map<string, Event>
    var actions: map<string, map<string, Action>>
    var root: Option<RootConfig>
    var sessionParams: Option<set<string>>
    var defaultPage: Option<string>
    var data: Option<seq<Record>>

    /** The datasources, the worklist and the resource names. */
    const registry: Registry

    const devMode: bool

    ghost predicate Valid()
      reads registry, registry.datasources.Values, Waiting(registry.descendants)
    {
      registry.Ready()
    }

    ghost function State(): Config
      requires Valid()
      reads this, registry, registry.datasources.Values, Waiting(registry.descendants), registry.Repr
    {
      Config(pages, events, actions, root, sessionParams, defaultPage,
             Store(registry.Contents(), registry.resources), registry.Work())
    }

    /** A provider none of whose fields has been set. */
    constructor Unread(devMode: bool)
      ensures this.devMode == devMode
      ensures Valid() && State() == UNREAD && data == None
      ensures fresh(registry) && registry.Repr == {} && registry.datasources == map[]
    {
      registry := new Registry();
      this.devMode := devMode;
      pages, events, actions := map[], map[], map[];
      root, sessionParams, defaultPage, data := None, None, None, None;
    }

    /** `addPage` */
    method ReadPage(p: Page, resource: string)
      requires Valid()
      modifies `pages, `defaultPage, registry`resources
      ensures Valid() && State() == AddPage(old(State()), p, resource)
    {
      registry.NameResource(PageKey(p.id), resource);
      label Named:
      pages := pages[p.id := p];
      if p.kind == Some("index") {
        defaultPage := Some(p.id);
      }
      registry.Kept@Named();
    }

    method ReadPages(list: seq<Page>, resource: string)
      requires Valid()
      modifies `pages, `defaultPage, registry`resources
      ensures Valid() && State() == AddPages(old(State()), list, resource)
    {
      for i := 0 to |list|
        invariant Valid() && State() == AddPages(old(State()), list[..i], resource)
      {
        NextPage(old(State()), list, resource, i);
        ReadPage(list[i], resource);
      }
      TakeAll(list);
    }

    /** `addEvent` */
    method ReadEvent(e: Event, resource: string)
      requires Valid()
      modifies `events, `actions, registry`resources
      ensures Valid() && State() == AddEvent(old(State()), e, resource)
    {
      SameIndex(State(), e, ActionIndex(e.actions), resource);
      var index := IndexActions(e.actions);
      registry.Kept();
      PutEvent(e, index, resource);
    }

    method PutEvent(e: Event, index: map<string, Action>, resource: string)
      requires Valid()
      modifies `events, `actions, registry`resources
      ensures Valid() && State() == AddIndexed(old(State()), e, index, resource)
    {
      registry.NameResource(EventKey(e.id), resource);
      label Named:
      events := events[e.id := e];
      actions := actions[e.id := index];
      registry.Kept@Named();
    }

    method ReadEvents(list: seq<Event>, resource: string)
      requires Valid()
      modifies `events, `actions, registry`resources
      ensures Valid() && State() == AddEvents(old(State()), list, resource)
    {
      for i := 0 to |list|
        invariant Valid() && State() == AddEvents(old(State()), list[..i], resource)
      {
        NextEvent(old(State()), list, resource, i);
        ReadEvent(list[i], resource);
      }
      TakeAll(list);
    }

    method ReadDatasources(list: seq<DatasourceView>, resource: string)
      requires Valid()
      modifies registry
      ensures Valid() && registry.Grown() && State() == AddDatasources(old(State()), list, resource)
    {
      for i := 0 to |list|
        invariant Valid() && registry.Grown() && State() == AddDatasources(old(State()), list[..i], resource)
      {
        NextDatasource(old(State()), list, resource, i);
        ReadListed(list[i], resource);
      }
      TakeAll(list);
    }

    method ReadListed(ds: DatasourceView, resource: string)
      requires Valid()
      modifies registry
      ensures Valid() && registry.Grown() && State() == AddListed(old(State()), ds, resource)
    {
      if IsInheriting(ds.id) {
        registry.QueueRead(ds, resource);
      } else {
        registry.AddRead(ds, resource);
      }
    }

    method ReadRoot(root: RootConfig, resource: string)
      requires Valid() && sessionParams.Some?
      modifies this, registry`resources
      ensures Valid() && data == old(data) && State() == AddRoot(old(State()), root, resource)
    {
      this.root := Some(root);
      sessionParams := Some(sessionParams.value + set n | n in root.sessionParams);
      registry.Kept();
      if root.pages.Some? {
        ReadPages(root.pages.value, resource);
      }
      registry.NameResource(ROOT_KEY, resource);
    }

    /** `readConfig`; `refused` where it throws. */
    method ReadConfig(f: File) returns (refused: bool)
      requires Valid() && sessionParams.Some?
      modifies this, registry
      ensures Valid() && registry.Grown() && data == old(data)
      ensures refused == Refused(old(State()), f.document)
      ensures State() == if refused then old(State()) else ReadDocument(old(State()), f)
    {
      refused := f.document.Root? && root.Some?;
      if !refused {
        if HoldsPages(f.document) {
          TakePages(f);
        } else {
          TakeOther(f);
        }
      }
    }

    method TakePages(f: File)
      requires Valid() && sessionParams.Some? && HoldsPages(f.document)
      modifies this, registry`resources
      ensures Valid() && data == old(data) && State() == ReadDocument(old(State()), f)
    {
      match f.document
      case Root(root) => ReadRoot(root, f.name);
      case Pages(pages) => ReadPages(pages, f.name);
      case OnePage(page) => ReadPage(page, f.name);
    }

    method TakeOther(f: File)
      requires Valid() && sessionParams.Some? && !HoldsPages(f.document)
      modifies this, registry
      ensures Valid() && registry.Grown() && data == old(data) && State() == ReadDocument(old(State()), f)
    {
      match f.document
      case OneDatasource(ds) => registry.AddRead(ds, f.name);
      case Datasources(list) => ReadDatasources(list, f.name);
      case OneEvent(e) => ReadEvent(e, f.name);
      case Events(events) => ReadEvents(events, f.name);
      case Platform =>
      case Unsupported =>
    }

    /** `getDatasource` */
    method GetDatasource(id: string) returns (ds: Datasource?)
      requires Valid()
      modifies registry.Repr
      ensures Valid() && (ds == null <==> id !in old(State()).store.items)
      ensures ds != null ==> ds in registry.datasources.Values && Nodes(ds.fields) <= registry.Repr
      ensures State() == old(State()).(store := AfterReads(old(State()).store, [id]))
      ensures ds != null ==> ds.Valid() && ds.View() == Bound(old(State()).store.items[id])
    {
      assert [id][..0] == [];
      ds := registry.ReadOne(id);
    }

    /** `clear` */
    method Clear()
      requires Valid()
      modifies this, registry`datasources
      ensures Valid() && data == old(data)
      ensures State() == CLEARED.(store := Store(map[], old(State()).store.resources), work := old(State()).work)
    {
      registry.Forget();
      Reset();
    }

    method Reset()
      requires Valid()
      modifies this
      ensures Valid() && data == old(data)
      ensures State() == CLEARED.(store := old(State()).store, work := old(State()).work)
    {
      sessionParams, pages, events, actions := Some({}), map[], map[], map[];
      defaultPage, root := None, None;
      registry.Kept();
    }

    /** `loadConfig` of a new provider. */
    method LoadConfig(files: seq<File>)
      requires Valid() && State() == UNREAD && data == None
      modifies this, registry, registry.Repr
      ensures registry.Grown() && LoadedFrom(files)
    {
      Clear();
      ReadResources(files);
    }

    /**
     What loading leaves behind. The snapshot is written exactly if no document is refused and the inheritance does not
     fail. If one is refused, what was read before is kept; if the inheritance fails, all that was resolved so far.
     */
    ghost predicate LoadedFrom(files: seq<File>)
      reads this, registry, registry.datasources.Values, Waiting(registry.descendants), registry.Repr
    {
      if ReadAll(files).None? then data == None && Valid() && State() == ReadUntilRefused(files)
      else
        var c := ReadAll(files).value;
        match Process(DatasourceRules(), c.store, c.work)
        case Swept(_, _) => Valid() && State() == InheritAll(c) && data == Some(Written(State()))
        case Broken(store) =>
          && data == None && registry.Valid() && Store(registry.Contents(), registry.resources) == store
          && Others() == (c.pages, c.events, c.actions, c.root, c.sessionParams, c.defaultPage)
    }

    /** What inheritance does not touch. */
    ghost function Others(): (map<string, Page>, map<string, Event>, map<string, map<string, Action>>,
                              Option<RootConfig>, Option<set<string>>, Option<string>)
      reads this
    {
      (pages, events, actions, root, sessionParams, defaultPage)
    }

    /** `readResources`: reads the documents until one is refused, processes the inheritance, writes the snapshot. */
    method ReadResources(files: seq<File>)
      requires Valid() && State() == CLEARED && data == None
      modifies this, registry, registry.Repr
      ensures registry.Grown() && LoadedFrom(files)
    {
      var refused := ReadDocuments(files);
      if !refused {
        Resolve();
      }
    }

    /** The loop of `readResources`. */
    method ReadDocuments(files: seq<File>) returns (refused: bool)
      requires Valid() && State() == CLEARED
      modifies this, registry
      ensures Valid() && registry.Grown() && data == old(data)
      ensures refused == ReadAll(files).None? && State() == ReadUntilRefused(files)
    {
      TakeAll(files);
      for i := 0 to |files|
        invariant Valid() && registry.Grown() && data == old(data) && ReadAll(files[..i]) == Some(State())
      {
        refused := ReadConfig(files[i]);
        NextFile(files, i);
        if refused {
          RefusedAt(files, i);
          return;
        }
      }
      return false;
    }

    /** The rest of `readResources`. */
    method Resolve()
      requires Valid() && data == None
      modifies this, registry, registry.Repr
      ensures registry.Grown()
      ensures match Process(DatasourceRules(), old(State()).store, old(State()).work)
              case Swept(_, _) => Valid() && State() == InheritAll(old(State())) && data == Some(Written(State()))
              case Broken(store) =>
                && data == None && registry.Valid() && Store(registry.Contents(), registry.resources) == store
                && Others() == old(Others())
    {
      var crashed := registry.ProcessInheritance();
      if !crashed {
        WriteData();
      }
    }

    /** `writeData` */
    method WriteData()
      requires Valid()
      modifies `data
      ensures Valid() && State() == old(State()) && data == Some(Written(State()))
    {
      var maps := [PageMap(pages), ActionMap(actions), DataSourceMap(registry.Contents()), EventMap(events)];
      var options := WriteOptions();
      assert maps == WrittenMaps(State());
      SetData(Some(maps + [if root.Some? then RootConfigObject(root.value) else Null] + options));
    }

    method WriteOptions() returns (records: seq<Record>)
      requires Valid()
      ensures records == WrittenOptions(State())
    {
      records := [];
      if defaultPage.Some? {
        records := records + [PlainText(defaultPage.value)];
      }
      if sessionParams.Some? {
        records := records + [NameSet(sessionParams.value)];
      }
    }

    method TakeRecord(r: Record)
      requires Valid()
      modifies this, registry
      ensures Valid() && registry.Grown() && registry.OldOrNew() && data == old(data)
      ensures State() == Take(old(State()), r)
    {
      if r.DataSourceMap? {
        registry.ReplaceRead(r.items);
      } else if r.ResourceMap? {
        registry.ReplaceNames(r.resources);
      } else {
        TakeField(r);
      }
    }

    method TakeField(r: Record)
      requires Valid() && !r.DataSourceMap? && !r.ResourceMap?
      modifies this
      ensures Valid() && data == old(data) && State() == Take(old(State()), r)
    {
      match r {
        case PageMap(pages) => this.pages := pages;
        case ActionMap(actions) => this.actions := actions;
        case EventMap(events) => this.events := events;
        case RootConfigObject(root) => this.root := Some(root);
        case Null =>
        case PlainText(text) => defaultPage := Some(text);
        case NameSet(names) => sessionParams := Some(names);
      }
      registry.Kept();
    }

    /** `readData` */
    method ReadData(records: seq<Record>)
      requires Valid()
      modifies this, registry
      ensures Valid() && registry.Grown() && registry.OldOrNew() && data == old(data)
      ensures State() == Restored(old(State()), records)
    {
      var i := 0;
      TakeAll(records);
      while i < |records| && !records[i].Null?
        invariant i <= |records|
        invariant Valid() && registry.Grown() && registry.OldOrNew() && data == old(data)
        invariant Restored(State(), records[i..]) == Restored(old(State()), records)
      {
        assert records[i..][1..] == records[i + 1..];
        TakeRecord(records[i]);
        i := i + 1;
      }
    }

    /**
     `cloneConfig`. In development mode the files are read as they are by now; otherwise the snapshot is read, and null is
     returned where it throws because there is none.
     */
    method CloneConfig(files: seq<File>) returns (copy: Provider?)
      ensures copy == null <==> !devMode && data.None?
      ensures copy != null ==> copy.devMode == devMode && fresh(copy) && fresh(copy.registry) && fresh(copy.registry.Repr)
      ensures copy != null && devMode ==> copy.LoadedFrom(files)
      ensures copy != null && !devMode ==> copy.IsRestored(data.value) && fresh(copy.registry.datasources.Values)
    {
      if !devMode && data.None? {
        return null;
      }
      copy := new Provider.Unread(devMode);
      if devMode {
        copy.LoadConfig(files);
      } else {
        copy.SetData(data);
        copy.ReadData(data.value);
      }
    }

    /** What a provider that was built from a snapshot knows. */
    ghost predicate IsRestored(records: seq<Record>)
      reads this, registry, registry.datasources.Values, Waiting(registry.descendants), registry.Repr
    {
      Valid() && data == Some(records) && State() == Restored(UNREAD, records)
    }

    method SetData(data: Option<seq<Record>>)
      requires Valid()
      modifies `data
      ensures Valid() && State() == old(State()) && this.data == data
    {
      this.data := data;
      registry.Kept();
    }
  }

  /** What `getDatasource` returns for an id in a state. */
  ghost predicate ReadsAs(ds: Datasource?, c: Config, id: string)
    reads if ds == null then {} else {ds}, if ds == null then {} else Nodes(ds.fields)
  {
    if id in c.store.items then ds != null && ds.Valid() && ds.View() == Bound(c.store.items[id]) else ds == null
  }

  method CloneWritten(p: Provider, ghost c: Config) returns (clone: Provider)
    requires !p.devMode && p.data == Some(Written(c))
    ensures fresh(clone) && fresh(clone.registry) && fresh(clone.registry.Repr)
    ensures fresh(clone.registry.datasources.Values) && !clone.devMode && clone.data == p.data
    ensures clone.Valid() && clone.State().store.items == c.store.items
  {
    ReadWritten(c, UNREAD);
    clone := p.CloneConfig([]);
  }

  /** A clone of a provider with a snapshot, and what it returns for an id: an object that is not part of anything else. */
  method CloneAndRead(p: Provider, ghost c: Config, id: string) returns (clone: Provider, ds: Datasource?)
    requires !p.devMode && p.data == Some(Written(c))
    ensures fresh(clone) && !clone.devMode && clone.data == p.data && ReadsAs(ds, c, id)
    ensures ds != null ==> fresh(ds) && fresh(Nodes(ds.fields))
  {
    clone := CloneWritten(p, c);
    ds := clone.GetDatasource(id);
  }

  /** A clone of a provider and a clone of the clone. */
  method CloneTwice(p: Provider, ghost c: Config, id: string) returns (first: Datasource?, second: Datasource?)
    requires !p.devMode && p.data == Some(Written(c))
    ensures ReadsAs(first, c, id) && ReadsAs(second, c, id)
    ensures first != null ==> fresh(first) && fresh(Nodes(first.fields)) && first != second
    ensures second != null ==> fresh(second) && fresh(Nodes(second.fields))
  {
    var clone;
    clone, first := CloneAndRead(p, c, id);
    var _, other := CloneAndRead(clone, c, id);
    second := other;
  }

  /** What a provider returns for an id, whatever was read from it before. */
  method ReadLoaded(p: Provider, ghost c: Config, ghost ids: seq<string>, id: string) returns (ds: Datasource?)
    requires p.Valid() && p.State() == c.(store := AfterReads(c.store, ids))
    modifies p.registry.Repr
    ensures ReadsAs(ds, c, id) && p.data == old(p.data)
  {
    ReadsCommute(c.store, ids);
    ds := p.GetDatasource(id);
  }

  /**
   A loaded provider, from which datasources may have been read in the meantime, a clone of it and a clone of that:
   all three return the same for an id, each an object of its own. In development mode a clone reads the files instead.
   */
  method ReadGenerations(p: Provider, ghost c: Config, ghost ids: seq<string>, id: string)
    returns (ds: Datasource?, first: Datasource?, second: Datasource?)
    requires !p.devMode && p.Valid() && p.data == Some(Written(c)) && p.State() == c.(store := AfterReads(c.store, ids))
    modifies p.registry.Repr
    ensures ReadsAs(ds, c, id) && ReadsAs(first, c, id) && ReadsAs(second, c, id)
    ensures id in c.store.items ==> ds != first && ds != second && first != second
  {
    ds := ReadLoaded(p, c, ids, id);
    first, second := CloneTwice(p, c, id);
  }
}
