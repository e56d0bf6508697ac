/**
 The configuration of an application as values: pages, events with their actions, and what
 `ApplicationConfigProviderImpl.readConfig` makes of the documents found in the application's resources.
 */
module Config {
  import opened Options
  import opened Seqs
  import opened InheritanceIds
  import opened NamedLists
  import opened Datasources
  import opened Inheritance
  import opened DatasourceChains

  // ---------- entities ----------

  /** The POST, GET and URL params of a page. */
  datatype UrlSchema = UrlSchema(post: Option<seq<Param>>, get: Option<seq<Param>>, url: Option<seq<Param>>)

  datatype DatasourceRef = DatasourceRef(id: string, params: Option<seq<Param>>)

  datatype ActionRef = ActionRef(eventId: string, id: string, params: Option<seq<Param>>)

  /** An element of a page's section: by its schema it carries an action or a datasource. */
  datatype Element = Element(action: Option<ActionRef>, datasource: Option<DatasourceRef>)

  datatype Page = Page(id: string, kind: Option<string>, urlSchema: Option<UrlSchema>, sections: seq<seq<Element>>)

  datatype Action = Action(id: string, params: Option<seq<Param>>, datasource: Option<DatasourceRef>)

  datatype Event = Event(id: string, actions: seq<Action>)

  datatype RootConfig = RootConfig(sessionParams: seq<string>, pages: Option<seq<Page>>)

  /** What a resource unmarshals to. */
  datatype Document =
    | Root(root: RootConfig)
    | Pages(pages: seq<Page>)
    | OnePage(page: Page)
    | OneDatasource(datasource: DatasourceView)
    | Datasources(datasources: seq<DatasourceView>)
    | OneEvent(event: Event)
    | Events(events: seq<Event>)
    | Platform
    | Unsupported

  /** A document with the name of the resource it was read from. */
  datatype File = File(name: string, document: Document)

  /** The state of the provider; after `clear` the session params are an empty set. */
  datatype Config = Config(
    pages: map<string, Page>,
    events: map<string, Event>,
    actions: map<string, map<string, Action>>,
    root: Option<RootConfig>,
    sessionParams: Option<set<string>>,
    defaultPage: Option<string>,
    store: Store<DatasourceView>,
    work: seq<Definition<DatasourceView>>)

  const CLEARED := Config(map[], map[], map[], None, Some({}), None, Store(map[], map[]), [])

  const ROOT_KEY := "applicationRootConfig"

  function PageKey(id: string): string
  {
    "page:" + id
  }

  function EventKey(id: string): string
  {
    "event:" + id
  }

  lemma KeysDiffer(p: string, e: string, d: string)
    ensures PageKey(p) != EventKey(e) && EventKey(e) != DatasourceKey(d) && PageKey(p) != DatasourceKey(d)
    ensures PageKey(p) != ROOT_KEY && EventKey(e) != ROOT_KEY && DatasourceKey(d) != ROOT_KEY
    ensures p != e ==> PageKey(p) != PageKey(e) && EventKey(p) != EventKey(e)
  {
    assert PageKey(p)[0] == 'p' && EventKey(e)[0] == 'e' && DatasourceKey(d)[0] == 'd' && ROOT_KEY[0] == 'a';
    assert PageKey(p)[5..] == p && PageKey(e)[5..] == e && EventKey(p)[6..] == p && EventKey(e)[6..] == e;
  }

  // ---------- reading ----------

  function Named(c: Config, key: string, resource: string): Config
  {
    c.(store := c.store.(resources := c.store.resources[key := resource]))
  }

  /** `addPage` */
  function AddPage(c: Config, p: Page, resource: string): Config
  {
    Named(c, PageKey(p.id), resource).(
      pages := c.pages[p.id := p],
      defaultPage := if p.kind == Some("index") then Some(p.id) else c.defaultPage)
  }

  function AddPages(c: Config, pages: seq<Page>, resource: string): Config
  {
    if pages == [] then c else AddPage(AddPages(c, pages[..|pages| - 1], resource), pages[|pages| - 1], resource)
  }

  /** The actions of an event by their id; if an id repeats, the last action counts. */
  function ActionIndex(actions: seq<Action>): map<string, Action>
  {
    if actions == [] then map[]
    else ActionIndex(actions[..|actions| - 1])[actions[|actions| - 1].id := actions[|actions| - 1]]
  }

  /** `addEvent` */
  function AddEvent(c: Config, e: Event, resource: string): Config
  {
    AddIndexed(c, e, ActionIndex(e.actions), resource)
  }

  function AddIndexed(c: Config, e: Event, index: map<string, Action>, resource: string): Config
  {
    Named(c, EventKey(e.id), resource).(events := c.events[e.id := e], actions := c.actions[e.id := index])
  }

  function AddEvents(c: Config, events: seq<Event>, resource: string): Config
  {
    if events == [] then c else AddEvent(AddEvents(c, events[..|events| - 1], resource), events[|events| - 1], resource)
  }

  /** `addDataSource` on a datasource just read. */
  function AddDatasource(c: Config, ds: DatasourceView, resource: string): Config
  {
    c.(store := Register(c.store, ds.id, ds, resource))
  }

  /** A datasource from a list: an inheriting one is left for `processInheritance`. */
  function AddListed(c: Config, ds: DatasourceView, resource: string): Config
  {
    if IsInheriting(ds.id) then c.(work := c.work + [ToDefinition(ds, resource)]) else AddDatasource(c, ds, resource)
  }

  function AddDatasources(c: Config, list: seq<DatasourceView>, resource: string): Config
  {
    if list == [] then c
    else AddListed(AddDatasources(c, list[..|list| - 1], resource), list[|list| - 1], resource)
  }

  function AddRoot(c: Config, root: RootConfig, resource: string): Config
    requires c.sessionParams.Some?
  {
    var noted := c.(root := Some(root), sessionParams := Some(c.sessionParams.value + set n | n in root.sessionParams));
    Named(AddPages(noted, Elements(root.pages), resource), ROOT_KEY, resource)
  }

  /** `readConfig` refuses a second root config and takes everything else. */
  predicate Refused(c: Config, document: Document)
  {
    document.Root? && c.root.Some?
  }

  /** `readConfig` on a document it takes. */
  function ReadDocument(c: Config, f: File): Config
    requires c.sessionParams.Some?
  {
    match f.document
    case Root(root) => AddRoot(c, root, f.name)
    case Pages(pages) => AddPages(c, pages, f.name)
    case OnePage(page) => AddPage(c, page, f.name)
    case OneDatasource(ds) => AddDatasource(c, ds, f.name)
    case Datasources(list) => AddDatasources(c, list, f.name)
    case OneEvent(e) => AddEvent(c, e, f.name)
    case Events(events) => AddEvents(c, events, f.name)
    case Platform => c
    case Unsupported => c
  }

  /** What reading the documents one after the other comes to, if none is refused. */
  function ReadAll(files: seq<File>): (r: Option<Config>)
    ensures r.Some? ==> r.value.sessionParams.Some?
  {
    if files == [] then Some(CLEARED)
    else
      var before, f := ReadAll(files[..|files| - 1]), files[|files| - 1];
      if before.None? || Refused(before.value, f.document) then None
      else
        ReadKeepsParams(before.value, f);
        Some(ReadDocument(before.value, f))
  }

  /** What is there when a document is refused, which ends the reading: the documents before it. */
  function ReadUntilRefused(files: seq<File>): Config
  {
    if ReadAll(files).Some? then ReadAll(files).value else ReadUntilRefused(files[..|files| - 1])
  }

  /** A refused file ends the reading for good. */
  lemma RefusedStep(init: seq<File>, f: File)
    ensures ReadAll(init).None? ==>
              ReadAll(init + [f]).None? && ReadUntilRefused(init + [f]) == ReadUntilRefused(init)
    ensures ReadAll(init).Some? && ReadAll(init + [f]).None? ==> ReadUntilRefused(init + [f]) == ReadAll(init).value
  {
    Snoc(init, f);
  }

  lemma {:induction false} RefusedForGood(init: seq<File>, f: File, rest: seq<File>)
    requires ReadAll(init).Some? && ReadAll(init + [f]).None?
    ensures ReadAll(init + [f] + rest).None? && ReadUntilRefused(init + [f] + rest) == ReadAll(init).value
  {
    if rest == [] {
      Empty(init + [f]);
      RefusedStep(init, f);
    } else {
      var others, last := Unsnoc(rest);
      RefusedForGood(init, f, others);
      Assoc(init + [f], others, [last]);
      RefusedStep(init + [f] + others, last);
    }
  }

  /** Resource names of a kind are kept. */
  ghost predicate NamesKept(key: string -> string, c: Config, r: Config)
  {
    forall id :: key(id) in c.store.resources ==>
                   key(id) in r.store.resources && r.store.resources[key(id)] == c.store.resources[key(id)]
  }

  lemma {:induction false} AddPagesFrame(c: Config, pages: seq<Page>, resource: string)
    ensures var r := AddPages(c, pages, resource);
            && r.events == c.events && r.actions == c.actions && r.root == c.root && r.work == c.work
            && r.sessionParams == c.sessionParams && r.store.items == c.store.items && NamesKept(EventKey, c, r)
  {
    if pages != [] {
      AddPagesFrame(c, pages[..|pages| - 1], resource);
      forall id
        ensures EventKey(id) != PageKey(pages[|pages| - 1].id)
      {
        KeysDiffer(pages[|pages| - 1].id, id, "");
      }
    }
  }

  lemma {:induction false} AddEventsFrame(c: Config, events: seq<Event>, resource: string)
    ensures var r := AddEvents(c, events, resource);
            && r.pages == c.pages && r.defaultPage == c.defaultPage && r.root == c.root && r.work == c.work
            && r.sessionParams == c.sessionParams && r.store.items == c.store.items && NamesKept(PageKey, c, r)
  {
    if events != [] {
      AddEventsFrame(c, events[..|events| - 1], resource);
      forall id
        ensures PageKey(id) != EventKey(events[|events| - 1].id)
      {
        KeysDiffer(id, events[|events| - 1].id, "");
      }
    }
  }

  lemma {:induction false} AddDatasourcesFrame(c: Config, list: seq<DatasourceView>, resource: string)
    ensures var r := AddDatasources(c, list, resource);
            r == c.(store := r.store, work := r.work) && NamesKept(PageKey, c, r) && NamesKept(EventKey, c, r)
  {
    if list != [] {
      AddDatasourcesFrame(c, list[..|list| - 1], resource);
      forall id
        ensures DatasourceKey(list[|list| - 1].id) != PageKey(id) && DatasourceKey(list[|list| - 1].id) != EventKey(id)
      {
        KeysDiffer(id, id, list[|list| - 1].id);
      }
    }
  }

  lemma ReadKeepsParams(c: Config, f: File)
    requires c.sessionParams.Some?
    ensures ReadDocument(c, f).sessionParams.Some?
    ensures ReadDocument(c, f).root == if f.document.Root? then Some(f.document.root) else c.root
  {
    match f.document
    case Root(root) =>
      var noted := c.(root := Some(root),
                      sessionParams := Some(c.sessionParams.value + set n | n in root.sessionParams));
      AddPagesFrame(noted, Elements(root.pages), f.name);
    case Pages(pages) => AddPagesFrame(c, pages, f.name);
    case Datasources(list) => AddDatasourcesFrame(c, list, f.name);
    case Events(events) => AddEventsFrame(c, events, f.name);
    case _ =>
  }

  // ---------- the maps agree ----------

  /** The maps of a provider agree with each other. */
  ghost predicate Consistent(c: Config)
  {
    && c.events.Keys == c.actions.Keys
    && (forall e :: e in c.events ==> c.actions[e] == ActionIndex(c.events[e].actions))
    && (forall p :: p in c.pages ==> c.pages[p].id == p && PageKey(p) in c.store.resources)
    && (forall e :: e in c.events ==> c.events[e].id == e && EventKey(e) in c.store.resources)
    && AllNamed(c.store)
    && (c.defaultPage.Some? ==> c.defaultPage.value in c.pages)
  }

  lemma AddPageConsistent(c: Config, p: Page, resource: string)
    requires Consistent(c)
    ensures Consistent(AddPage(c, p, resource))
  {
  }

  lemma AddEventConsistent(c: Config, e: Event, resource: string)
    requires Consistent(c)
    ensures Consistent(AddEvent(c, e, resource))
  {
  }

  lemma AddDatasourceConsistent(c: Config, ds: DatasourceView, resource: string)
    requires Consistent(c)
    ensures Consistent(AddDatasource(c, ds, resource))
  {
  }

  lemma {:induction false} AddPagesConsistent(c: Config, pages: seq<Page>, resource: string)
    requires Consistent(c)
    ensures Consistent(AddPages(c, pages, resource))
  {
    if pages != [] {
      AddPagesConsistent(c, pages[..|pages| - 1], resource);
      AddPageConsistent(AddPages(c, pages[..|pages| - 1], resource), pages[|pages| - 1], resource);
    }
  }

  lemma {:induction false} AddEventsConsistent(c: Config, events: seq<Event>, resource: string)
    requires Consistent(c)
    ensures Consistent(AddEvents(c, events, resource))
  {
    if events != [] {
      AddEventsConsistent(c, events[..|events| - 1], resource);
      AddEventConsistent(AddEvents(c, events[..|events| - 1], resource), events[|events| - 1], resource);
    }
  }

  lemma {:induction false} AddDatasourcesConsistent(c: Config, list: seq<DatasourceView>, resource: string)
    requires Consistent(c)
    ensures Consistent(AddDatasources(c, list, resource))
  {
    if list != [] {
      var init, ds := Unsnoc(list);
      AddDatasourcesConsistent(c, init, resource);
      AddDatasourceConsistent(AddDatasources(c, init, resource), ds, resource);
    }
  }

  lemma NamedConsistent(c: Config, key: string, resource: string)
    requires Consistent(c)
    ensures Consistent(Named(c, key, resource))
  {
  }

  lemma AddRootConsistent(c: Config, root: RootConfig, resource: string)
    requires Consistent(c) && c.sessionParams.Some?
    ensures Consistent(AddRoot(c, root, resource))
  {
    var noted := c.(root := Some(root), sessionParams := Some(c.sessionParams.value + set n | n in root.sessionParams));
    AddPagesConsistent(noted, Elements(root.pages), resource);
    NamedConsistent(AddPages(noted, Elements(root.pages), resource), ROOT_KEY, resource);
  }

  /** What a document is about. */
  predicate HoldsPages(document: Document)
  {
    document.Root? || document.Pages? || document.OnePage?
  }

  predicate HoldsDatasources(document: Document)
  {
    document.OneDatasource? || document.Datasources?
  }

  lemma ReadPagesConsistent(c: Config, f: File)
    requires Consistent(c) && c.sessionParams.Some? && HoldsPages(f.document)
    ensures Consistent(ReadDocument(c, f))
  {
    match f.document
    case Root(root) => AddRootConsistent(c, root, f.name);
    case Pages(pages) => AddPagesConsistent(c, pages, f.name);
    case OnePage(page) => AddPageConsistent(c, page, f.name);
  }

  lemma ReadDatasourcesConsistent(c: Config, f: File)
    requires Consistent(c) && c.sessionParams.Some? && HoldsDatasources(f.document)
    ensures Consistent(ReadDocument(c, f))
  {
    match f.document
    case OneDatasource(ds) => AddDatasourceConsistent(c, ds, f.name);
    case Datasources(list) => AddDatasourcesConsistent(c, list, f.name);
  }

  lemma ReadOthersConsistent(c: Config, f: File)
    requires Consistent(c) && c.sessionParams.Some? && !HoldsPages(f.document) && !HoldsDatasources(f.document)
    ensures Consistent(ReadDocument(c, f))
  {
    match f.document
    case OneEvent(e) => AddEventConsistent(c, e, f.name);
    case Events(events) => AddEventsConsistent(c, events, f.name);
    case Platform =>
    case Unsupported =>
  }

  /** Every step of `readConfig` keeps the maps in agreement. */
  lemma ReadConsistent(c: Config, f: File)
    requires Consistent(c) && c.sessionParams.Some?
    ensures Consistent(ReadDocument(c, f))
  {
    if HoldsPages(f.document) {
      ReadPagesConsistent(c, f);
    } else if HoldsDatasources(f.document) {
      ReadDatasourcesConsistent(c, f);
    } else {
      ReadOthersConsistent(c, f);
    }
  }

  lemma {:induction false} ReadAllConsistent(files: seq<File>)
    requires ReadAll(files).Some?
    ensures Consistent(ReadAll(files).value)
  {
    if files != [] {
      ReadAllConsistent(files[..|files| - 1]);
      ReadConsistent(ReadAll(files[..|files| - 1]).value, files[|files| - 1]);
    }
  }

  /** What `processInheritance` leaves behind, whether it ends regularly or not. */
  function InheritAll(c: Config): Config
  {
    c.(store := Process(DatasourceRules(), c.store, c.work).store, work := [])
  }

  lemma InheritAllConsistent(c: Config)
    requires Consistent(c)
    ensures Consistent(InheritAll(c))
  {
    ProcessNames(DatasourceRules(), c.store, c.work);
  }

  /** What is known when a document is refused: the maps agree then, too. */
  lemma {:induction false} RefusedConsistent(files: seq<File>)
    ensures Consistent(ReadUntilRefused(files))
  {
    if ReadAll(files).Some? {
      ReadAllConsistent(files);
    } else {
      RefusedConsistent(files[..|files| - 1]);
    }
  }

  /**
   Whatever files were read, the maps agree: up to a document that was refused, and if there is none also once the
   inheritance was processed, even if that failed.
   */
  lemma LoadedConsistent(files: seq<File>)
    ensures Consistent(ReadUntilRefused(files))
    ensures ReadAll(files).Some? ==> Consistent(InheritAll(ReadAll(files).value))
  {
    RefusedConsistent(files);
    if ReadAll(files).Some? {
      InheritAllConsistent(ReadAll(files).value);
    }
  }

  /** If an event repeats an action's id, the last of these actions is the one indexed. */
  lemma {:induction false} LastActionWins(actions: seq<Action>, i: nat)
    requires i < |actions| && forall j :: i < j < |actions| ==> actions[j].id != actions[i].id
    ensures actions[i].id in ActionIndex(actions) && ActionIndex(actions)[actions[i].id] == actions[i]
  {
    if i < |actions| - 1 {
      var init, last := Unsnoc(actions);
      LastActionWins(init, i);
    }
  }

  /** Nothing is indexed but the event's actions, under their ids. */
  lemma {:induction false} OnlyActionsIndexed(actions: seq<Action>, id: string)
    ensures id in ActionIndex(actions) <==> exists a :: a in actions && a.id == id
    ensures id in ActionIndex(actions) ==> ActionIndex(actions)[id] in actions && ActionIndex(actions)[id].id == id
  {
    if actions != [] {
      var init, last := Unsnoc(actions);
      OnlyActionsIndexed(init, id);
    }
  }

  // ---------- the last declaration wins ----------

  /** A page or event declared in a file. */
  datatype Declared<T> = Declared(item: T, resource: string)

  function PagesIn(f: File): seq<Page>
  {
    match f.document
    case Root(root) => Elements(root.pages)
    case Pages(pages) => pages
    case OnePage(page) => [page]
    case _ => []
  }

  function EventsIn(f: File): seq<Event>
  {
    match f.document
    case OneEvent(e) => [e]
    case Events(events) => events
    case _ => []
  }

  function PageDeclarations(pages: seq<Page>, resource: string): seq<Keyed<Declared<Page>>>
  {
    seq(|pages|, i requires 0 <= i < |pages| => Keyed(pages[i].id, Declared(pages[i], resource)))
  }

  function EventDeclarations(events: seq<Event>, resource: string): seq<Keyed<Declared<Event>>>
  {
    seq(|events|, i requires 0 <= i < |events| => Keyed(events[i].id, Declared(events[i], resource)))
  }

  /** All pages declared in the files, in the order they are read. */
  ghost function DeclaredPages(files: seq<File>): seq<Keyed<Declared<Page>>>
  {
    if files == [] then []
    else
      var f := files[|files| - 1];
      DeclaredPages(files[..|files| - 1]) + PageDeclarations(PagesIn(f), f.name)
  }

  ghost function DeclaredEvents(files: seq<File>): seq<Keyed<Declared<Event>>>
  {
    if files == [] then []
    else
      var f := files[|files| - 1];
      DeclaredEvents(files[..|files| - 1]) + EventDeclarations(EventsIn(f), f.name)
  }

  /** The id of the last page declared as an index page. */
  ghost function LastIndex(declared: seq<Keyed<Declared<Page>>>): Option<string>
  {
    if declared == [] then None
    else if declared[|declared| - 1].body.item.kind == Some("index") then Some(declared[|declared| - 1].key)
    else LastIndex(declared[..|declared| - 1])
  }

  /** The pages are the last ones declared under their ids, and so are their resource names. */
  ghost predicate KnowsPages(c: Config, declared: seq<Keyed<Declared<Page>>>)
  {
    && c.defaultPage == LastIndex(declared)
    && forall id ::
         match FindLast(declared, id)
         case None => id !in c.pages
         case Some(d) => id in c.pages && c.pages[id] == d.body.item
                         && PageKey(id) in c.store.resources && c.store.resources[PageKey(id)] == d.body.resource
  }

  ghost predicate KnowsEvents(c: Config, declared: seq<Keyed<Declared<Event>>>)
  {
    forall id ::
      match FindLast(declared, id)
      case None => id !in c.events && id !in c.actions
      case Some(d) =>
        && id in c.events && c.events[id] == d.body.item
        && id in c.actions && c.actions[id] == ActionIndex(d.body.item.actions)
        && EventKey(id) in c.store.resources && c.store.resources[EventKey(id)] == d.body.resource
  }

  lemma NextPageDeclaration(init: seq<Page>, p: Page, resource: string)
    ensures PageDeclarations(init + [p], resource)
         == PageDeclarations(init, resource) + [Keyed(p.id, Declared(p, resource))]
  {
  }

  lemma NextEventDeclaration(init: seq<Event>, e: Event, resource: string)
    ensures EventDeclarations(init + [e], resource)
         == EventDeclarations(init, resource) + [Keyed(e.id, Declared(e, resource))]
  {
  }

  lemma AddPageKnown(c: Config, p: Page, resource: string, declared: seq<Keyed<Declared<Page>>>)
    requires KnowsPages(c, declared)
    ensures KnowsPages(AddPage(c, p, resource), declared + [Keyed(p.id, Declared(p, resource))])
  {
    var d := Keyed(p.id, Declared(p, resource));
    Snoc(declared, d);
    forall id
      ensures FindLast(declared + [d], id) == if id == p.id then Some(d) else FindLast(declared, id)
      ensures id != p.id ==> PageKey(id) != PageKey(p.id)
    {
      FindLastStep(declared, d, id);
      KeysDiffer(id, p.id, "");
    }
  }

  lemma {:induction false} AddPagesKnown(c: Config, pages: seq<Page>, resource: string,
      declared: seq<Keyed<Declared<Page>>>)
    requires KnowsPages(c, declared)
    ensures KnowsPages(AddPages(c, pages, resource), declared + PageDeclarations(pages, resource))
  {
    if pages == [] {
      Empty(declared);
    } else {
      var init, p := Unsnoc(pages);
      var tagged := PageDeclarations(init, resource);
      AddPagesKnown(c, init, resource, declared);
      AddPageKnown(AddPages(c, init, resource), p, resource, declared + tagged);
      NextPageDeclaration(init, p, resource);
      Assoc(declared, tagged, [Keyed(p.id, Declared(p, resource))]);
    }
  }

  lemma AddEventKnown(c: Config, e: Event, resource: string, declared: seq<Keyed<Declared<Event>>>)
    requires KnowsEvents(c, declared)
    ensures KnowsEvents(AddEvent(c, e, resource), declared + [Keyed(e.id, Declared(e, resource))])
  {
    var d := Keyed(e.id, Declared(e, resource));
    Snoc(declared, d);
    forall id
      ensures FindLast(declared + [d], id) == if id == e.id then Some(d) else FindLast(declared, id)
      ensures id != e.id ==> EventKey(id) != EventKey(e.id)
    {
      FindLastStep(declared, d, id);
      KeysDiffer(id, e.id, "");
    }
  }

  lemma {:induction false} AddEventsKnown(c: Config, events: seq<Event>, resource: string,
      declared: seq<Keyed<Declared<Event>>>)
    requires KnowsEvents(c, declared)
    ensures KnowsEvents(AddEvents(c, events, resource), declared + EventDeclarations(events, resource))
  {
    if events == [] {
      Empty(declared);
    } else {
      var init, e := Unsnoc(events);
      var tagged := EventDeclarations(init, resource);
      AddEventsKnown(c, init, resource, declared);
      AddEventKnown(AddEvents(c, init, resource), e, resource, declared + tagged);
      NextEventDeclaration(init, e, resource);
      Assoc(declared, tagged, [Keyed(e.id, Declared(e, resource))]);
    }
  }

  /** What is known does not depend on names of other kinds. */
  lemma NamedKnown(c: Config, key: string, resource: string, pages: seq<Keyed<Declared<Page>>>,
      events: seq<Keyed<Declared<Event>>>)
    requires forall id :: PageKey(id) != key && EventKey(id) != key
    ensures KnowsPages(c, pages) ==> KnowsPages(Named(c, key, resource), pages)
    ensures KnowsEvents(c, events) ==> KnowsEvents(Named(c, key, resource), events)
  {
  }

  lemma RootKeyDiffers()
    ensures forall id :: PageKey(id) != ROOT_KEY && EventKey(id) != ROOT_KEY
  {
    forall id
      ensures PageKey(id) != ROOT_KEY && EventKey(id) != ROOT_KEY
    {
      KeysDiffer(id, id, "");
    }
  }

  lemma DatasourceKeyDiffers(d: string)
    ensures forall id :: PageKey(id) != DatasourceKey(d) && EventKey(id) != DatasourceKey(d)
  {
    forall id
      ensures PageKey(id) != DatasourceKey(d) && EventKey(id) != DatasourceKey(d)
    {
      KeysDiffer(id, id, d);
    }
  }

  /** Where nothing is said about events, what is known about them stays. */
  lemma EventsStayKnown(c: Config, r: Config, events: seq<Keyed<Declared<Event>>>)
    requires KnowsEvents(c, events) && r.events == c.events && r.actions == c.actions && NamesKept(EventKey, c, r)
    ensures KnowsEvents(r, events)
  {
  }

  lemma PagesStayKnown(c: Config, r: Config, pages: seq<Keyed<Declared<Page>>>)
    requires KnowsPages(c, pages) && r.pages == c.pages && r.defaultPage == c.defaultPage && NamesKept(PageKey, c, r)
    ensures KnowsPages(r, pages)
  {
  }

  lemma AddRootKnown(c: Config, root: RootConfig, resource: string, pages: seq<Keyed<Declared<Page>>>,
      events: seq<Keyed<Declared<Event>>>)
    requires c.sessionParams.Some? && KnowsPages(c, pages) && KnowsEvents(c, events)
    ensures KnowsPages(AddRoot(c, root, resource), pages + PageDeclarations(Elements(root.pages), resource))
    ensures KnowsEvents(AddRoot(c, root, resource), events)
  {
    var noted := c.(root := Some(root), sessionParams := Some(c.sessionParams.value + set n | n in root.sessionParams));
    var added := AddPages(noted, Elements(root.pages), resource);
    AddPagesKnown(noted, Elements(root.pages), resource, pages);
    AddPagesFrame(noted, Elements(root.pages), resource);
    EventsStayKnown(noted, added, events);
    RootKeyDiffers();
    NamedKnown(added, ROOT_KEY, resource, pages + PageDeclarations(Elements(root.pages), resource), events);
  }

  lemma AddOneDatasourceKnown(c: Config, ds: DatasourceView, resource: string, pages: seq<Keyed<Declared<Page>>>,
      events: seq<Keyed<Declared<Event>>>)
    requires KnowsPages(c, pages) && KnowsEvents(c, events)
    ensures KnowsPages(AddDatasource(c, ds, resource), pages) && KnowsEvents(AddDatasource(c, ds, resource), events)
  {
    DatasourceKeyDiffers(ds.id);
    NamedKnown(c, DatasourceKey(ds.id), resource, pages, events);
  }

  lemma AddOtherKnown(c: Config, f: File, pages: seq<Keyed<Declared<Page>>>, events: seq<Keyed<Declared<Event>>>)
    requires c.sessionParams.Some? && KnowsPages(c, pages) && KnowsEvents(c, events)
    requires !f.document.Root? && PagesIn(f) == [] && EventsIn(f) == []
    ensures KnowsPages(ReadDocument(c, f), pages) && KnowsEvents(ReadDocument(c, f), events)
  {
    match f.document
    case OneDatasource(ds) => AddOneDatasourceKnown(c, ds, f.name, pages, events);
    case Datasources(list) =>
      AddDatasourcesFrame(c, list, f.name);
      PagesStayKnown(c, AddDatasources(c, list, f.name), pages);
      EventsStayKnown(c, AddDatasources(c, list, f.name), events);
    case _ =>
  }

  lemma ReadPagesKnown(c: Config, f: File, pages: seq<Keyed<Declared<Page>>>, events: seq<Keyed<Declared<Event>>>)
    requires c.sessionParams.Some? && KnowsPages(c, pages) && KnowsEvents(c, events)
    requires f.document.Pages? || f.document.OnePage?
    ensures KnowsPages(ReadDocument(c, f), pages + PageDeclarations(PagesIn(f), f.name))
    ensures KnowsEvents(ReadDocument(c, f), events)
  {
    AddPagesKnown(c, PagesIn(f), f.name, pages);
    AddPagesFrame(c, PagesIn(f), f.name);
    EventsStayKnown(c, AddPages(c, PagesIn(f), f.name), events);
    assert f.document.OnePage? ==> AddPages(c, [], f.name) == c;
  }

  lemma ReadEventsKnown(c: Config, f: File, pages: seq<Keyed<Declared<Page>>>, events: seq<Keyed<Declared<Event>>>)
    requires c.sessionParams.Some? && KnowsPages(c, pages) && KnowsEvents(c, events)
    requires f.document.Events? || f.document.OneEvent?
    ensures KnowsPages(ReadDocument(c, f), pages)
    ensures KnowsEvents(ReadDocument(c, f), events + EventDeclarations(EventsIn(f), f.name))
  {
    AddEventsKnown(c, EventsIn(f), f.name, events);
    AddEventsFrame(c, EventsIn(f), f.name);
    PagesStayKnown(c, AddEvents(c, EventsIn(f), f.name), pages);
    assert f.document.OneEvent? ==> AddEvents(c, [], f.name) == c;
  }

  lemma ReadKnown(c: Config, f: File, pages: seq<Keyed<Declared<Page>>>, events: seq<Keyed<Declared<Event>>>)
    requires c.sessionParams.Some? && KnowsPages(c, pages) && KnowsEvents(c, events)
    ensures KnowsPages(ReadDocument(c, f), pages + PageDeclarations(PagesIn(f), f.name))
    ensures KnowsEvents(ReadDocument(c, f), events + EventDeclarations(EventsIn(f), f.name))
  {
    Empty(pages);
    Empty(events);
    match f.document
    case Root(root) => AddRootKnown(c, root, f.name, pages, events);
    case Pages(_) => ReadPagesKnown(c, f, pages, events);
    case OnePage(_) => ReadPagesKnown(c, f, pages, events);
    case OneEvent(_) => ReadEventsKnown(c, f, pages, events);
    case Events(_) => ReadEventsKnown(c, f, pages, events);
    case _ => AddOtherKnown(c, f, pages, events);
  }

  lemma InheritKnown(c: Config, pages: seq<Keyed<Declared<Page>>>, events: seq<Keyed<Declared<Event>>>)
    requires KnowsPages(c, pages) && KnowsEvents(c, events)
    ensures KnowsPages(InheritAll(c), pages) && KnowsEvents(InheritAll(c), events)
  {
    forall id
      ensures PageKey(id) in c.store.resources ==>
                && PageKey(id) in InheritAll(c).store.resources
                && InheritAll(c).store.resources[PageKey(id)] == c.store.resources[PageKey(id)]
      ensures EventKey(id) in c.store.resources ==>
                && EventKey(id) in InheritAll(c).store.resources
                && InheritAll(c).store.resources[EventKey(id)] == c.store.resources[EventKey(id)]
    {
      forall d
        ensures PageKey(id) != DatasourceKey(d) && EventKey(id) != DatasourceKey(d)
      {
        KeysDiffer(id, id, d);
      }
      if PageKey(id) in c.store.resources {
        ProcessKeepsName(DatasourceRules(), c.store, c.work, PageKey(id));
      }
      if EventKey(id) in c.store.resources {
        ProcessKeepsName(DatasourceRules(), c.store, c.work, EventKey(id));
      }
    }
  }

  /**
   After all files were read and the inheritance was processed, the pages and events known are those
   declared in the files, each as it was declared last, under the name of the resource that did so.
   The default page is the last one declared as an index page.
   */
  lemma {:induction false} LastDeclarationWins(files: seq<File>)
    requires ReadAll(files).Some?
    ensures var c := ReadAll(files).value;
            && KnowsPages(c, DeclaredPages(files)) && KnowsEvents(c, DeclaredEvents(files))
            && KnowsPages(InheritAll(c), DeclaredPages(files)) && KnowsEvents(InheritAll(c), DeclaredEvents(files))
  {
    if files != [] {
      var before := ReadAll(files[..|files| - 1]).value;
      LastDeclarationWins(files[..|files| - 1]);
      ReadKnown(before, files[|files| - 1], DeclaredPages(files[..|files| - 1]), DeclaredEvents(files[..|files| - 1]));
    }
    InheritKnown(ReadAll(files).value, DeclaredPages(files), DeclaredEvents(files));
  }
}
