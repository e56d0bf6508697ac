/**
 What reading the documents of an application makes of its datasources and its root config: the second half of what
 `ApplicationConfigProviderImpl.readConfig` adds up to.
 */
module ConfigDatasources {
  import opened Options
  import opened Seqs
  import opened InheritanceIds
  import opened NamedLists
  import opened Datasources
  import opened Inheritance
  import opened DatasourceChains
  import opened Config

  // ---------- datasources ----------

  /** The datasources of a list that are registered as they are. */
  function PlainOnes(list: seq<DatasourceView>): seq<DatasourceView>
  {
    if list == [] then []
    else
      PlainOnes(list[..|list| - 1]) + if IsInheriting(list[|list| - 1].id) then [] else [list[|list| - 1]]
  }

  /** The definitions of a list that wait for their ancestor. */
  function InheritingOnes(list: seq<DatasourceView>, resource: string): seq<Definition<DatasourceView>>
  {
    if list == [] then []
    else
      var ds := list[|list| - 1];
      InheritingOnes(list[..|list| - 1], resource) + if IsInheriting(ds.id) then [ToDefinition(ds, resource)] else []
  }

  /** A datasource on its own is registered whatever its id looks like. */
  function PlainIn(f: File): seq<DatasourceView>
  {
    match f.document
    case OneDatasource(ds) => [ds]
    case Datasources(list) => PlainOnes(list)
    case _ => []
  }

  function InheritingIn(f: File): seq<Definition<DatasourceView>>
  {
    if f.document.Datasources? then InheritingOnes(f.document.datasources, f.name) else []
  }

  function DatasourceDeclarations(list: seq<DatasourceView>, resource: string): seq<Keyed<Declared<DatasourceView>>>
  {
    seq(|list|, i requires 0 <= i < |list| => Keyed(list[i].id, Declared(list[i], resource)))
  }

  ghost function DeclaredDatasources(files: seq<File>): seq<Keyed<Declared<DatasourceView>>>
  {
    if files == [] then []
    else
      var f := files[|files| - 1];
      DeclaredDatasources(files[..|files| - 1]) + DatasourceDeclarations(PlainIn(f), f.name)
  }

  ghost function DeclaredDefinitions(files: seq<File>): seq<Definition<DatasourceView>>
  {
    if files == [] then [] else DeclaredDefinitions(files[..|files| - 1]) + InheritingIn(files[|files| - 1])
  }

  /** The registered datasources are the last ones declared under their ids, and so are their resource names. */
  ghost predicate KnowsDatasources(c: Config, declared: seq<Keyed<Declared<DatasourceView>>>)
  {
    forall id ::
      match FindLast(declared, id)
      case None => id !in c.store.items
      case Some(d) =>
        && id in c.store.items && c.store.items[id] == d.body.item
        && DatasourceKey(id) in c.store.resources && c.store.resources[DatasourceKey(id)] == d.body.resource
  }

  lemma DatasourceKeysDiffer(id: string, other: string)
    ensures id != other ==> DatasourceKey(id) != DatasourceKey(other)
  {
    assert DatasourceKey(id)[11..] == id && DatasourceKey(other)[11..] == other;
  }

  lemma AddDatasourceKnown(c: Config, ds: DatasourceView, resource: string,
      declared: seq<Keyed<Declared<DatasourceView>>>)
    requires KnowsDatasources(c, declared)
    ensures KnowsDatasources(AddDatasource(c, ds, resource), declared + [Keyed(ds.id, Declared(ds, resource))])
  {
    var d := Keyed(ds.id, Declared(ds, resource));
    forall id
      ensures FindLast(declared + [d], id) == if id == ds.id then Some(d) else FindLast(declared, id)
      ensures id != ds.id ==> DatasourceKey(id) != DatasourceKey(ds.id)
    {
      FindLastStep(declared, d, id);
      DatasourceKeysDiffer(id, ds.id);
    }
  }

  lemma NextDeclaration(init: seq<DatasourceView>, ds: DatasourceView, resource: string)
    ensures DatasourceDeclarations(init + [ds], resource)
         == DatasourceDeclarations(init, resource) + [Keyed(ds.id, Declared(ds, resource))]
  {
  }

  lemma {:induction false} AddDatasourcesKnown(c: Config, list: seq<DatasourceView>, resource: string,
      declared: seq<Keyed<Declared<DatasourceView>>>)
    requires KnowsDatasources(c, declared)
    ensures KnowsDatasources(AddDatasources(c, list, resource),
                             declared + DatasourceDeclarations(PlainOnes(list), resource))
    ensures AddDatasources(c, list, resource).work == c.work + InheritingOnes(list, resource)
  {
    if list == [] {
      Empty(declared);
      Empty(c.work);
    } else {
      var init, ds := Unsnoc(list);
      AddDatasourcesKnown(c, init, resource, declared);
      var before, tagged := AddDatasources(c, init, resource), DatasourceDeclarations(PlainOnes(init), resource);
      if IsInheriting(ds.id) {
        Empty(PlainOnes(init));
        Assoc(c.work, InheritingOnes(init, resource), [ToDefinition(ds, resource)]);
      } else {
        AddDatasourceKnown(before, ds, resource, declared + tagged);
        NextDeclaration(PlainOnes(init), ds, resource);
        Assoc(declared, tagged, [Keyed(ds.id, Declared(ds, resource))]);
        Empty(InheritingOnes(init, resource));
      }
    }
  }

  lemma DatasourcesStayKnown(c: Config, r: Config, declared: seq<Keyed<Declared<DatasourceView>>>)
    requires KnowsDatasources(c, declared) && r.store.items == c.store.items && NamesKept(DatasourceKey, c, r)
    ensures KnowsDatasources(r, declared)
  {
  }

  lemma RootKeepsDatasources(c: Config, root: RootConfig, resource: string, declared: seq<Keyed<Declared<DatasourceView>>>)
    requires c.sessionParams.Some? && KnowsDatasources(c, declared)
    ensures KnowsDatasources(AddRoot(c, root, resource), declared) && AddRoot(c, root, resource).work == c.work
  {
    var noted := c.(root := Some(root), sessionParams := Some(c.sessionParams.value + set n | n in root.sessionParams));
    var added := AddPages(noted, Elements(root.pages), resource);
    AddPagesFrame(noted, Elements(root.pages), resource);
    PagesKeepNames(noted, Elements(root.pages), resource);
    DatasourcesStayKnown(noted, added, declared);
    RootKeepsNames();
    DatasourcesStayKnown(added, Named(added, ROOT_KEY, resource), declared);
  }

  lemma PagesKeepDatasources(c: Config, f: File, declared: seq<Keyed<Declared<DatasourceView>>>)
    requires c.sessionParams.Some? && KnowsDatasources(c, declared) && HoldsPages(f.document)
    ensures KnowsDatasources(ReadDocument(c, f), declared) && ReadDocument(c, f).work == c.work
  {
    match f.document
    case Root(root) => RootKeepsDatasources(c, root, f.name, declared);
    case Pages(pages) =>
      AddPagesFrame(c, pages, f.name);
      PagesKeepNames(c, pages, f.name);
      DatasourcesStayKnown(c, AddPages(c, pages, f.name), declared);
    case OnePage(page) =>
      OnePageKeepsNames(c, page, f.name);
      DatasourcesStayKnown(c, AddPage(c, page, f.name), declared);
  }

  lemma OtherDocument(c: Config, f: File, declared: seq<Keyed<Declared<DatasourceView>>>)
    requires c.sessionParams.Some? && KnowsDatasources(c, declared) && !HoldsDatasources(f.document)
    ensures KnowsDatasources(ReadDocument(c, f), declared) && ReadDocument(c, f).work == c.work
  {
    if HoldsPages(f.document) {
      PagesKeepDatasources(c, f, declared);
    } else if f.document.OneEvent? {
      OneEventKeepsNames(c, f.document.event, f.name);
      DatasourcesStayKnown(c, AddEvent(c, f.document.event, f.name), declared);
    } else if f.document.Events? {
      AddEventsFrame(c, f.document.events, f.name);
      EventsKeepNames(c, f.document.events, f.name);
      DatasourcesStayKnown(c, AddEvents(c, f.document.events, f.name), declared);
    }
  }

  lemma RootKeepsNames()
    ensures forall id :: DatasourceKey(id) != ROOT_KEY
  {
    forall id
      ensures DatasourceKey(id) != ROOT_KEY
    {
      KeysDiffer("", "", id);
    }
  }

  lemma OnePageKeepsNames(c: Config, p: Page, resource: string)
    ensures NamesKept(DatasourceKey, c, AddPage(c, p, resource))
  {
    forall id
      ensures DatasourceKey(id) != PageKey(p.id)
    {
      KeysDiffer(p.id, "", id);
    }
  }

  lemma OneEventKeepsNames(c: Config, e: Event, resource: string)
    ensures NamesKept(DatasourceKey, c, AddEvent(c, e, resource))
  {
    forall id
      ensures DatasourceKey(id) != EventKey(e.id)
    {
      KeysDiffer("", e.id, id);
    }
  }

  lemma {:induction false} PagesKeepNames(c: Config, pages: seq<Page>, resource: string)
    ensures NamesKept(DatasourceKey, c, AddPages(c, pages, resource))
  {
    if pages != [] {
      PagesKeepNames(c, pages[..|pages| - 1], resource);
      OnePageKeepsNames(AddPages(c, pages[..|pages| - 1], resource), pages[|pages| - 1], resource);
    }
  }

  lemma {:induction false} EventsKeepNames(c: Config, events: seq<Event>, resource: string)
    ensures NamesKept(DatasourceKey, c, AddEvents(c, events, resource))
  {
    if events != [] {
      EventsKeepNames(c, events[..|events| - 1], resource);
      OneEventKeepsNames(AddEvents(c, events[..|events| - 1], resource), events[|events| - 1], resource);
    }
  }

  lemma OneDatasourceKnown(c: Config, ds: DatasourceView, f: File, declared: seq<Keyed<Declared<DatasourceView>>>)
    requires c.sessionParams.Some? && KnowsDatasources(c, declared) && f.document == OneDatasource(ds)
    ensures KnowsDatasources(ReadDocument(c, f), declared + DatasourceDeclarations(PlainIn(f), f.name))
    ensures ReadDocument(c, f).work == c.work + InheritingIn(f)
  {
    AddDatasourceKnown(c, ds, f.name, declared);
    assert DatasourceDeclarations([ds], f.name) == [Keyed(ds.id, Declared(ds, f.name))];
    Empty(c.work);
  }

  /** One more file: its datasources are declared behind those known, its definitions wait behind those waiting. */
  lemma FileKnown(c: Config, f: File, declared: seq<Keyed<Declared<DatasourceView>>>)
    requires c.sessionParams.Some? && KnowsDatasources(c, declared)
    ensures KnowsDatasources(ReadDocument(c, f), declared + DatasourceDeclarations(PlainIn(f), f.name))
    ensures ReadDocument(c, f).work == c.work + InheritingIn(f)
  {
    if f.document.OneDatasource? {
      OneDatasourceKnown(c, f.document.datasource, f, declared);
    } else if f.document.Datasources? {
      AddDatasourcesKnown(c, f.document.datasources, f.name, declared);
    } else {
      OtherDocument(c, f, declared);
      Empty(declared);
      Empty(c.work);
    }
  }

  /**
   After all files were read, the registered datasources are those declared last under their ids, and the inheriting
   ones among the lists wait in the order they were read.
   */
  lemma {:induction false} LastDatasourceWins(files: seq<File>)
    requires ReadAll(files).Some?
    ensures KnowsDatasources(ReadAll(files).value, DeclaredDatasources(files))
    ensures ReadAll(files).value.work == DeclaredDefinitions(files)
  {
    if files != [] {
      var init, f := files[..|files| - 1], files[|files| - 1];
      LastDatasourceWins(init);
      FileKnown(ReadAll(init).value, f, DeclaredDatasources(init));
    }
  }

  // ---------- the root config ----------

  /** Which file holds a root config, if there is one. */
  ghost predicate IsRootAt(files: seq<File>, i: int)
  {
    0 <= i < |files| && files[i].document.Root?
  }

  /**
   Reading goes through exactly if there is at most one root config; it is then the one known, with its session
   params, and without one there are no session params.
   */
  lemma {:induction false} OneRootConfig(files: seq<File>)
    ensures ReadAll(files).Some? <==> forall i, j :: IsRootAt(files, i) && IsRootAt(files, j) ==> i == j
    ensures ReadAll(files).Some? ==>
              var c := ReadAll(files).value;
              && (forall i :: IsRootAt(files, i) ==>
                                && c.root == Some(files[i].document.root)
                                && c.sessionParams == Some(set n | n in files[i].document.root.sessionParams))
              && ((forall i :: !IsRootAt(files, i)) ==> c.root == None && c.sessionParams == Some({}))
  {
    if files != [] {
      var init, f := Unsnoc(files);
      OneRootConfig(init);
      assert forall i :: IsRootAt(files, i) <==> IsRootAt(init, i) || (i == |init| && f.document.Root?);
      if ReadAll(init).None? {
        var i, j :| IsRootAt(init, i) && IsRootAt(init, j) && i != j;
        assert IsRootAt(files, i) && IsRootAt(files, j);
      } else if Refused(ReadAll(init).value, f.document) {
        var i :| IsRootAt(init, i);
        assert IsRootAt(files, i) && IsRootAt(files, |init|);
      } else {
        RootRead(ReadAll(init).value, f);
        NoRootBefore(init, f);
        assert f.document.Root? ==> IsRootAt(files, |init|);
        if f.document.Root? {
          var names := set n | n in f.document.root.sessionParams;
          assert {} + names == names;
        }
      }
    }
  }

  lemma NoRootBefore(init: seq<File>, f: File)
    requires ReadAll(init).Some? && !Refused(ReadAll(init).value, f.document)
    requires forall i :: IsRootAt(init, i) ==> ReadAll(init).value.root.Some?
    ensures f.document.Root? ==> forall i :: !IsRootAt(init, i)
  {
  }

  lemma RootRead(c: Config, f: File)
    requires c.sessionParams.Some?
    ensures var r := ReadDocument(c, f);
            && r.root == (if f.document.Root? then Some(f.document.root) else c.root)
            && r.sessionParams
               == if f.document.Root? then Some(c.sessionParams.value + set n | n in f.document.root.sessionParams)
                  else c.sessionParams
  {
    match f.document
    case Root(root) =>
      var noted := c.(root := Some(root), sessionParams := Some(c.sessionParams.value + set n | n in root.sessionParams));
      AddPagesFrame(noted, Elements(root.pages), f.name);
    case Pages(pages) => AddPagesFrame(c, pages, f.name);
    case Datasources(list) => AddDatasourcesFrame(c, list, f.name);
    case Events(events) => AddEventsFrame(c, events, f.name);
    case _ =>
  }
}
