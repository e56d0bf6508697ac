/**
 The registered datasources of `ApplicationConfigProviderImpl` and the worklist of inheriting ones, as
 objects: `addDataSource`, `getDatasource` and `processInheritance`.
 */
module DatasourceRegistry {
  import opened Options
  import opened Seqs
  import opened InheritanceIds
  import opened Fields
  import opened FieldNodes
  import opened Datasources
  import opened InheritanceHelper
  import opened Inheritance
  import opened DatasourceChains

  /** An entry of `descendantDatasources`. */
  datatype Pending = Pending(ds: Datasource, resource: string)

  /** Two datasources that share no object. */
  ghost predicate Apart(a: Datasource, b: Datasource)
    reads a, b
  {
    a != b && Nodes(a.fields) !! Nodes(b.fields)
  }

  lemma MapUpdated<T>(m: map<string, T>, m': map<string, T>, key: string, value: T)
    requires m'.Keys == m.Keys + {key} && m'[key] == value
    requires forall k :: k in m && k != key ==> m'[k] == m[k]
    ensures m' == m[key := value]
  {
  }

  lemma OneLess<T>(m: map<string, T>, todo: set<string>, key: string)
    requires key in todo && todo <= m.Keys
    ensures (m - todo)[key := m[key]] == m - (todo - {key})
  {
  }

  lemma NoneLess<T>(m: map<string, T>)
    ensures m - m.Keys == map[] && m - {} == m
  {
  }

  /** All field nodes below the datasources of a map. */
  ghost function NodesOfAll(m: map<string, Datasource>): set<FieldNode>
    reads m.Values
  {
    set id, n | id in m && n in Nodes(m[id].fields) :: n
  }

  /** The datasources of a map are valid and share nothing. */
  ghost predicate AllApart(m: map<string, Datasource>)
    reads m.Values
  {
    && (forall id :: id in m ==> m[id].Valid())
    && (forall a, b :: a in m && b in m && a != b ==> Apart(m[a], m[b]))
  }

  /** The contents of the datasources of a map. */
  function ContentsOf(m: map<string, Datasource>): map<string, DatasourceView>
    requires AllApart(m)
    reads m.Values, NodesOfAll(m)
  {
    map id | id in m :: m[id].View()
  }

  lemma AddedApart(m: map<string, Datasource>, id: string, ds: Datasource)
    requires AllApart(m) && ds.Valid() && forall other :: other in m && other != id ==> Apart(ds, m[other])
    ensures AllApart(m[id := ds])
    ensures ContentsOf(m[id := ds]) == ContentsOf(m)[id := ds.View()]
  {
    var m' := m[id := ds];
    forall a, b | a in m' && b in m' && a != b
      ensures Apart(m'[a], m'[b])
    {
      if a == id {
        assert Apart(ds, m[b]);
      } else if b == id {
        assert Apart(ds, m[a]);
      } else {
        assert Apart(m[a], m[b]);
      }
    }
    MapUpdated(ContentsOf(m), ContentsOf(m'), id, ds.View());
  }

  /** What a map of datasources holds depends on nothing but its datasources and their nodes. */
  twostate lemma Unaffected(m: map<string, Datasource>)
    requires old(AllApart(m))
    requires unchanged(m.Values)
    requires unchanged(NodesOfAll(m))
    ensures AllApart(m) && ContentsOf(m) == old(ContentsOf(m))
  {
  }

  /** `initMetaData` on one datasource of a map changes no other one. */
  method InitOne(m: map<string, Datasource>, id: string)
    requires AllApart(m) && id in m
    modifies Nodes(m[id].fields)
    ensures AllApart(m) && ContentsOf(m) == old(ContentsOf(m))[id := Bound(old(m[id].View()))]
  {
    ghost var before := ContentsOf(m);
    m[id].InitMetaData();
    forall other | other in m && other != id
      ensures m[other].View() == before[other]
    {
      assert Apart(m[other], m[id]);
    }
    MapUpdated(before, ContentsOf(m), id, Bound(before[id]));
  }

  /** The datasources of a map and of a worklist. */
  ghost function Waiting(work: seq<Pending>): set<Datasource>
  {
    set p | p in work :: p.ds
  }

  ghost function WaitingNodes(work: seq<Pending>): set<FieldNode>
    reads Waiting(work)
  {
    set p, n | p in work && n in Nodes(p.ds.fields) :: n
  }

  lemma WaitingNodesOf(work: seq<Pending>, k: nat)
    requires k < |work|
    ensures Nodes(work[k].ds.fields) <= WaitingNodes(work) && work[k].ds in Waiting(work)
  {
    assert work[k] in work;
  }

  /** Definitions waiting for their ancestor are valid and share nothing. */
  ghost predicate Separate(work: seq<Pending>)
    reads Waiting(work)
  {
    && (forall i :: 0 <= i < |work| ==> work[i].ds.Valid() && IsInheriting(work[i].ds.id))
    && (forall i, j :: 0 <= i < j < |work| ==> Apart(work[i].ds, work[j].ds))
  }

  /** Nothing that waits is part of a registered datasource. */
  ghost predicate Clear(m: map<string, Datasource>, work: seq<Pending>)
    reads m.Values, Waiting(work)
  {
    Waiting(work) !! m.Values && WaitingNodes(work) !! NodesOfAll(m)
  }

  ghost function WorkView(work: seq<Pending>): seq<Definition<DatasourceView>>
    requires Separate(work)
    reads Waiting(work), WaitingNodes(work)
  {
    seq(|work|, i requires 0 <= i < |work| && Separate(work) reads Waiting(work), WaitingNodes(work) =>
      ToDefinition(work[i].ds.View(), work[i].resource))
  }

  /** What waits depends on nothing but its datasources and their nodes. */
  twostate lemma WaitingUnaffected(work: seq<Pending>)
    requires old(Separate(work))
    requires unchanged(Waiting(work)) && unchanged(WaitingNodes(work))
    ensures Separate(work) && WorkView(work) == old(WorkView(work)) && WaitingNodes(work) == old(WaitingNodes(work))
  {
    assert forall i :: 0 <= i < |work| ==> work[i] in work;
  }

  /** Which nodes are registered depends on the datasources alone. */
  twostate lemma SameNodes(m: map<string, Datasource>)
    requires unchanged(m.Values)
    ensures NodesOfAll(m) == old(NodesOfAll(m))
  {
  }

  lemma WithoutOne<T>(s: seq<T>, k: nat)
    requires k < |s|
    ensures var rest := s[..k] + s[k + 1..];
            && |rest| == |s| - 1
            && forall i :: 0 <= i < |rest| ==> rest[i] == s[if i < k then i else i + 1]
  {
  }

  lemma WaitingRemoved(work: seq<Pending>, k: nat)
    requires k < |work| && Separate(work)
    ensures var rest := work[..k] + work[k + 1..];
            && Separate(rest)
            && Waiting(rest) <= Waiting(work) && WaitingNodes(rest) <= WaitingNodes(work)
            && WaitingNodes(rest) !! Nodes(work[k].ds.fields)
  {
    var rest := work[..k] + work[k + 1..];
    WithoutOne(work, k);
    forall p | p in rest
      ensures p in work && Apart(p.ds, work[k].ds)
    {
      var i :| 0 <= i < |rest| && rest[i] == p;
    }
  }

  lemma ViewRemoved(work: seq<Pending>, k: nat)
    requires k < |work| && Separate(work) && Separate(work[..k] + work[k + 1..])
    ensures WorkView(work[..k] + work[k + 1..]) == WorkView(work)[..k] + WorkView(work)[k + 1..]
  {
    WithoutOne(work, k);
    WithoutOne(WorkView(work), k);
  }

  lemma WaitingAdded(work: seq<Pending>, p: Pending)
    requires Separate(work) && p.ds.Valid() && IsInheriting(p.ds.id)
    requires p.ds !in Waiting(work) && Nodes(p.ds.fields) !! WaitingNodes(work)
    ensures Separate(work + [p]) && Waiting(work + [p]) == Waiting(work) + {p.ds}
    ensures WaitingNodes(work + [p]) == WaitingNodes(work) + Nodes(p.ds.fields)
    ensures WorkView(work + [p]) == WorkView(work) + [ToDefinition(p.ds.View(), p.resource)]
  {
    assert forall i :: 0 <= i < |work| ==> work[i] in work;
  }

  lemma ClearAdded(m: map<string, Datasource>, work: seq<Pending>, id: string, ds: Datasource)
    requires Clear(m, work) && ds !in Waiting(work) && Nodes(ds.fields) !! WaitingNodes(work)
    ensures Clear(m[id := ds], work)
  {
    assert m[id := ds].Values <= m.Values + {ds};
  }

  lemma NodesAdded(m: map<string, Datasource>, id: string, ds: Datasource)
    ensures NodesOfAll(m[id := ds]) <= NodesOfAll(m) + Nodes(ds.fields)
  {
  }

  lemma NodesOfOne(m: map<string, Datasource>, id: string)
    requires id in m
    ensures Nodes(m[id].fields) <= NodesOfAll(m)
  {
  }

  /** A waiting definition shares nothing with what is registered. */
  lemma WaitsApart(m: map<string, Datasource>, work: seq<Pending>, k: nat)
    requires k < |work| && Separate(work) && Clear(m, work)
    ensures work[k].ds.Valid() && IsInheriting(work[k].ds.id) && Nodes(work[k].ds.fields) <= WaitingNodes(work)
    ensures forall id :: id in m ==> Apart(work[k].ds, m[id])
  {
    WaitingNodesOf(work, k);
    forall id | id in m
      ensures Apart(work[k].ds, m[id])
    {
      NodesOfOne(m, id);
    }
  }

  /** What a definition's datasource turns into is not part of the other definitions. */
  lemma WaitingMerged(m: map<string, Datasource>, work: seq<Pending>, k: nat, id: string, d: Datasource)
    requires k < |work| && Separate(work) && Clear(m, work) && d !in Waiting(work)
    requires forall n :: n in Nodes(d.fields) && n in WaitingNodes(work) ==> n in Nodes(work[k].ds.fields)
    ensures Clear(m[id := d], work[..k] + work[k + 1..])
  {
    WaitingRemoved(work, k);
    assert m[id := d].Values <= m.Values + {d};
  }

  /** What became of a definition when it was visited. */
  datatype Visited = Missing | Crashed | Merged

  /** A merged definition leaves the queue. */
  function Remaining<T>(visited: Visited, queue: seq<T>, k: nat): seq<T>
    requires k < |queue|
  {
    if visited.Merged? then queue[..k] + queue[k + 1..] else queue
  }

  /** What becomes of the registered datasources and the resource names when a definition inherits from its ancestor. */
  ghost function Adopted(before: map<string, DatasourceView>, resources: map<string, string>, def: DatasourceView,
      ancestor: DatasourceView, resource: string): (Visited, map<string, DatasourceView>, map<string, string>)
    requires IsInheriting(def.id)
  {
    if !Mergeable(def, ancestor) then (Crashed, before, resources)
    else
      (Merged, before[DescendantId(def.id) := Inherited(def, ancestor)],
       resources[DatasourceKey(DescendantId(def.id)) := resource])
  }

  /** What a visit makes of the registered datasources and the resource names. */
  ghost function VisitOutcome(before: map<string, DatasourceView>, resources: map<string, string>, def: DatasourceView,
      resource: string): (Visited, map<string, DatasourceView>, map<string, string>)
    requires IsInheriting(def.id)
  {
    var source := AncestorId(def.id);
    if source !in before then (Missing, before, resources)
    else
      var ancestor := Bound(before[source]);
      Adopted(before[source := ancestor], resources, def, ancestor, resource)
  }

  class Registry {
    var datasources: map<string, Datasource>
    var resources: map<string, string>
    var descendants: seq<Pending>

    /** The field nodes of this registry. */
    ghost var Repr: set<FieldNode>

    ghost predicate Valid()
      reads this, datasources.Values
    {
      AllApart(datasources) && NodesOfAll(datasources) <= Repr
    }

    function Contents(): map<string, DatasourceView>
      requires Valid()
      reads this, datasources.Values, NodesOfAll(datasources)
    {
      ContentsOf(datasources)
    }

    /** `getDatasource`: fills in the bindings of the datasource it returns. */
    method GetDatasource(id: string) returns (ds: Datasource?)
      requires Valid()
      modifies if id in datasources then Nodes(datasources[id].fields) else {}
      ensures Valid()
      ensures id !in datasources ==> ds == null && Contents() == old(Contents())
      ensures id in datasources ==> ds == datasources[id]
      ensures id in datasources ==> Contents() == old(Contents())[id := Bound(old(Contents())[id])]
    {
      if id !in datasources {
        return null;
      }
      ds := datasources[id];
      InitOne(datasources, id);
    }

    /** `getDatasource` leaves what waits alone. */
    method Fetch(id: string, ghost queue: seq<Pending>) returns (ds: Datasource?)
      requires Valid() && Separate(queue) && Clear(datasources, queue)
      modifies if id in datasources then Nodes(datasources[id].fields) else {}
      ensures Valid() && Separate(queue) && Clear(datasources, queue)
      ensures WaitingNodes(queue) == old(WaitingNodes(queue)) && WorkView(queue) == old(WorkView(queue))
      ensures if id in datasources then ds == datasources[id] else ds == null
      ensures Contents() == if ds == null then old(Contents()) else old(Contents())[id := Bound(old(Contents())[id])]
    {
      if id in datasources {
        NodesOfOne(datasources, id);
      }
      ds := GetDatasource(id);
      WaitingUnaffected(queue);
      SameNodes(datasources);
    }

    /** `getDatasource`, as seen by a caller who does not know the maps. */
    method ReadOne(id: string) returns (ds: Datasource?)
      requires Ready()
      modifies Repr
      ensures Ready() && Work() == old(Work()) && (ds == null <==> id !in old(Contents()))
      ensures ds != null ==> ds in datasources.Values && Nodes(ds.fields) <= Repr
      ensures Contents() == if ds == null then old(Contents()) else old(Contents())[id := Bound(old(Contents())[id])]
      ensures ds != null ==> ds.Valid() && ds.View() == Bound(old(Contents())[id])
    {
      if id in datasources {
        NodesOfOne(datasources, id);
      }
      ds := Fetch(id, descendants);
    }

    /** `addDataSource` */
    method AddDataSource(ds: Datasource, resource: string)
      requires Valid() && ds.Valid()
      requires forall id :: id in datasources && id != ds.id ==> Apart(ds, datasources[id])
      modifies `datasources, `resources, `Repr
      ensures datasources == old(datasources)[ds.id := ds] && Repr == old(Repr) + Nodes(ds.fields)
      ensures resources == old(resources)[DatasourceKey(ds.id) := resource]
      ensures Valid() && Contents() == old(Contents())[ds.id := old(ds.View())]
    {
      AddedApart(datasources, ds.id, ds);
      ghost var m := datasources[ds.id := ds];
      label Before:
      datasources := datasources[ds.id := ds];
      resources := resources[DatasourceKey(ds.id) := resource];
      Repr := Repr + Nodes(ds.fields);
      Unaffected@Before(m);
    }

    /** The registered datasources and the worklist share nothing. */
    ghost predicate Ready()
      reads this, datasources.Values, Waiting(descendants)
    {
      Valid() && Separate(descendants) && Clear(datasources, descendants) && WaitingNodes(descendants) <= Repr
    }

    /** The definitions on the worklist. */
    ghost function Work(): seq<Definition<DatasourceView>>
      requires Ready()
      reads this, datasources.Values, Waiting(descendants), WaitingNodes(descendants)
    {
      WorkView(descendants)
    }

    /** What is registered and what waits depends on nothing else. */
    twostate lemma Kept()
      requires old(Ready())
      requires unchanged(this) && unchanged(datasources.Values) && unchanged(Waiting(descendants)) && unchanged(Repr)
      ensures Ready() && Contents() == old(Contents()) && Work() == old(Work())
    {
      Unaffected(datasources);
      WaitingUnaffected(descendants);
    }

    /** Whatever is registered was registered before or is new. */
    twostate predicate OldOrNew()
      reads this
    {
      forall id :: id in datasources ==> datasources[id] in old(datasources.Values) || fresh(datasources[id])
    }

    constructor ()
      ensures Ready() && datasources == map[] && Repr == {}
      ensures Contents() == map[] && resources == map[] && Work() == []
    {
      datasources, resources, descendants, Repr := map[], map[], [], {};
    }

    /** Puts a datasource that was just read into the map. */
    method PutRead(id: string, view: DatasourceView)
      requires Ready()
      modifies `datasources, `Repr
      ensures Ready() && Grown() && OldOrNew() && descendants == old(descendants) && Work() == old(Work())
      ensures Contents() == old(Contents())[id := view]
    {
      var ds := new Datasource.Unmarshal(view);
      Unaffected(datasources);
      WaitingUnaffected(descendants);
      Put(id, ds);
    }

    method Put(id: string, ds: Datasource)
      requires Ready() && ds.Valid()
      requires ds !in Waiting(descendants) && ds !in datasources.Values && Nodes(ds.fields) !! Repr
      modifies `datasources, `Repr
      ensures Ready() && Repr == old(Repr) + Nodes(ds.fields) && datasources == old(datasources)[id := ds]
      ensures descendants == old(descendants) && Work() == old(Work())
      ensures Contents() == old(Contents())[id := old(ds.View())]
    {
      Grow(Nodes(ds.fields));
      PutOwn(id, ds);
    }

    /** Registers a datasource whose nodes belong to the registry already. */
    method PutOwn(id: string, ds: Datasource)
      requires Ready() && ds.Valid() && ds !in Waiting(descendants) && ds !in datasources.Values
      requires Nodes(ds.fields) <= Repr && Nodes(ds.fields) !! NodesOfAll(datasources) + WaitingNodes(descendants)
      modifies `datasources
      ensures datasources == old(datasources)[id := ds]
      ensures Ready() && Contents() == old(Contents())[id := old(ds.View())] && Work() == old(Work())
    {
      AddedApart(datasources, id, ds);
      ClearAdded(datasources, descendants, id, ds);
      NodesAdded(datasources, id, ds);
      SetDatasources(datasources[id := ds]);
    }

    /** Notes that more nodes belong to the registry. */
    ghost method Grow(nodes: set<FieldNode>)
      requires Ready()
      modifies `Repr
      ensures Repr == old(Repr) + nodes
      ensures Ready() && Contents() == old(Contents()) && Work() == old(Work())
    {
      Repr := Repr + nodes;
      Unaffected(datasources);
      WaitingUnaffected(descendants);
    }

    /** Replaces the registered datasources. */
    method SetDatasources(m: map<string, Datasource>)
      requires Ready() && AllApart(m) && Clear(m, descendants) && NodesOfAll(m) <= Repr
      modifies `datasources
      ensures datasources == m && Ready() && Contents() == old(ContentsOf(m)) && Work() == old(Work())
    {
      datasources := m;
      Unaffected(m);
      WaitingUnaffected(descendants);
    }

    /** `addDataSource` on a datasource that was just read. */
    method AddRead(view: DatasourceView, resource: string)
      requires Ready()
      modifies `datasources, `resources, `Repr
      ensures Ready() && Grown() && Work() == old(Work())
      ensures Contents() == old(Contents())[view.id := view]
      ensures resources == old(resources)[DatasourceKey(view.id) := resource]
    {
      PutRead(view.id, view);
      NameResource(DatasourceKey(view.id), resource);
    }

    /** Exchanges the registered datasources for others just read. */
    method ReplaceRead(views: map<string, DatasourceView>)
      requires Ready()
      modifies `datasources, `Repr
      ensures Ready() && Grown() && OldOrNew() && Work() == old(Work()) && Contents() == views
    {
      NoneLess(views);
      Forget();
      var todo := views.Keys;
      while todo != {}
        invariant Ready() && Grown() && OldOrNew() && Work() == old(Work()) && todo <= views.Keys
        invariant Contents() == views - todo
      {
        var id :| id in todo;
        PutRead(id, views[id]);
        OneLess(views, todo, id);
        todo := todo - {id};
      }
      NoneLess(views);
    }

    method ReplaceNames(names: map<string, string>)
      requires Ready()
      modifies `resources
      ensures Ready() && Contents() == old(Contents()) && Work() == old(Work()) && resources == names
    {
      resources := names;
      Unaffected(datasources);
      WaitingUnaffected(descendants);
    }

    method Forget()
      requires Ready()
      modifies `datasources
      ensures Ready() && datasources == map[] && Work() == old(Work()) && Contents() == map[]
    {
      datasources := map[];
      WaitingUnaffected(descendants);
    }

    /** Puts a datasource that was just read on the worklist. */
    method QueueRead(view: DatasourceView, resource: string)
      requires Ready() && IsInheriting(view.id)
      modifies `descendants, `Repr
      ensures Ready() && Grown() && Work() == old(Work()) + [ToDefinition(view, resource)]
      ensures datasources == old(datasources) && Contents() == old(Contents())
    {
      var ds := new Datasource.Unmarshal(view);
      Unaffected(datasources);
      WaitingUnaffected(descendants);
      Queue(Pending(ds, resource));
    }

    method Queue(p: Pending)
      requires Ready() && p.ds.Valid() && IsInheriting(p.ds.id)
      requires p.ds !in Waiting(descendants) && p.ds !in datasources.Values && Nodes(p.ds.fields) !! Repr
      modifies `descendants, `Repr
      ensures Ready() && Repr == old(Repr) + Nodes(p.ds.fields) && datasources == old(datasources)
      ensures Work() == old(Work()) + [ToDefinition(old(p.ds.View()), p.resource)] && Contents() == old(Contents())
    {
      WaitingAdded(descendants, p);
      assert Nodes(p.ds.fields) !! NodesOfAll(datasources);
      Grow(Nodes(p.ds.fields));
      SetDescendants(descendants + [p]);
    }

    /** Remembers which resource something was read from. */
    method NameResource(key: string, resource: string)
      requires Ready()
      modifies `resources
      ensures resources == old(resources)[key := resource]
      ensures Ready() && Contents() == old(Contents()) && Work() == old(Work())
    {
      resources := resources[key := resource];
      Unaffected(datasources);
      WaitingUnaffected(descendants);
    }

    /** `inherit` leaves the registered datasources alone. */
    method Derive(def: Datasource, ancestor: Datasource) returns (descendant: Datasource?)
      requires Valid() && def.Valid() && ancestor.Valid() && IsInheriting(def.id)
      requires forall id :: id in datasources ==> Apart(def, datasources[id])
      ensures Valid() && Contents() == old(Contents())
      ensures descendant == null <==> !Mergeable(old(def.View()), old(ancestor.View()))
      ensures descendant != null ==> fresh(descendant) && descendant.Valid()
      ensures descendant != null ==> forall n :: n in Nodes(descendant.fields) ==> n in Nodes(def.fields) || fresh(n)
      ensures descendant != null ==> forall id :: id in datasources ==> Apart(descendant, datasources[id])
      ensures descendant != null ==> descendant.View() == Inherited(old(def.View()), old(ancestor.View()))
    {
      descendant := Inherit(def, ancestor);
      Unaffected(datasources);
    }

    /** A merged definition registers one new datasource, which has no old nodes but the definition's. */
    twostate predicate Renewed(merged: bool, def: Datasource)
      requires IsInheriting(def.id)
      reads this, datasources.Values, def
    {
      if merged then
        && DescendantId(def.id) in datasources
        && var d := datasources[DescendantId(def.id)];
        && datasources == old(datasources)[DescendantId(def.id) := d]
        && fresh(d) && forall n :: n in Nodes(d.fields) ==> n in Nodes(def.fields) || fresh(n)
      else
        datasources == old(datasources)
    }

    /** Nodes are added to the registry only when they are new. */
    twostate predicate Grown()
      reads this
    {
      old(Repr) <= Repr && forall n :: n in Repr ==> n in old(Repr) || fresh(n)
    }

    /** Registers what a definition inherits from its ancestor, unless `inherit` fails. */
    method Adopt(def: Datasource, ancestor: Datasource, resource: string, ghost kept: set<object>) returns (merged: bool)
      requires Valid() && def.Valid() && ancestor.Valid() && IsInheriting(def.id) && Nodes(def.fields) <= Repr
      requires this !in kept && forall id :: id in datasources ==> Apart(def, datasources[id])
      modifies `datasources, `resources, `Repr
      ensures Valid() && Renewed(merged, def) && Grown()
      ensures unchanged(kept)
      ensures (if merged then Merged else Crashed, Contents(), resources)
           == Adopted(old(Contents()), old(resources), old(def.View()), old(ancestor.View()), resource)
    {
      var descendant := Derive(def, ancestor);
      merged := descendant != null;
      if merged {
        AddDataSource(descendant, resource);
      }
    }

    /** A definition that was adopted leaves the queue; the others are not affected. */
    method AdoptQueued(def: Pending, ancestor: Datasource, ghost queue: seq<Pending>, ghost k: nat)
      returns (visited: Visited)
      requires k < |queue| && def == queue[k] && Valid() && ancestor.Valid()
      requires Separate(queue) && Clear(datasources, queue) && WaitingNodes(queue) <= Repr
      modifies `datasources, `resources, `Repr
      ensures Valid() && Grown() && WaitingNodes(queue) == old(WaitingNodes(queue))
      ensures Separate(Remaining(visited, queue, k)) && Clear(datasources, Remaining(visited, queue, k))
      ensures WorkView(Remaining(visited, queue, k)) == Remaining(visited, old(WorkView(queue)), k)
      ensures (visited, Contents(), resources)
           == Adopted(old(Contents()), old(resources), old(def.ds.View()), old(ancestor.View()), def.resource)
    {
      ghost var m := datasources;
      WaitsApart(m, queue, k);
      var merged := Adopt(def.ds, ancestor, def.resource, Waiting(queue) + WaitingNodes(queue) + m.Values);
      WaitingUnaffected(queue);
      visited := if merged then Merged else Crashed;
      if merged {
        WaitingRemoved(queue, k);
        ViewRemoved(queue, k);
        WaitingMerged(m, queue, k, DescendantId(def.ds.id), datasources[DescendantId(def.ds.id)]);
      }
    }

    /** One turn of the inner loop of `processInheritance`. It leaves the other waiting definitions alone. */
    method VisitDefinition(def: Pending, ghost queue: seq<Pending>, ghost k: nat) returns (visited: Visited)
      requires k < |queue| && def == queue[k]
      requires Valid() && Separate(queue) && Clear(datasources, queue) && WaitingNodes(queue) <= Repr
      modifies `datasources, `resources, `Repr, Repr
      ensures Valid() && Grown() && WaitingNodes(queue) == old(WaitingNodes(queue))
      ensures Separate(Remaining(visited, queue, k)) && Clear(datasources, Remaining(visited, queue, k))
      ensures WorkView(Remaining(visited, queue, k)) == Remaining(visited, old(WorkView(queue)), k)
      ensures (visited, Contents(), resources)
           == VisitOutcome(old(Contents()), old(resources), old(def.ds.View()), def.resource)
    {
      ghost var defs := WorkView(queue);
      var source := AncestorId(def.ds.id);
      if source in datasources {
        NodesOfOne(datasources, source);
      }
      var ancestor := Fetch(source, queue);
      visited := Missing;
      if ancestor != null {
        assert defs[k] == WorkView(queue)[k];
        visited := AdoptQueued(def, ancestor, queue, k);
      }
    }

    /** The definitions `left` so far and those not yet visited wait in one queue. */
    ghost predicate InQueue(left: seq<Pending>, work: seq<Pending>, found: seq<Definition<DatasourceView>>,
        defs: seq<Definition<DatasourceView>>, i: nat)
      requires i <= |work| == |defs|
      reads this, datasources.Values, NodesOfAll(datasources), Waiting(left + work[i..]), WaitingNodes(left + work[i..])
    {
      && Separate(left + work[i..]) && Clear(datasources, left + work[i..]) && WaitingNodes(left + work[i..]) <= Repr
      && |found| == |left| && WorkView(left + work[i..]) == found + defs[i..]
    }

    /** One turn of the inner loop of `processInheritance`. */
    method Turn(ghost store: Store<DatasourceView>, ghost defs: seq<Definition<DatasourceView>>,
        ghost found: seq<Definition<DatasourceView>>, work: seq<Pending>, i: nat, left: seq<Pending>)
      returns (crashed: bool, left': seq<Pending>, ghost found': seq<Definition<DatasourceView>>)
      requires i < |work| == |defs| && Valid() && InQueue(left, work, found, defs, i)
      requires Sweep(DatasourceRules(), store, defs[..i]) == Swept(Store(Contents(), resources), found)
      modifies `datasources, `resources, `Repr, Repr
      ensures Valid() && Grown()
      ensures crashed ==> Sweep(DatasourceRules(), store, defs) == Broken(Store(Contents(), resources))
      ensures !crashed ==> InQueue(left', work, found', defs, i + 1)
      ensures !crashed ==>
                Sweep(DatasourceRules(), store, defs[..i + 1]) == Swept(Store(Contents(), resources), found')
    {
      ghost var queue := left + work[i..];
      ghost var contents, names := Contents(), resources;
      NextInQueue(left, work, i);
      NextInQueue(found, defs, i);
      var visited := VisitDefinition(work[i], queue, |left|);
      TurnResult(store, defs, i, found, contents, names, visited, Contents(), resources);
      left', found' := left, found;
      if visited.Missing? {
        left' := left + [work[i]];
        found' := found + [defs[i]];
      }
      crashed := visited.Crashed?;
      assert visited.Merged? ==> WaitingNodes(left + work[i + 1..]) <= WaitingNodes(queue);
    }

    /** The inner loop of `processInheritance`: one sweep over the worklist. */
    method SweepOnce(work: seq<Pending>) returns (crashed: bool, left: seq<Pending>)
      requires Valid() && Separate(work) && Clear(datasources, work) && WaitingNodes(work) <= Repr
      modifies `datasources, `resources, `Repr, Repr
      ensures Valid() && Grown()
      ensures Separate(left) && Clear(datasources, left) && WaitingNodes(left) <= Repr
      ensures Sweep(DatasourceRules(), old(Store(Contents(), resources)), old(WorkView(work)))
           == if crashed then Broken(Store(Contents(), resources))
              else Swept(Store(Contents(), resources), WorkView(left))
    {
      left := [];
      ghost var store, defs := Store(Contents(), resources), WorkView(work);
      ghost var found: seq<Definition<DatasourceView>> := [];
      TakeAll(work);
      TakeAll(defs);
      Empty(work);
      Empty(defs);
      for i := 0 to |work|
        invariant Valid() && Grown()
        invariant InQueue(left, work, found, defs, i)
        invariant Sweep(DatasourceRules(), store, defs[..i]) == Swept(Store(Contents(), resources), found)
      {
        crashed, left, found := Turn(store, defs, found, work, i, left);
        if crashed {
          return true, [];
        }
      }
      Empty(left);
      Empty(found);
      return false, left;
    }

    /** Replaces the worklist. */
    method SetDescendants(work: seq<Pending>)
      requires Valid() && Separate(work) && Clear(datasources, work) && WaitingNodes(work) <= Repr
      modifies `descendants
      ensures descendants == work && Valid() && Contents() == old(Contents())
      ensures Separate(work) && Clear(datasources, work) && WaitingNodes(work) <= Repr
      ensures WorkView(work) == old(WorkView(work))
    {
      descendants := work;
      Unaffected(datasources);
      WaitingUnaffected(work);
    }

    /** What `processInheritance` comes to from here. */
    ghost function Processed(): Outcome<DatasourceView>
      requires Ready()
      reads this, datasources.Values, Waiting(descendants), Repr
    {
      Process(DatasourceRules(), Store(Contents(), resources), Work())
    }

    /**
     One turn of the outer loop of `processInheritance`. A null pointer in `inherit` leaves the worklist as it
     was; a sweep that resolved nothing clears it.
     */
    method Round() returns (crashed: bool, stuck: bool)
      requires Ready() && descendants != []
      modifies this, Repr
      ensures Valid() && Grown() && (!crashed ==> Ready())
      ensures crashed ==> old(Processed()) == Broken(Store(Contents(), resources))
      ensures !crashed && stuck ==> descendants == [] && old(Processed()) == Swept(Store(Contents(), resources), [])
      ensures !crashed && !stuck ==> |descendants| < |old(descendants)| && Processed() == old(Processed())
    {
      var actualSize := |descendants|;
      var left;
      crashed, left := SweepOnce(descendants);
      stuck := !crashed && actualSize <= |left|;
      if !crashed {
        SetDescendants(if stuck then [] else left);
      }
    }

    /** `processInheritance`: loops over the worklist until it is empty or no definition can be resolved. */
    method ProcessInheritance() returns (crashed: bool)
      requires Ready()
      modifies this, Repr
      ensures Valid() && Grown() && (!crashed ==> Ready() && descendants == [])
      ensures Process(DatasourceRules(), old(Store(Contents(), resources)), old(Work()))
           == var store := Store(Contents(), resources); if crashed then Broken(store) else Swept(store, [])
    {
      ghost var outcome := Processed();
      while descendants != []
        invariant Ready() && Grown()
        invariant outcome == Processed()
        decreases |descendants|
      {
        var broken, stuck := Round();
        if broken || stuck {
          return broken;
        }
      }
      return false;
    }
  }

  lemma NextInQueue<T>(left: seq<T>, work: seq<T>, i: nat)
    requires i < |work|
    ensures var queue := left + work[i..];
            && queue[|left|] == work[i]
            && (left + [work[i]]) + work[i + 1..] == queue
            && left + work[i + 1..] == queue[..|left|] + queue[|left| + 1..]
  {
  }

  /** A visit is one turn of the sweep, whatever was left before. */
  lemma TurnResult(store: Store<DatasourceView>, defs: seq<Definition<DatasourceView>>, i: nat,
      left: seq<Definition<DatasourceView>>, before: map<string, DatasourceView>, names: map<string, string>,
      visited: Visited, after: map<string, DatasourceView>, names': map<string, string>)
    requires i < |defs| && IsInheriting(defs[i].body.id) && defs[i] == ToDefinition(defs[i].body, defs[i].resource)
    requires Sweep(DatasourceRules(), store, defs[..i]) == Swept(Store(before, names), left)
    requires (visited, after, names') == VisitOutcome(before, names, defs[i].body, defs[i].resource)
    ensures visited.Missing? ==>
              Sweep(DatasourceRules(), store, defs[..i + 1]) == Swept(Store(after, names'), left + [defs[i]])
    ensures visited.Merged? ==>
              Sweep(DatasourceRules(), store, defs[..i + 1]) == Swept(Store(after, names'), left)
    ensures visited.Crashed? ==>
              Sweep(DatasourceRules(), store, defs) == Broken(Store(after, names'))
  {
    var rules := DatasourceRules();
    SweepTurn(rules, store, defs, i);
    VisitIs(before, names, defs[i], left, visited, after, names');
    if visited.Crashed? {
      SweepBreaks(rules, store, defs, i + 1);
    }
  }

  lemma VisitIs(before: map<string, DatasourceView>, names: map<string, string>, d: Definition<DatasourceView>,
      left: seq<Definition<DatasourceView>>, visited: Visited, after: map<string, DatasourceView>, names': map<string, string>)
    requires IsInheriting(d.body.id) && d == ToDefinition(d.body, d.resource)
    requires (visited, after, names') == VisitOutcome(before, names, d.body, d.resource)
    ensures Visit(DatasourceRules(), Swept(Store(before, names), left), d)
         == match visited
            case Missing => Swept(Store(after, names'), left + [d])
            case Crashed => Broken(Store(after, names'))
            case Merged => Swept(Store(after, names'), left)
  {
    if d.source in before {
      assert Merge(d.body, Bound(before[d.source]))
          == if Mergeable(d.body, Bound(before[d.source])) then Some(Inherited(d.body, Bound(before[d.source]))) else None;
    }
  }
}
