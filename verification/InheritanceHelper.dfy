/**
 `DatasourceInheritanceHelper.inherit` on objects: the ancestor is copied by marshalling and unmarshalling
 it, then the definition is merged into the copy by editing the copy's lists.
 */
module InheritanceHelper {
  import opened Options
  import opened Seqs
  import opened JavaStrings
  import opened InheritanceIds
  import opened NamedLists
  import opened Fields
  import opened FieldNodes
  import opened Datasources

  /** A datasource object with its config, meta-data and bean. */
  class Datasource {
    var id: string
    var title: Option<Text>
    var description: Option<Text>
    var labels: Option<seq<Label>>
    var permissions: Option<seq<string>>
    var params: Option<seq<Param>>
    var bindClass: Option<string>
    var binding: Option<string>
    var fields: seq<FieldNode>
    var bean: Option<Bean>
    var panels: seq<LinkPanel>

    ghost predicate Valid()
      reads this
    {
      Forest(fields)
    }

    /** The contents without the fields. */
    function Head(): DatasourceView
      reads this
    {
      DatasourceView(id, title, description, labels, permissions, params, bindClass, binding, [], bean, panels)
    }

    /** The contents: what marshalling writes. */
    function View(): DatasourceView
      requires Valid()
      reads this, Nodes(fields)
    {
      Head().(fields := Views(fields))
    }

    /** Unmarshalling: a datasource with the given contents and field nodes of its own. */
    constructor Unmarshal(view: DatasourceView)
      ensures Valid() && fresh(Nodes(fields)) && View() == view
    {
      var nodes := UnmarshalFields(view.fields);
      id, title, description := view.id, view.title, view.description;
      labels, permissions, params := view.labels, view.permissions, view.params;
      bindClass, binding, fields := view.bindClass, view.binding, nodes;
      bean, panels := view.bean, view.panels;
    }

    method SetFields(fields: seq<FieldNode>)
      requires Forest(fields)
      modifies `fields
      ensures Valid() && this.fields == fields && View() == old(Head()).(fields := old(Views(fields)))
    {
      this.fields := fields;
    }

    /** `initMetaData`: fills in the missing bindings in place. */
    method InitMetaData()
      requires Valid()
      modifies Nodes(fields)
      ensures Valid() && View() == Bound(old(View()))
    {
      SetBindings(binding, fields);
    }
  }

  /** One turn of the field loop: the node itself is taken over, not copied. */
  method MergeField(inherited: seq<FieldNode>, field: FieldNode) returns (merged: seq<FieldNode>)
    requires Forest(inherited) && field.Tree() && Nodes(inherited) !! field.Repr
    ensures Forest(merged) && Nodes(merged) <= Nodes(inherited) + field.Repr
    ensures Views(merged) == FieldStep(Views(inherited), field.View())
  {
    var orig := FindNode(inherited, field.name);
    if orig < |inherited| {
      merged := inherited[orig := field];
      ReplacedNode(inherited, orig, field);
    } else {
      var panel := FindPanel(inherited);
      var at := if panel < |inherited| then panel else 0;
      merged := inherited[..at] + [field] + inherited[at..];
      InsertedNode(inherited, at, field);
    }
  }

  lemma ReplacedNode(fields: seq<FieldNode>, p: nat, f: FieldNode)
    requires Forest(fields) && p < |fields| && f.Tree() && Nodes(fields) !! f.Repr
    ensures Forest(fields[p := f]) && Nodes(fields[p := f]) <= Nodes(fields) + f.Repr
    ensures Views(fields[p := f]) == Views(fields)[p := f.View()]
  {
    var front, back := fields[..p], fields[p + 1..];
    Around(fields, p);
    Together(front, f, back);
    SplitAt(fields, p, f);
    UpdateMiddle(Views(front), fields[p].View(), Views(back), f.View());
  }

  lemma InsertedNode(fields: seq<FieldNode>, at: nat, f: FieldNode)
    requires Forest(fields) && at <= |fields| && f.Tree() && Nodes(fields) !! f.Repr
    ensures var r := fields[..at] + [f] + fields[at..];
            && Forest(r) && Nodes(r) == Nodes(fields) + f.Repr
            && Views(r) == Views(fields)[..at] + [f.View()] + Views(fields)[at..]
  {
    var front, back := fields[..at], fields[at..];
    Parts(fields, at);
    Together(front, f, back);
    InsertBetween(Views(front), f.View(), Views(back));
  }

  /** The nodes hold the merged fields so far and come from nowhere else. */
  ghost predicate MergedSoFar(merged: seq<FieldNode>, inherited: seq<FieldNode>, added: seq<FieldNode>, i: nat)
    requires Forest(inherited) && Forest(added) && i <= |added|
    reads Nodes(merged), Nodes(inherited), Nodes(added)
  {
    && Forest(merged) && Nodes(merged) <= Nodes(inherited) + Nodes(added[..i])
    && Views(merged) == FieldsMerged(Views(inherited), Views(added)[..i])
  }

  /** The fields of `inherited` with those of `added` merged in. */
  method MergeFields(inherited: seq<FieldNode>, added: seq<FieldNode>) returns (merged: seq<FieldNode>)
    requires Forest(inherited) && Forest(added) && Nodes(inherited) !! Nodes(added)
    ensures Forest(merged) && Nodes(merged) <= Nodes(inherited) + Nodes(added)
    ensures Views(merged) == FieldsMerged(Views(inherited), Views(added))
  {
    merged := inherited;
    for i := 0 to |added|
      invariant MergedSoFar(merged, inherited, added, i)
    {
      merged := MergeNext(merged, inherited, added, i);
    }
    TakeAll(added);
    TakeAll(Views(added));
  }

  method MergeNext(merged: seq<FieldNode>, ghost inherited: seq<FieldNode>, added: seq<FieldNode>, i: nat)
    returns (merged': seq<FieldNode>)
    requires Forest(inherited) && Forest(added) && Nodes(inherited) !! Nodes(added)
    requires i < |added| && MergedSoFar(merged, inherited, added, i)
    ensures MergedSoFar(merged', inherited, added, i + 1)
  {
    NextTree(added, i);
    FieldsMergedStep(Views(inherited), Views(added), i);
    merged' := MergeField(merged, added[i]);
  }

  lemma NextTree(fields: seq<FieldNode>, i: nat)
    requires Forest(fields) && i < |fields|
    ensures fields[i].Tree() && Nodes(fields[..i]) !! fields[i].Repr && fields[i].Repr <= Nodes(fields)
    ensures Nodes(fields[..i + 1]) == Nodes(fields[..i]) + fields[i].Repr
    ensures Views(fields)[i] == fields[i].View()
  {
    Around(fields, i);
    ViewsAt(fields, i);
    TakeOne(fields, i);
    NodesConcat(fields[..i], [fields[i]]);
    Single(fields[i]);
  }

  lemma FieldsMergedStep(xs: seq<Field>, ys: seq<Field>, i: nat)
    requires i < |ys|
    ensures FieldsMerged(xs, ys[..i + 1]) == FieldStep(FieldsMerged(xs, ys[..i]), ys[i])
  {
    TakeOne(ys, i);
    Snoc(ys[..i], ys[i]);
  }

  /** `getField`, as an index. */
  method FindNode(fields: seq<FieldNode>, name: string) returns (p: nat)
    requires Forest(fields)
    ensures p == Position(Views(fields), name)
  {
    p := 0;
    while p < |fields| && fields[p].name != name
      invariant p <= |fields| && forall k :: 0 <= k < p ==> fields[k].name != name
    {
      p := p + 1;
    }
    forall k | 0 <= k < |fields|
      ensures Views(fields)[k].key == fields[k].name
    {
      ViewsAt(fields, k);
    }
    PositionIs(Views(fields), name, p);
  }

  /** `getFirstFieldOfType(.., LINKPANEL)`, as an index. */
  method FindPanel(fields: seq<FieldNode>) returns (p: nat)
    requires Forest(fields)
    ensures p == FirstPanel(Views(fields))
  {
    p := 0;
    while p < |fields| && !fields[p].kind.LinkpanelType?
      invariant p <= |fields| && forall k :: 0 <= k < p ==> !fields[k].kind.LinkpanelType?
    {
      p := p + 1;
    }
    forall k | 0 <= k < |fields|
      ensures Views(fields)[k].body.kind == fields[k].kind
    {
      ViewsAt(fields, k);
    }
    FirstPanelIs(Views(fields), p);
  }

  /** The elements of which the definition's, if any, replaces the inherited one. */
  method OverrideElements(def: Datasource, d: Datasource)
    requires def != d && IsInheriting(def.id)
    modifies d`id, d`title, d`description, d`permissions, d`bindClass, d`binding
    ensures d.id == DescendantId(def.id)
    ensures d.title == if def.title.Some? && (!IsBlank(def.title.value.id) || !IsBlank(def.title.value.value))
                       then def.title else old(d.title)
    ensures d.description == def.description.OrElse(old(d.description))
    ensures d.permissions == def.permissions.OrElse(old(d.permissions))
    ensures d.bindClass == def.bindClass
    ensures d.binding == if IsEmpty(def.binding) then old(d.binding) else def.binding
  {
    d.id := DescendantId(def.id);
    if def.title.Some? {
      if !IsBlank(def.title.value.id) || !IsBlank(def.title.value.value) {
        d.title := def.title;
      }
    }
    if def.description.Some? {
      d.description := def.description;
    }
    if def.permissions.Some? {
      d.permissions := def.permissions;
    }
    d.bindClass := def.bindClass;
    if !IsEmpty(def.binding) {
      d.binding := def.binding;
    }
  }

  /** Labels and params; the containers of the copy are not created if they are missing. */
  method MergeContainers(def: Datasource, d: Datasource) returns (crashed: bool)
    requires def != d
    modifies d`labels, d`params
    ensures crashed <==> (def.labels.Some? && old(d.labels).None?) || (def.params.Some? && old(d.params).None?)
    ensures !crashed ==> d.labels == InheritedList(def.labels, old(d.labels))
    ensures !crashed ==> d.params == InheritedList(def.params, old(d.params))
  {
    if def.labels.Some? {
      if d.labels.None? {
        return true;
      }
      var labels := AppendMerge(d.labels.value, def.labels.value);
      d.labels := Some(labels);
    }
    if def.params.Some? {
      if d.params.None? {
        return true;
      }
      var params := AppendMerge(d.params.value, def.params.value);
      d.params := Some(params);
    }
    return false;
  }

  /** The bean part: a new bean id throws the inherited options away. */
  method MergeBean(def: Bean, inherited: Bean) returns (bean: Bean)
    ensures bean == BeanMerged(def, inherited)
  {
    bean := inherited;
    if !IsBlank(def.id) {
      bean := bean.(id := def.id);
      bean := bean.(options := []);
    }
    var options := AppendMerge(bean.options, def.options);
    bean := bean.(options := options);
  }

  /** Element by element, without the fields, what `inherit` makes of a definition and an ancestor. */
  lemma HeadInherited(r: DatasourceView, own: DatasourceView, ancestor: DatasourceView)
    requires IsInheriting(own.id) && Mergeable(own, ancestor) && own.fields == ancestor.fields == r.fields == []
    requires r.id == DescendantId(own.id)
    requires r.title == if OverridesTitle(own) then own.title else ancestor.title
    requires r.description == own.description.OrElse(ancestor.description)
    requires r.labels == InheritedList(own.labels, ancestor.labels)
    requires r.permissions == own.permissions.OrElse(ancestor.permissions)
    requires r.params == InheritedList(own.params, ancestor.params)
    requires r.bindClass == own.bindClass
    requires r.binding == if IsEmpty(own.binding) then ancestor.binding else own.binding
    requires r.bean == Some(BeanMerged(own.bean.value, ancestor.bean.value))
    requires r.panels == ReplaceMerged(ancestor.panels, own.panels)
    ensures r == Inherited(own, ancestor)
  {
    assert FieldsMerged([], []) == [];
  }

  /** Bean and link panels; without a bean there is nothing to merge into or from. */
  method MergeBeanAndPanels(def: Datasource, d: Datasource) returns (crashed: bool)
    requires def != d
    modifies d`bean, d`panels
    ensures crashed <==> def.bean.None? || old(d.bean).None?
    ensures !crashed ==> d.bean == Some(BeanMerged(def.bean.value, old(d.bean).value))
    ensures !crashed ==> d.panels == ReplaceMerged(old(d.panels), def.panels)
  {
    if def.bean.None? || d.bean.None? {
      return true;
    }
    var bean := MergeBean(def.bean.value, d.bean.value);
    d.bean := Some(bean);
    d.panels := ReplaceMerge(d.panels, def.panels);
    return false;
  }

  /** Everything `inherit` does to the copy of the ancestor except for the fields. */
  method MergeConfig(def: Datasource, d: Datasource) returns (crashed: bool)
    requires def != d && IsInheriting(def.id)
    modifies d`id, d`title, d`description, d`permissions, d`bindClass, d`binding, d`labels, d`params, d`bean, d`panels
    ensures crashed <==> !Mergeable(def.Head(), old(d.Head()))
    ensures !crashed ==> d.Head() == Inherited(def.Head(), old(d.Head()))
  {
    ghost var own, ancestor := def.Head(), d.Head();
    OverrideElements(def, d);
    crashed := MergeContainers(def, d);
    if !crashed {
      crashed := MergeBeanAndPanels(def, d);
    }
    if !crashed {
      HeadInherited(d.Head(), own, ancestor);
    }
  }

  /** The copy of the ancestor with everything but the fields merged in. */
  method CopyAncestor(def: Datasource, ancestor: Datasource) returns (d: Datasource?)
    requires ancestor.Valid() && IsInheriting(def.id)
    ensures d == null <==> !Mergeable(def.Head(), ancestor.Head())
    ensures d != null ==> fresh(d) && d.Valid() && fresh(Nodes(d.fields))
    ensures d != null ==> d.Head() == Inherited(def.Head(), ancestor.Head())
    ensures d != null ==> Views(d.fields) == old(Views(ancestor.fields))
  {
    var copy := new Datasource.Unmarshal(ancestor.View());
    assert copy.Head() == ancestor.Head();
    var crashed := MergeConfig(def, copy);
    d := if crashed then null else copy;
  }

  /** The fields of the definition are merged into those of the copy. */
  method TakeOverFields(def: Datasource, d: Datasource)
    requires def != d && def.Valid() && d.Valid() && Nodes(d.fields) !! Nodes(def.fields)
    modifies d`fields
    ensures d.Valid() && Nodes(d.fields) <= old(Nodes(d.fields)) + Nodes(def.fields)
    ensures Views(d.fields) == FieldsMerged(old(Views(d.fields)), old(Views(def.fields)))
  {
    var fields := MergeFields(d.fields, def.fields);
    d.SetFields(fields);
  }

  lemma HeadsDecide(own: DatasourceView, inherited: DatasourceView)
    requires IsInheriting(own.id)
    ensures Mergeable(own, inherited) <==> Mergeable(own.(fields := []), inherited.(fields := []))
    ensures Mergeable(own, inherited) ==>
              Inherited(own, inherited) == Inherited(own.(fields := []), inherited.(fields := [])).(
                fields := FieldsMerged(inherited.fields, own.fields))
  {
  }

  /**
   `inherit`: a new datasource made of a copy of the ancestor and of the definition's own elements.
   Neither argument is changed, but the result shares the definition's field nodes. `null` stands
   for the null pointer exception.
   */
  method Inherit(def: Datasource, ancestor: Datasource) returns (descendant: Datasource?)
    requires def.Valid() && ancestor.Valid() && IsInheriting(def.id)
    ensures descendant == null <==> !Mergeable(old(def.View()), old(ancestor.View()))
    ensures descendant != null ==> fresh(descendant) && descendant.Valid()
    ensures descendant != null ==> forall n :: n in Nodes(descendant.fields) ==> n in Nodes(def.fields) || fresh(n)
    ensures descendant != null ==> descendant.View() == Inherited(old(def.View()), old(ancestor.View()))
  {
    ghost var own, inherited := def.View(), ancestor.View();
    HeadsDecide(own, inherited);
    var d := CopyAncestor(def, ancestor);
    if d == null {
      return null;
    }
    TakeOverFields(def, d);
    return d;
  }
}
