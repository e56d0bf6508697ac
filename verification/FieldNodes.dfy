/**
 Field definitions as the objects they are: a tree of nodes whose bindings `setBindings` fills in
 place. Name, type and child list of a node never change.
 */
module FieldNodes {
  import opened Options
  import opened Seqs
  import opened NamedLists
  import opened Fields

  class FieldNode {
    const name: string
    const kind: FieldType
    const children: seq<FieldNode>
    var binding: Option<string>

    /** This node and all nodes below it. */
    ghost const Repr: set<FieldNode>

    /** The nodes below form a tree: no node is shared. */
    ghost predicate Tree()
      decreases Repr, 0
    {
      Repr == {this} + Nodes(children) && this !in Nodes(children) && Forest(children)
    }

    /** The value of the field: what marshalling writes. */
    function View(): Field
      requires Tree()
      reads Repr
      decreases Repr, 0
    {
      Keyed(name, FieldBody(kind, binding, Views(children)))
    }

    constructor (name: string, kind: FieldType, binding: Option<string>, children: seq<FieldNode>)
      requires Forest(children)
      ensures Tree() && Repr == {this} + Nodes(children)
      ensures this.name == name && this.kind == kind && this.binding == binding && this.children == children
    {
      ghost var below := Nodes(children);
      this.name, this.kind, this.binding, this.children := name, kind, binding, children;
      Repr := {this} + below;
    }
  }

  ghost function Nodes(fields: seq<FieldNode>): set<FieldNode>
  {
    set f, n | f in fields && n in f.Repr :: n
  }

  /** Trees without common nodes. */
  ghost predicate Forest(fields: seq<FieldNode>)
    decreases Nodes(fields), 1, |fields|
  {
    fields == []
    || (var init, last := fields[..|fields| - 1], fields[|fields| - 1];
        Forest(init) && last.Tree() && last.Repr !! Nodes(init))
  }

  function Views(fields: seq<FieldNode>): (r: seq<Field>)
    requires Forest(fields)
    reads Nodes(fields)
    ensures |r| == |fields|
    decreases Nodes(fields), 1, |fields|
  {
    if fields == [] then [] else Views(fields[..|fields| - 1]) + [fields[|fields| - 1].View()]
  }

  lemma NodesConcat(a: seq<FieldNode>, b: seq<FieldNode>)
    ensures Nodes(a + b) == Nodes(a) + Nodes(b)
  {
  }

  lemma {:induction false} ForestConcat(a: seq<FieldNode>, b: seq<FieldNode>)
    ensures Forest(a + b) <==> Forest(a) && Forest(b) && Nodes(a) !! Nodes(b)
  {
    if b == [] {
      assert a + b == a;
    } else {
      assert (a + b)[..|a + b| - 1] == a + b[..|b| - 1];
      ForestConcat(a, b[..|b| - 1]);
      NodesConcat(a, b[..|b| - 1]);
    }
  }

  lemma {:induction false} ViewsConcat(a: seq<FieldNode>, b: seq<FieldNode>)
    requires Forest(a) && Forest(b) && Forest(a + b)
    ensures Views(a + b) == Views(a) + Views(b)
  {
    if b == [] {
      assert a + b == a;
    } else {
      assert (a + b)[..|a + b| - 1] == a + b[..|b| - 1];
      ForestConcat(a, b[..|b| - 1]);
      ViewsConcat(a, b[..|b| - 1]);
    }
  }

  lemma Single(f: FieldNode)
    ensures Nodes([f]) == f.Repr && (Forest([f]) <==> f.Tree())
    ensures f.Tree() ==> Views([f]) == [f.View()]
  {
    assert [f][..0] == [];
  }

  lemma Parts(fields: seq<FieldNode>, i: nat)
    requires Forest(fields) && i <= |fields|
    ensures Forest(fields[..i]) && Forest(fields[i..]) && Nodes(fields[..i]) !! Nodes(fields[i..])
    ensures Nodes(fields) == Nodes(fields[..i]) + Nodes(fields[i..])
    ensures Views(fields) == Views(fields[..i]) + Views(fields[i..])
  {
    CutAt(fields, i);
    ForestConcat(fields[..i], fields[i..]);
    NodesConcat(fields[..i], fields[i..]);
    ViewsConcat(fields[..i], fields[i..]);
  }

  /** A list of trees taken apart at one of them. */
  lemma Around(fields: seq<FieldNode>, i: nat)
    requires Forest(fields) && i < |fields|
    ensures var front, f, back := fields[..i], fields[i], fields[i + 1..];
            && Forest(front) && f.Tree() && Forest(back)
            && Nodes(fields) == Nodes(front) + f.Repr + Nodes(back)
            && Nodes(front) !! f.Repr && Nodes(front) !! Nodes(back) && f.Repr !! Nodes(back)
            && Views(fields) == Views(front) + [f.View()] + Views(back)
  {
    var front, f, back := fields[..i], fields[i], fields[i + 1..];
    assert fields == (front + [f]) + back;
    Single(f);
    ForestConcat(front + [f], back);
    ForestConcat(front, [f]);
    NodesConcat(front + [f], back);
    NodesConcat(front, [f]);
    ViewsConcat(front + [f], back);
    ViewsConcat(front, [f]);
  }

  /** A list of trees put together around one. */
  lemma Together(front: seq<FieldNode>, f: FieldNode, back: seq<FieldNode>)
    requires Forest(front) && f.Tree() && Forest(back)
    requires Nodes(front) !! f.Repr && Nodes(front) !! Nodes(back) && f.Repr !! Nodes(back)
    ensures var fields := front + [f] + back;
            && Forest(fields)
            && Nodes(fields) == Nodes(front) + f.Repr + Nodes(back)
            && Views(fields) == Views(front) + [f.View()] + Views(back)
  {
    Single(f);
    ForestConcat(front, [f]);
    NodesConcat(front, [f]);
    ForestConcat(front + [f], back);
    NodesConcat(front + [f], back);
    ViewsConcat(front, [f]);
    ViewsConcat(front + [f], back);
  }

  /** The values carry the names and types of the nodes. */
  lemma {:induction false} ViewsAt(fields: seq<FieldNode>, i: nat)
    requires Forest(fields) && i < |fields|
    ensures fields[i].Tree() && Views(fields)[i] == fields[i].View()
    ensures Views(fields)[i].key == fields[i].name && Views(fields)[i].body.kind == fields[i].kind
  {
    if i < |fields| - 1 {
      ViewsAt(fields[..|fields| - 1], i);
    }
  }

  lemma ViewsAround(front: seq<FieldNode>, f: FieldNode, back: seq<FieldNode>)
    requires Forest(front) && f.Tree() && Forest(back)
    requires Nodes(front) !! f.Repr && Nodes(front) !! Nodes(back) && f.Repr !! Nodes(back)
    ensures Forest(front + [f]) && Views(front + [f]) == Views(front) + [f.View()]
    ensures Forest([f] + back) && Views([f] + back) == [f.View()] + Views(back)
  {
    Single(f);
    ForestConcat(front, [f]);
    ForestConcat([f], back);
    ViewsConcat(front, [f]);
    ViewsConcat([f], back);
  }

  lemma Tail(fields: seq<FieldNode>, i: nat)
    requires Forest(fields) && i < |fields|
    ensures Forest(fields[i..]) && fields[i].Tree() && Forest(fields[i + 1..])
    ensures Views(fields[i..]) == [fields[i].View()] + Views(fields[i + 1..])
  {
    Around(fields, i);
    TakeOne(fields, i);
    ViewsAround(fields[..i], fields[i], fields[i + 1..]);
  }

  lemma BindOne(prefix: Option<string>, before: seq<Field>, i: nat)
    requires i < |before|
    ensures BindFields(prefix, before[..i + 1]) == BindFields(prefix, before[..i]) + [BindField(prefix, before[i])]
    ensures before[i..][0] == before[i] && before[i..][1..] == before[i + 1..]
  {
  }

  /** `setBindings`, in place. */
  method SetBindings(prefix: Option<string>, fields: seq<FieldNode>)
    requires Forest(fields)
    modifies Nodes(fields)
    ensures Views(fields) == BindFields(prefix, old(Views(fields)))
    decreases Nodes(fields), 2
  {
    ghost var before := Views(fields);
    TakeAll(fields);
    TakeAll(before);
    for i := 0 to |fields|
      invariant Forest(fields[..i]) && Forest(fields[i..])
      invariant Views(fields[..i]) == BindFields(prefix, before[..i])
      invariant Views(fields[i..]) == before[i..]
    {
      Tail(fields, i);
      BindOne(prefix, before, i);
      Turn(prefix, fields, i);
    }
    TakeAll(fields);
    TakeAll(before);
  }

  /** One turn of its loop leaves the other fields alone. */
  method Turn(prefix: Option<string>, fields: seq<FieldNode>, i: nat)
    requires Forest(fields) && i < |fields|
    requires Forest(fields[..i]) && fields[i].Tree() && Forest(fields[i + 1..])
    modifies Nodes(fields)
    ensures Forest(fields[..i + 1])
    ensures Views(fields[..i + 1]) == old(Views(fields[..i])) + [BindField(prefix, old(fields[i].View()))]
    ensures Views(fields[i + 1..]) == old(Views(fields[i + 1..]))
    decreases Nodes(fields), 1
  {
    Around(fields, i);
    SetBinding(prefix, fields[i]);
    TakeOne(fields, i);
    ViewsAround(fields[..i], fields[i], fields[i + 1..]);
  }

  /** The node first, then what is below it. */
  method SetBinding(prefix: Option<string>, f: FieldNode)
    requires f.Tree()
    modifies f.Repr
    ensures f.View() == BindField(prefix, old(f.View()))
    decreases f.Repr, 0
  {
    ghost var before := f.View();
    if f.binding == None {
      f.binding := Some(Dotted(prefix, f.name));
    }
    SetBindings(f.binding, f.children);
    ChildrenAreBound(f.binding, before);
  }

  // ---------- marshalling ----------

  /** Unmarshalling a field: a fresh tree of nodes with the given value. */
  method Unmarshal(f: Field) returns (n: FieldNode)
    ensures n.Tree() && fresh(n.Repr) && n.View() == f
    decreases f, 1
  {
    var children := UnmarshalFields(f.body.children);
    ghost var below := Nodes(children);
    n := new FieldNode(f.key, f.body.kind, f.body.binding, children);
    assert Views(n.children) == f.body.children;
  }

  /** Unmarshalling a list of fields: fresh trees without common nodes. */
  method UnmarshalFields(fields: seq<Field>) returns (nodes: seq<FieldNode>)
    ensures Forest(nodes) && fresh(Nodes(nodes)) && Views(nodes) == fields
    decreases fields, 0
  {
    nodes := [];
    for i := 0 to |fields|
      invariant Forest(nodes) && fresh(Nodes(nodes)) && Views(nodes) == fields[..i]
    {
      ghost var sofar := Nodes(nodes);
      var n := Unmarshal(fields[i]);
      Single(n);
      ForestConcat(nodes, [n]);
      NodesConcat(nodes, [n]);
      ViewsConcat(nodes, [n]);
      nodes := nodes + [n];
      TakeOne(fields, i);
    }
    TakeAll(fields);
  }
}
