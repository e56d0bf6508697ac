/**
 Field definitions: trees of named fields with an optional binding, how missing bindings are
 filled in (`ApplicationConfigProviderImpl.setBindings`) and how a definition's fields are merged
 into the inherited ones (`DatasourceInheritanceHelper.inherit`).
 */
module Fields {
  import opened Options
  import opened Seqs
  import opened JavaStrings
  import opened NamedLists

  datatype FieldType = LinkpanelType | PasswordType | OtherType(name: string)

  datatype FieldBody = FieldBody(kind: FieldType, binding: Option<string>, children: seq<Field>)

  /** The value of a field definition: its name, type, binding and child fields. */
  type Field = Keyed<FieldBody>

  // ---------- bindings ----------

  /** The binding a field without one gets. */
  function Dotted(prefix: Option<string>, name: string): string
  {
    if prefix.Some? then prefix.value + "." + name else name
  }

  /** A field after `setBindings(prefix, ..)`: the field first, then its children below the new binding. */
  function BindField(prefix: Option<string>, f: Field): Field
    decreases f, 1
  {
    var binding := f.body.binding.OrElse(Some(Dotted(prefix, f.key)));
    Keyed(f.key, FieldBody(f.body.kind, binding, BindChildren(binding, f)))
  }

  function BindChildren(prefix: Option<string>, f: Field): seq<Field>
    decreases f, 0
  {
    seq(|f.body.children|, i requires 0 <= i < |f.body.children| => BindField(prefix, f.body.children[i]))
  }

  function BindFields(prefix: Option<string>, fields: seq<Field>): seq<Field>
  {
    seq(|fields|, i requires 0 <= i < |fields| => BindField(prefix, fields[i]))
  }

  /** The field reached by the given child indices. */
  function At(fields: seq<Field>, path: seq<nat>): Option<Field>
    decreases |path|
  {
    if path == [] || path[0] >= |fields| then None
    else if |path| == 1 then Some(fields[path[0]])
    else At(fields[path[0]].body.children, path[1..])
  }

  lemma ChildrenAreBound(prefix: Option<string>, f: Field)
    ensures BindChildren(prefix, f) == BindFields(prefix, f.body.children)
  {
    var children := f.body.children;
    assert forall i :: 0 <= i < |children| ==> BindChildren(prefix, f)[i] == BindField(prefix, children[i]);
    assert forall i :: 0 <= i < |children| ==> BindFields(prefix, children)[i] == BindField(prefix, children[i]);
  }

  /** The binding of the field above the one at `path`; above the top level it is the prefix. */
  function BindingAbove(prefix: Option<string>, fields: seq<Field>, path: seq<nat>): Option<string>
  {
    if |path| <= 1 then prefix
    else match At(fields, path[..|path| - 1])
         case None => None
         case Some(parent) => parent.body.binding
  }

  /**
   What `setBindings` does at every depth: the tree keeps its shape, names and types; a binding that is
   there stays; a missing one becomes the parent's new binding, a dot and the name.
   */
  lemma {:induction false} BindingAt(prefix: Option<string>, fields: seq<Field>, path: seq<nat>)
    ensures var bound := BindFields(prefix, fields);
            match At(fields, path)
            case None => At(bound, path).None?
            case Some(f) =>
              && At(bound, path).Some?
              && var g := At(bound, path).value;
                 && g.key == f.key && g.body.kind == f.body.kind && |g.body.children| == |f.body.children|
                 && g.body.binding == f.body.binding.OrElse(Some(Dotted(BindingAbove(prefix, bound, path), f.key)))
    decreases |path|
  {
    if path == [] || path[0] >= |fields| {
    } else {
      var f := fields[path[0]];
      var g := BindField(prefix, f);
      ChildrenAreBound(g.body.binding, f);
      assert BindFields(prefix, fields)[path[0]] == g;
      if |path| > 1 {
        BindingAt(g.body.binding, f.body.children, path[1..]);
        if |path| > 2 {
          assert path[..|path| - 1][1..] == path[1..][..|path[1..]| - 1];
        }
      }
    }
  }

  /**
   What `setBindings` does to one field, character by character: its binding stays if it has one; without a prefix a
   missing one is the name; below a prefix it is the prefix, a dot and the name. The same happens to the fields below
   it, with the field's binding as their prefix.
   */
  lemma BindingIs(prefix: Option<string>, fields: seq<Field>, i: nat)
    requires i < |fields|
    ensures |BindFields(prefix, fields)| == |fields|
    ensures var f, g := fields[i], BindFields(prefix, fields)[i];
            && g.key == f.key && g.body.kind == f.body.kind && g.body.binding.Some?
            && g.body.children == BindFields(g.body.binding, f.body.children)
            && var b := g.body.binding.value;
            && (f.body.binding.Some? ==> b == f.body.binding.value)
            && (f.body.binding.None? && prefix.None? ==> b == f.key)
            && (f.body.binding.None? && prefix.Some? ==>
                  var n := |prefix.value|;
                  |b| == n + 1 + |f.key| && b[..n] == prefix.value && b[n] == '.' && b[n + 1..] == f.key)
  {
    var f := fields[i];
    ChildrenAreBound(BindField(prefix, f).body.binding, f);
  }

  /** The names of the fields on the way down. */
  function NamesAlong(fields: seq<Field>, path: seq<nat>): seq<string>
    requires At(fields, path).Some?
  {
    var f := fields[path[0]];
    [f.key] + if |path| == 1 then [] else NamesAlong(f.body.children, path[1..])
  }

  /** No field on the way down has a binding. */
  predicate UnboundAlong(fields: seq<Field>, path: seq<nat>)
    requires At(fields, path).Some?
  {
    var f := fields[path[0]];
    f.body.binding.None? && (|path| > 1 ==> UnboundAlong(f.body.children, path[1..]))
  }

  lemma JoinTwo(a: string, b: string, rest: seq<string>)
    ensures Join([a] + ([b] + rest), ".") == Join([a + "." + b] + rest, ".")
  {
    Rejoined(a, [b] + rest, ".", Join([b] + rest, "."));
    if rest == [] {
      Empty([b]);
      Empty([a + "." + b]);
    } else {
      Rejoined(b, rest, ".", Join(rest, "."));
      Rejoined(a + "." + b, rest, ".", Join(rest, "."));
      Assoc(a + ".", b + ".", Join(rest, "."));
      Assoc(a + ".", b, ".");
    }
  }

  /** Where nothing on the way down has a binding, a field is bound to the prefix and all names, with dots between them. */
  lemma {:induction false} UnboundIsDotted(prefix: Option<string>, fields: seq<Field>, path: seq<nat>)
    requires At(fields, path).Some? && UnboundAlong(fields, path)
    ensures var bound := At(BindFields(prefix, fields), path);
            && bound.Some?
            && bound.value.body.binding
               == Some(Join((if prefix.Some? then [prefix.value] else []) + NamesAlong(fields, path), "."))
    decreases |path|
  {
    var f := fields[path[0]];
    var g := BindFields(prefix, fields)[path[0]];
    var above := if prefix.Some? then [prefix.value] else [];
    var rest := if |path| == 1 then [] else NamesAlong(f.body.children, path[1..]);
    BindingIs(prefix, fields, path[0]);
    Empty([f.key] + rest);
    if |path| > 1 {
      UnboundIsDotted(g.body.binding, f.body.children, path[1..]);
    } else {
      Empty([g.body.binding.value]);
    }
    assert g.body.binding == Some(Dotted(prefix, f.key));
    if prefix.Some? {
      JoinTwo(prefix.value, f.key, rest);
    }
  }

  /** Bindings once filled in are never changed again, whatever prefix a later call uses. */
  lemma BindingsStick(later: Option<string>, first: Option<string>, fields: seq<Field>)
    ensures BindFields(later, BindFields(first, fields)) == BindFields(first, fields)
  {
    forall i | 0 <= i < |fields|
      ensures BindField(later, BindField(first, fields[i])) == BindField(first, fields[i])
    {
      BindingSticks(later, first, fields[i]);
    }
  }

  lemma {:induction false} BindingSticks(later: Option<string>, first: Option<string>, f: Field)
    ensures BindField(later, BindField(first, f)) == BindField(first, f)
    decreases f
  {
    var g := BindField(first, f);
    var h := BindField(later, g);
    ChildrenAreBound(g.body.binding, f);
    ChildrenAreBound(g.body.binding, g);
    forall i | 0 <= i < |f.body.children|
      ensures h.body.children[i] == g.body.children[i]
    {
      BindingSticks(g.body.binding, g.body.binding, f.body.children[i]);
    }
    assert h.body.children == g.body.children;
  }

  lemma {:induction false} FindBound(prefix: Option<string>, fields: seq<Field>, name: string)
    ensures Find(BindFields(prefix, fields), name)
         == match Find(fields, name) case None => None case Some(f) => Some(BindField(prefix, f))
  {
    if fields != [] {
      FindBound(prefix, fields[1..], name);
      assert BindFields(prefix, fields)[1..] == BindFields(prefix, fields[1..]);
    }
  }

  lemma {:induction false} BoundNames(prefix: Option<string>, fields: seq<Field>)
    ensures Keys(BindFields(prefix, fields)) == Keys(fields)
    ensures Distinct(BindFields(prefix, fields)) <==> Distinct(fields)
  {
    if fields != [] {
      BoundNames(prefix, fields[..|fields| - 1]);
      assert BindFields(prefix, fields)[..|fields| - 1] == BindFields(prefix, fields[..|fields| - 1]);
    }
  }

  // ---------- merging fields ----------

  predicate IsPanel(f: Field)
  {
    f.body.kind.LinkpanelType?
  }

  /** The index of the first LINKPANEL field, or the length of the list. */
  function FirstPanel(xs: seq<Field>): (p: nat)
    ensures p <= |xs|
  {
    if xs == [] || IsPanel(xs[0]) then 0 else 1 + FirstPanel(xs[1..])
  }

  ghost predicate NoPanel(xs: seq<Field>)
  {
    xs == [] || (!IsPanel(xs[0]) && NoPanel(xs[1..]))
  }

  /** Where a new field goes: before the first LINKPANEL field, else to the front. */
  function InsertionPoint(xs: seq<Field>): (p: nat)
    ensures p <= |xs|
  {
    var panel := FirstPanel(xs);
    if panel < |xs| then panel else 0
  }

  /** One turn of the field loop. */
  function FieldStep(xs: seq<Field>, y: Field): seq<Field>
  {
    var p := Position(xs, y.key);
    var at := InsertionPoint(xs);
    if p < |xs| then xs[p := y] else xs[..at] + [y] + xs[at..]
  }

  function FieldsMerged(xs: seq<Field>, ys: seq<Field>): seq<Field>
  {
    if ys == [] then xs
    else FieldStep(FieldsMerged(xs, ys[..|ys| - 1]), ys[|ys| - 1])
  }

  lemma FieldStepResult(xs: seq<Field>, y: Field, name: string)
    requires Distinct(xs)
    ensures Distinct(FieldStep(xs, y)) && Keys(FieldStep(xs, y)) == Keys(xs) + {y.key}
    ensures Find(FieldStep(xs, y), name) == if name == y.key then Some(y) else Find(xs, name)
  {
    PositionSplits(xs, y.key);
    if y.key in Keys(xs) {
      Replacing(xs, y, name);
    } else {
      CutAt(xs, InsertionPoint(xs));
      InsertResult(xs[..InsertionPoint(xs)], y, xs[InsertionPoint(xs)..], name);
    }
  }

  lemma InsertResult(front: seq<Field>, y: Field, back: seq<Field>, name: string)
    requires Distinct(front + back) && y.key !in Keys(front + back)
    ensures var r := front + [y] + back;
            && Distinct(r) && Keys(r) == Keys(front + back) + {y.key}
            && Find(r, name) == if name == y.key then Some(y) else Find(front + back, name)
  {
    Between(front, y, back);
    FindBetween(front, y, back, name);
  }

  /** After the field merge a name means the definition's last field of that name, else the inherited one. */
  lemma {:induction false} FieldsMergedLookup(xs: seq<Field>, ys: seq<Field>, name: string)
    requires Distinct(xs)
    ensures Distinct(FieldsMerged(xs, ys)) && Keys(FieldsMerged(xs, ys)) == Keys(xs) + Keys(ys)
    ensures Find(FieldsMerged(xs, ys), name) == FindLast(ys, name).OrElse(Find(xs, name))
  {
    if ys != [] {
      var init, y := Unsnoc(ys);
      FieldsMergedLookup(xs, init, name);
      FieldStepResult(FieldsMerged(xs, init), y, name);
    }
  }

  /** Merging fields never reorders the ones that were there: without the new names the old order remains. */
  lemma {:induction false} InheritedOrderKept(xs: seq<Field>, ys: seq<Field>)
    requires Distinct(xs)
    ensures Names(Without(FieldsMerged(xs, ys), Keys(ys) - Keys(xs))) == Names(xs)
  {
    if ys == [] {
      assert Keys(ys) - Keys(xs) == {};
      WithoutUnused(xs, {});
    } else {
      var init, y := Unsnoc(ys);
      InheritedOrderKept(xs, init);
      FieldsMergedLookup(xs, init, y.key);
      var before, news := FieldsMerged(xs, init), Keys(init) - Keys(xs);
      if y.key in Keys(before) {
        assert Keys(ys) - Keys(xs) == news;
        NamesOfReplaced(before, y, news);
      } else {
        assert Keys(ys) - Keys(xs) == news + {y.key};
        NamesOfInserted(before, y, news);
      }
    }
  }

  lemma NamesOfReplaced(xs: seq<Field>, y: Field, keys: set<string>)
    requires y.key in Keys(xs)
    ensures Names(Without(FieldStep(xs, y), keys)) == Names(Without(xs, keys))
  {
    PositionSplits(xs, y.key);
    var p := Position(xs, y.key);
    var front, back := xs[..p], xs[p + 1..];
    SplitAt(xs, p, y);
    WithoutBetween(front, xs[p], back, keys);
    WithoutBetween(front, y, back, keys);
    if y.key !in keys {
      Between(Without(front, keys), xs[p], Without(back, keys));
      Between(Without(front, keys), y, Without(back, keys));
    }
  }

  lemma NamesOfInserted(xs: seq<Field>, y: Field, keys: set<string>)
    requires y.key !in Keys(xs)
    ensures Without(FieldStep(xs, y), keys + {y.key}) == Without(xs, keys)
  {
    PositionSplits(xs, y.key);
    var at := InsertionPoint(xs);
    CutAt(xs, at);
    WithoutBetween(xs[..at], y, xs[at..], keys + {y.key});
    WithoutConcat(xs[..at], xs[at..], keys + {y.key});
    WithoutTwice(xs, keys, {y.key});
    WithoutKeys(xs, keys);
    WithoutUnused(Without(xs, keys), {y.key});
  }

  // ---------- where new fields go ----------

  /** Where a new field is put: before the first field of type LINKPANEL, or in front of all if there is none. */
  ghost predicate BeforeFirstPanel(front: seq<Field>, back: seq<Field>)
  {
    && (forall f :: f in front ==> f.body.kind != LinkpanelType)
    && ((back != [] && back[0].body.kind == LinkpanelType)
        || (front == [] && forall f :: f in back ==> f.body.kind != LinkpanelType))
  }

  lemma {:induction false} NoPanelIff(xs: seq<Field>)
    ensures NoPanel(xs) <==> forall f :: f in xs ==> f.body.kind != LinkpanelType
  {
    if xs != [] {
      NoPanelIff(xs[1..]);
      assert xs == [xs[0]] + xs[1..];
    }
  }

  lemma InsertionSplits(xs: seq<Field>) returns (front: seq<Field>, back: seq<Field>)
    ensures xs == front + back && BeforeFirstPanel(front, back)
    ensures front == xs[..InsertionPoint(xs)] && back == xs[InsertionPoint(xs)..]
  {
    var at := InsertionPoint(xs);
    front, back := xs[..at], xs[at..];
    CutAt(xs, at);
    PanelSplits(xs);
    TakeAll(xs);
    NoPanelIff(front);
    NoPanelIff(back);
  }

  /** Merging definitions one after the other is merging all of them. */
  lemma {:induction false} FieldsMergedConcat(xs: seq<Field>, first: seq<Field>, rest: seq<Field>)
    ensures FieldsMerged(xs, first + rest) == FieldsMerged(FieldsMerged(xs, first), rest)
  {
    if rest == [] {
      Empty(first);
    } else {
      var init, y := Unsnoc(rest);
      FieldsMergedConcat(xs, first, init);
      Assoc(first, init, [y]);
      Snoc(first + init, y);
    }
  }

  /**
   In general, whatever LINKPANEL fields a definition adds or overrides: a new field `y` stands directly before the first
   LINKPANEL field of the list as merged so far, or in front of it if there is none, and `later` fields only come
   between without changing the order.
   */
  lemma NewFieldPlaced(xs: seq<Field>, init: seq<Field>, y: Field, later: seq<Field>)
    returns (front: seq<Field>, back: seq<Field>)
    requires Distinct(xs) && y.key !in Keys(xs) + Keys(init)
    ensures FieldsMerged(xs, init) == front + back && BeforeFirstPanel(front, back)
    ensures FieldsMerged(xs, init + [y]) == front + [y] + back
    ensures var known := Keys(xs) + Keys(init) + {y.key};
            Names(Without(FieldsMerged(xs, init + [y] + later), Keys(later) - known))
            == Names(front) + [y.key] + Names(back)
  {
    var before := FieldsMerged(xs, init);
    FieldsMergedLookup(xs, init, y.key);
    front, back := InsertionSplits(before);
    PositionSplits(before, y.key);
    LaterKeepOrder(xs, init, y, later);
    NamesBetween(front, y, back);
  }

  lemma LaterKeepOrder(xs: seq<Field>, init: seq<Field>, y: Field, later: seq<Field>)
    requires Distinct(xs)
    ensures var known := Keys(xs) + Keys(init) + {y.key};
            Names(Without(FieldsMerged(xs, init + [y] + later), Keys(later) - known))
            == Names(FieldsMerged(xs, init + [y]))
    ensures FieldsMerged(xs, init + [y]) == FieldStep(FieldsMerged(xs, init), y)
  {
    FieldsMergedLookup(xs, init, y.key);
    FieldStepResult(FieldsMerged(xs, init), y, y.key);
    Snoc(init, y);
    FieldsMergedConcat(xs, init + [y], later);
    InheritedOrderKept(FieldsMerged(xs, init + [y]), later);
  }

  lemma NamesBetween(front: seq<Field>, y: Field, back: seq<Field>)
    ensures Names(front + [y] + back) == Names(front) + [y.key] + Names(back)
  {
    NamesConcat(front + [y], back);
    NamesConcat(front, [y]);
    One(y);
  }

  lemma {:induction false} PanelConcat(xs: seq<Field>, ys: seq<Field>)
    ensures NoPanel(xs + ys) <==> NoPanel(xs) && NoPanel(ys)
    ensures NoPanel(xs) ==> FirstPanel(xs + ys) == |xs| + FirstPanel(ys)
  {
    if xs == [] {
      Empty(ys);
    } else {
      ConsConcat(xs, ys);
      PanelConcat(xs[1..], ys);
    }
  }

  lemma {:induction false} PanelSplits(xs: seq<Field>)
    ensures var p := FirstPanel(xs);
            && xs == xs[..p] + xs[p..] && NoPanel(xs[..p])
            && (p < |xs| ==> IsPanel(xs[p])) && (p == |xs| <==> NoPanel(xs))
  {
    var p := FirstPanel(xs);
    CutAt(xs, p);
    if p > 0 {
      PanelSplits(xs[1..]);
      TakeCons(xs, p);
      ConsConcat([xs[0]], xs[1..][..p - 1]);
    }
  }

  lemma {:induction false} PositionConcat(xs: seq<Field>, ys: seq<Field>, key: string)
    ensures Position(xs + ys, key) == if key in Keys(xs) then Position(xs, key) else |xs| + Position(ys, key)
  {
    if xs == [] {
      Empty(ys);
    } else {
      var first, tail := Uncons(xs);
      ConsConcat(xs, ys);
      One(first);
      KeysConcat([first], tail);
      PositionConcat(tail, ys, key);
    }
  }

  lemma {:induction false} FirstPanelIs(xs: seq<Field>, p: nat)
    requires p <= |xs| && (p < |xs| ==> IsPanel(xs[p])) && forall k :: 0 <= k < p ==> !IsPanel(xs[k])
    ensures FirstPanel(xs) == p
  {
    if p > 0 {
      FirstPanelIs(xs[1..], p - 1);
    }
  }

  lemma NoPanelReplaced(xs: seq<Field>, p: nat, y: Field)
    requires NoPanel(xs) && p < |xs| && !IsPanel(y)
    ensures NoPanel(xs[p := y])
  {
    SplitAt(xs, p, y);
    PanelConcat(xs[..p] + [xs[p]], xs[p + 1..]);
    PanelConcat(xs[..p], [xs[p]]);
    PanelConcat(xs[..p] + [y], xs[p + 1..]);
    PanelConcat(xs[..p], [y]);
  }

  lemma StepInFront(front: seq<Field>, back: seq<Field>, y: Field)
    requires Distinct(front) && y.key in Keys(front)
    ensures var p := Position(front, y.key);
            p < |front| && FieldStep(front + back, y) == front[p := y] + back
  {
    PositionConcat(front, back, y.key);
    PositionSplits(front, y.key);
    UpdateConcat(front, back, Position(front, y.key), y);
  }

  lemma StepInBack(front: seq<Field>, back: seq<Field>, y: Field)
    requires Distinct(back) && y.key !in Keys(front) && y.key in Keys(back)
    ensures var q := Position(back, y.key);
            q < |back| && FieldStep(front + back, y) == front + back[q := y]
  {
    PositionConcat(front, back, y.key);
    PositionSplits(back, y.key);
    UpdateConcat(front, back, |front| + Position(back, y.key), y);
  }

  lemma StepBetween(front: seq<Field>, back: seq<Field>, y: Field)
    requires y.key !in Keys(front) && y.key !in Keys(back)
    requires NoPanel(front) && back != [] && IsPanel(back[0])
    ensures FieldStep(front + back, y) == (front + [y]) + back
  {
    NotBetween(front, back, y.key);
    PointBetween(front, back);
    InsertBetween(front, y, back);
  }

  lemma NotBetween(front: seq<Field>, back: seq<Field>, name: string)
    requires name !in Keys(front) && name !in Keys(back)
    ensures Position(front + back, name) == |front + back|
  {
    PositionConcat(front, back, name);
    PositionSplits(back, name);
  }

  lemma PointBetween(front: seq<Field>, back: seq<Field>)
    requires NoPanel(front) && back != [] && IsPanel(back[0])
    ensures InsertionPoint(front + back) == |front|
  {
    PanelConcat(front, back);
  }

  /**
   One turn of the field loop on a list with a first LINKPANEL field, `back[0]`, that it leaves alone: a
   new field ends up right before it.
   */
  lemma PanelStep(front: seq<Field>, back: seq<Field>, y: Field) returns (front': seq<Field>, back': seq<Field>)
    requires Distinct(front + back) && NoPanel(front) && back != [] && IsPanel(back[0])
    requires y.key != back[0].key && (IsPanel(y) ==> y.key in Keys(back))
    ensures FieldStep(front + back, y) == front' + back'
    ensures NoPanel(front') && back' != [] && back'[0] == back[0]
    ensures Names(front') == Names(front) + if y.key in Keys(front + back) then [] else [y.key]
    ensures Names(back') == Names(back)
  {
    DistinctConcat(front, back);
    KeysConcat(front, back);
    front', back' := front, back;
    if y.key in Keys(front) {
      StepInFront(front, back, y);
      Replacing(front, y, y.key);
      NoPanelReplaced(front, Position(front, y.key), y);
      front' := front[Position(front, y.key) := y];
      Empty(Names(front));
    } else if y.key in Keys(back) {
      StepInBack(front, back, y);
      Replacing(back, y, y.key);
      back' := back[Position(back, y.key) := y];
      Empty(Names(front));
    } else {
      StepBetween(front, back, y);
      PanelConcat(front, [y]);
      NamesConcat(front, [y]);
      One(y);
      front' := front + [y];
    }
  }

  /**
   The definition leaves the first LINKPANEL field alone: it does not override that field, and its
   own LINKPANEL fields only override fields behind it.
   */
  ghost predicate LeavesFirstPanel(xs: seq<Field>, ys: seq<Field>)
  {
    var panel := FirstPanel(xs);
    && panel < |xs|
    && forall y :: y in ys ==> y.key != xs[panel].key && (IsPanel(y) ==> y.key in Keys(xs[panel..]))
  }

  lemma LeftBefore(xs: seq<Field>, init: seq<Field>, y: Field)
    requires LeavesFirstPanel(xs, init + [y])
    ensures LeavesFirstPanel(xs, init)
    ensures y.key != xs[FirstPanel(xs)].key && (IsPanel(y) ==> y.key in Keys(xs[FirstPanel(xs)..]))
  {
    assert y in init + [y] && forall z :: z in init ==> z in init + [y];
  }

  lemma {:induction false} KeysOfNames(xs: seq<Field>, ys: seq<Field>)
    requires Names(xs) == Names(ys)
    ensures Keys(xs) == Keys(ys)
  {
    if xs != [] {
      Snoc(Names(xs[..|xs| - 1]), xs[|xs| - 1].key);
      Snoc(Names(ys[..|ys| - 1]), ys[|ys| - 1].key);
      KeysOfNames(xs[..|xs| - 1], ys[..|ys| - 1]);
    }
  }

  lemma NewNamesBehind(names: seq<string>, keys: set<string>, init: seq<Field>, y: Field)
    ensures names + NewNames(keys, init + [y])
         == (names + NewNames(keys, init)) + if y.key in keys + Keys(init) then [] else [y.key]
  {
    NewNamesStep(keys, init, y);
    Assoc(names, NewNames(keys, init), if y.key in keys + Keys(init) then [] else [y.key]);
  }

  lemma PanelAt(xs: seq<Field>)
    requires FirstPanel(xs) < |xs|
    ensures IsPanel(xs[FirstPanel(xs)])
  {
    PanelSplits(xs);
  }

  /** Then the new fields form one block in the order of the definition, right before that LINKPANEL field. */
  lemma {:induction false} NewFieldsBeforePanel(xs: seq<Field>, ys: seq<Field>)
    returns (front: seq<Field>, back: seq<Field>)
    requires Distinct(xs) && LeavesFirstPanel(xs, ys)
    ensures FieldsMerged(xs, ys) == front + back && NoPanel(front) && back != [] && back[0] == xs[FirstPanel(xs)]
    ensures Names(front) == Names(xs[..FirstPanel(xs)]) + NewNames(Keys(xs), ys)
    ensures Names(back) == Names(xs[FirstPanel(xs)..])
  {
    var panel := FirstPanel(xs);
    if ys == [] {
      front, back := xs[..panel], xs[panel..];
      PanelSplits(xs);
      Empty(Names(front));
    } else {
      var init, y := Unsnoc(ys);
      LeftBefore(xs, init, y);
      PanelAt(xs);
      var front0, back0 := NewFieldsBeforePanel(xs, init);
      FieldsMergedLookup(xs, init, y.key);
      KeysOfNames(back0, xs[panel..]);
      NewNamesBehind(Names(xs[..panel]), Keys(xs), init, y);
      front, back := PanelStep(front0, back0, y);
    }
  }

  function Reversed<T>(s: seq<T>): seq<T>
  {
    if s == [] then [] else [s[|s| - 1]] + Reversed(s[..|s| - 1])
  }

  /** With no LINKPANEL field on either side the new fields end up in front, the last declared first. */
  lemma {:induction false} NewFieldsInFront(xs: seq<Field>, ys: seq<Field>)
    requires Distinct(xs) && NoPanel(xs) && NoPanel(ys)
    ensures Names(FieldsMerged(xs, ys)) == Reversed(NewNames(Keys(xs), ys)) + Names(xs)
    ensures NoPanel(FieldsMerged(xs, ys))
  {
    if ys == [] {
      Empty(Names(xs));
    } else {
      var init, y := Unsnoc(ys);
      PanelConcat(init, [y]);
      NewFieldsInFront(xs, init);
      FieldsMergedLookup(xs, init, y.key);
      FrontStep(FieldsMerged(xs, init), y);
      ReversedBefore(Keys(xs), init, y, Names(xs));
    }
  }

  lemma ReversedBefore(keys: set<string>, init: seq<Field>, y: Field, names: seq<string>)
    ensures var before := Reversed(NewNames(keys, init)) + names;
            Reversed(NewNames(keys, init + [y])) + names
            == if y.key in keys + Keys(init) then before else [y.key] + before
  {
    var added := NewNames(keys, init);
    NewNamesStep(keys, init, y);
    Empty(added);
    Snoc(added, y.key);
    Assoc([y.key], Reversed(added), names);
  }

  lemma FrontStep(xs: seq<Field>, y: Field)
    requires Distinct(xs) && NoPanel(xs) && !IsPanel(y)
    ensures NoPanel(FieldStep(xs, y))
    ensures Names(FieldStep(xs, y)) == if y.key in Keys(xs) then Names(xs) else [y.key] + Names(xs)
  {
    PositionSplits(xs, y.key);
    PanelSplits(xs);
    if y.key in Keys(xs) {
      Replacing(xs, y, y.key);
      NoPanelReplaced(xs, Position(xs, y.key), y);
    } else {
      InsertBetween([], y, xs);
      Empty(xs);
      Empty([y]);
      PanelConcat([y], xs);
      NamesConcat([y], xs);
      One(y);
    }
  }
}
