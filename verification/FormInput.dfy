/**
 What `CallableAction` keeps of a failed submission: the user's input (`addFieldsToUserdata`) and the options
 selected in the form that is shown again (`handleSelections`).
 */
module FormInput {
  import opened Options
  import opened Seqs
  import opened Fields

  /** A form field: its name, binding, type, `readonly` attribute and the fields below it. */
  datatype FormField = FormField(name: string, binding: string, kind: FieldType, readonly: Option<string>,
                                 children: seq<FormField>)

  /** One submitted value under the binding of its field. */
  datatype Input = Input(name: string, content: string)

  // ---------- recording the input ----------

  function ToLower(c: char): char
  {
    if 'A' <= c <= 'Z' then c - 'A' + 'a' else c
  }

  predicate EqualsIgnoreCase(s: string, lower: string)
  {
    |s| == |lower| && forall i :: 0 <= i < |s| ==> ToLower(s[i]) == lower[i]
  }

  predicate IsWritable(f: FormField)
  {
    f.readonly.None? || !EqualsIgnoreCase(f.readonly.value, "true")
  }

  /** Exactly the attribute `true` makes a field read-only, in whatever case it is written. */
  lemma WritableIff(f: FormField)
    ensures IsWritable(f) <==>
              !(&& f.readonly.Some? && |f.readonly.value| == 4
                && f.readonly.value[0] in "tT" && f.readonly.value[1] in "rR"
                && f.readonly.value[2] in "uU" && f.readonly.value[3] in "eE")
  {
    if f.readonly.Some? {
      forall c: char
        ensures ToLower(c) == 't' <==> c in "tT"
        ensures ToLower(c) == 'r' <==> c in "rR"
        ensures ToLower(c) == 'u' <==> c in "uU"
        ensures ToLower(c) == 'e' <==> c in "eE"
      {
      }
    }
  }

  function Inputs(binding: string, values: seq<string>): seq<Input>
  {
    seq(|values|, i requires 0 <= i < |values| => Input(binding, values[i]))
  }

  /** What is recorded for a field itself, given the values submitted for each request parameter. */
  function Submitted(f: FormField, params: string -> seq<string>): seq<Input>
  {
    if f.kind.PasswordType? then [] else Inputs(f.binding, params(f.binding))
  }

  /** What `addFieldsToUserdata` adds for a list of fields. */
  function Recorded(fields: seq<FormField>, params: string -> seq<string>): seq<Input>
  {
    if fields == [] then []
    else
      var f := fields[0];
      (if IsWritable(f) then Submitted(f, params) + Recorded(f.children, params) else []) + Recorded(fields[1..], params)
  }

  /** A field with what is known of its ancestors: they and the field itself are writable. */
  datatype Visited = Visited(field: FormField, open: bool)

  /** All fields of a forest in pre-order. */
  function Preorder(fields: seq<FormField>, open: bool): seq<Visited>
  {
    if fields == [] then []
    else
      var f := fields[0];
      var here := open && IsWritable(f);
      [Visited(f, here)] + Preorder(f.children, here) + Preorder(fields[1..], open)
  }

  /** The values of the open fields of a list that are no passwords, in the order of the list. */
  function OpenInputs(visited: seq<Visited>, params: string -> seq<string>): seq<Input>
  {
    if visited == [] then []
    else
      (if visited[0].open then Submitted(visited[0].field, params) else []) + OpenInputs(visited[1..], params)
  }

  lemma {:induction false} OpenInputsConcat(a: seq<Visited>, b: seq<Visited>, params: string -> seq<string>)
    ensures OpenInputs(a + b, params) == OpenInputs(a, params) + OpenInputs(b, params)
  {
    if a == [] {
      Empty(b);
      Empty(OpenInputs(b, params));
    } else {
      ConsConcat(a, b);
      OpenInputsConcat(a[1..], b, params);
      Assoc(if a[0].open then Submitted(a[0].field, params) else [], OpenInputs(a[1..], params), OpenInputs(b, params));
    }
  }

  lemma {:induction false} ClosedRecordsNothing(fields: seq<FormField>, params: string -> seq<string>)
    ensures OpenInputs(Preorder(fields, false), params) == []
  {
    if fields != [] {
      var f := fields[0];
      ClosedRecordsNothing(f.children, params);
      ClosedRecordsNothing(fields[1..], params);
      VisitedFirst(f, false, fields[1..], params);
    }
  }

  lemma VisitedFirst(f: FormField, open: bool, rest: seq<FormField>, params: string -> seq<string>)
    ensures var here := open && IsWritable(f);
            OpenInputs([Visited(f, here)] + Preorder(f.children, here) + Preorder(rest, open), params)
            == (if here then Submitted(f, params) else [])
               + OpenInputs(Preorder(f.children, here), params) + OpenInputs(Preorder(rest, open), params)
  {
    var here := open && IsWritable(f);
    OpenInputsConcat([Visited(f, here)] + Preorder(f.children, here), Preorder(rest, open), params);
    OpenInputsConcat([Visited(f, here)], Preorder(f.children, here), params);
    assert [Visited(f, here)][1..] == [];
    Empty(if here then Submitted(f, params) else []);
  }

  /**
   The recorded input is the pre-order list of the values of all fields that are no passwords, are writable and
   have only writable ancestors.
   */
  lemma {:induction false} RecordedIsPreorder(fields: seq<FormField>, params: string -> seq<string>)
    ensures Recorded(fields, params) == OpenInputs(Preorder(fields, true), params)
  {
    if fields != [] {
      var f := fields[0];
      RecordedIsPreorder(fields[1..], params);
      VisitedFirst(f, true, fields[1..], params);
      if IsWritable(f) {
        RecordedIsPreorder(f.children, params);
      } else {
        ClosedRecordsNothing(f.children, params);
        Empty(Recorded(fields[1..], params));
      }
    }
  }

  // ---------- input by field ----------

  /** The values recorded under a name: the lists of the map that `handleSelections` builds. */
  function ContentsOf(inputs: seq<Input>, name: string): seq<string>
  {
    if inputs == [] then []
    else
      ContentsOf(inputs[..|inputs| - 1], name)
      + if inputs[|inputs| - 1].name == name then [inputs[|inputs| - 1].content] else []
  }

  lemma {:induction false} ContentsConcat(a: seq<Input>, b: seq<Input>, name: string)
    ensures ContentsOf(a + b, name) == ContentsOf(a, name) + ContentsOf(b, name)
  {
    if b == [] {
      Empty(a);
      Empty(ContentsOf(a, name));
    } else {
      ConcatSnoc(a, b);
      ContentsConcat(a, b[..|b| - 1], name);
      Assoc(ContentsOf(a, name), ContentsOf(b[..|b| - 1], name),
            if b[|b| - 1].name == name then [b[|b| - 1].content] else []);
    }
  }

  lemma {:induction false} ContentsOfField(binding: string, values: seq<string>, name: string)
    ensures ContentsOf(Inputs(binding, values), name) == if binding == name then values else []
  {
    if values != [] {
      var init, last := Unsnoc(values);
      ContentsOfField(binding, init, name);
      assert Inputs(binding, values)[..|values| - 1] == Inputs(binding, init);
    }
  }

  /** No two fields have the same binding. */
  predicate BindingsDistinct(visited: seq<Visited>)
  {
    forall i, j :: 0 <= i < j < |visited| ==> visited[i].field.binding != visited[j].field.binding
  }

  lemma {:induction false} NotRecorded(visited: seq<Visited>, params: string -> seq<string>, name: string)
    requires forall v :: v in visited && v.open && !v.field.kind.PasswordType? ==> v.field.binding != name
    ensures ContentsOf(OpenInputs(visited, params), name) == []
  {
    if visited != [] {
      FirstInputs(visited, params, name);
      NotRecorded(visited[1..], params, name);
    }
  }

  lemma FirstInputs(visited: seq<Visited>, params: string -> seq<string>, name: string)
    requires visited != []
    ensures var v := visited[0];
            ContentsOf(OpenInputs(visited, params), name)
            == (if v.open && !v.field.kind.PasswordType? && v.field.binding == name then params(name) else [])
               + ContentsOf(OpenInputs(visited[1..], params), name)
  {
    var v := visited[0];
    var own := if v.open then Submitted(v.field, params) else [];
    ContentsConcat(own, OpenInputs(visited[1..], params), name);
    if v.open && !v.field.kind.PasswordType? {
      ContentsOfField(v.field.binding, params(v.field.binding), name);
    }
  }

  lemma OthersDiffer(visited: seq<Visited>, w: Visited)
    requires visited != [] && BindingsDistinct(visited) && w in visited[1..]
    ensures w.field.binding != visited[0].field.binding
  {
    var j :| 0 <= j < |visited[1..]| && visited[1..][j] == w;
    assert visited[j + 1] == w;
  }

  /**
   With distinct bindings, what is recorded under the binding of a field is what was submitted for it if it is
   writable, below writable fields only and no password, and nothing otherwise.
   */
  lemma {:induction false} RecordedForField(visited: seq<Visited>, params: string -> seq<string>, i: nat)
    requires i < |visited| && BindingsDistinct(visited)
    ensures var v := visited[i];
            ContentsOf(OpenInputs(visited, params), v.field.binding)
            == if v.open && !v.field.kind.PasswordType? then params(v.field.binding) else []
  {
    FirstInputs(visited, params, visited[i].field.binding);
    if i == 0 {
      forall w | w in visited[1..]
        ensures w.field.binding != visited[0].field.binding
      {
        OthersDiffer(visited, w);
      }
      NotRecorded(visited[1..], params, visited[0].field.binding);
      Empty(params(visited[0].field.binding));
    } else {
      RecordedForField(visited[1..], params, i - 1);
      Empty(ContentsOf(OpenInputs(visited[1..], params), visited[i].field.binding));
    }
  }
}
