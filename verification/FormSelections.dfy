/**
 `CallableAction.addUserdata` and `handleSelections` on objects: the user's input is appended to a list, and
 the options of the selections are flipped in place.
 */
module FormSelections {
  import opened Options
  import opened Seqs
  import opened Fields
  import opened FormInput

  /** An option of a selection. */
  class Choice {
    const value: Option<string>
    var selected: bool

    constructor (value: Option<string>, selected: bool)
      ensures this.value == value && this.selected == selected
    {
      this.value, this.selected := value, selected;
    }
  }

  /** A selection with its options and option groups. */
  datatype Selection = Selection(id: string, options: seq<Choice>, groups: seq<seq<Choice>>)

  ghost function Members(groups: seq<seq<Choice>>): set<Choice>
  {
    set g, o | g in groups && o in g :: o
  }

  ghost function Choices(s: Selection): set<Choice>
  {
    (set o | o in s.options) + Members(s.groups)
  }

  ghost function AllChoices(selections: seq<Selection>): set<Choice>
  {
    set s, o | s in selections && o in Choices(s) :: o
  }

  // ---------- recording ----------

  /** The user data of an action. */
  class UserData {
    var inputs: seq<Input>

    constructor ()
      ensures inputs == []
    {
      inputs := [];
    }

    /** `addFieldsToUserdata` */
    method AddFields(fields: seq<FormField>, params: string -> seq<string>)
      modifies this
      ensures inputs == old(inputs) + Recorded(fields, params)
      decreases fields
    {
      TakeAll(fields);
      Empty(inputs);
      for i := 0 to |fields|
        invariant inputs + Recorded(fields[i..], params) == old(inputs) + Recorded(fields, params)
      {
        var f := fields[i];
        TakeOne(fields, i);
        ConsConcat([f], fields[i + 1..]);
        ghost var start, rest := inputs, Recorded(fields[i + 1..], params);
        if IsWritable(f) {
          if !f.kind.PasswordType? {
            AddValues(f.binding, params(f.binding));
          } else {
            Empty(inputs);
          }
          Assoc(start, Submitted(f, params), Recorded(f.children, params));
          AddFields(f.children, params);
          Assoc(start, Submitted(f, params) + Recorded(f.children, params), rest);
        } else {
          Empty(rest);
        }
      }
      Empty(inputs);
    }

    method AddValues(binding: string, values: seq<string>)
      modifies this
      ensures inputs == old(inputs) + Inputs(binding, values)
    {
      for i := 0 to |values|
        invariant inputs == old(inputs) + Inputs(binding, values[..i])
      {
        inputs := inputs + [Input(binding, values[i])];
      }
      TakeAll(values);
    }
  }

  // ---------- selecting ----------

  /** The selection found under an id: the last one, should the id repeat. */
  function SelectionFor(selections: seq<Selection>, id: string): (r: Option<Selection>)
    ensures r.Some? ==> r.value in selections && r.value.id == id
  {
    if selections == [] then None
    else if selections[|selections| - 1].id == id then Some(selections[|selections| - 1])
    else SelectionFor(selections[..|selections| - 1], id)
  }

  /** Of selections with one id the last one is found. */
  lemma {:induction false} LastSelectionFound(selections: seq<Selection>, k: nat)
    requires k < |selections| && forall m :: k < m < |selections| ==> selections[m].id != selections[k].id
    ensures SelectionFor(selections, selections[k].id) == Some(selections[k])
  {
    if k < |selections| - 1 {
      LastSelectionFound(selections[..|selections| - 1], k);
    }
  }

  /** The option's value is among the values. */
  predicate Chosen(o: Choice, values: seq<string>)
  {
    o.value.Some? && o.value.value in values
  }

  /** The field has input and a selection that the option belongs to. */
  ghost predicate Touches(selections: seq<Selection>, inputs: seq<Input>, f: FormField, o: Choice)
  {
    var s := SelectionFor(selections, f.name);
    s.Some? && ContentsOf(inputs, f.binding) != [] && o in Choices(s.value)
  }

  /** Whether the option is selected in the end: the last field that touches it decides. */
  ghost predicate SelectedInTheEnd(selections: seq<Selection>, inputs: seq<Input>, fields: seq<FormField>, o: Choice,
      before: bool)
  {
    if fields == [] then before
    else
      var f := fields[|fields| - 1];
      if Touches(selections, inputs, f, o) then Chosen(o, ContentsOf(inputs, f.binding))
      else SelectedInTheEnd(selections, inputs, fields[..|fields| - 1], o, before)
  }

  /** `deselectOptions` */
  method DeselectOptions(options: seq<Choice>)
    modifies options
    ensures forall o :: o in options ==> !o.selected
  {
    for i := 0 to |options|
      invariant forall j :: 0 <= j < i ==> !options[j].selected
    {
      options[i].selected := false;
    }
  }

  /** `selectOptions` */
  method SelectOptions(value: string, options: seq<Choice>)
    modifies options
    ensures forall o :: o in options ==> o.selected == (old(o.selected) || o.value == Some(value))
  {
    for i := 0 to |options|
      invariant forall o :: o in options ==>
                              o.selected == (old(o.selected) || (o.value == Some(value) && o in options[..i]))
    {
      TakeOne(options, i);
      if options[i].value == Some(value) {
        options[i].selected := true;
      }
    }
    TakeAll(options);
  }

  /** The loop over option groups that deselects their options. */
  method DeselectGroups(groups: seq<seq<Choice>>)
    modifies Members(groups)
    ensures forall o :: o in Members(groups) ==> !o.selected
  {
    for i := 0 to |groups|
      invariant forall o :: o in Members(groups[..i]) ==> !o.selected
    {
      GroupIn(groups, i);
      DeselectOptions(groups[i]);
    }
    TakeAll(groups);
  }

  method SelectGroups(value: string, groups: seq<seq<Choice>>)
    modifies Members(groups)
    ensures forall o :: o in Members(groups) ==> o.selected == (old(o.selected) || o.value == Some(value))
  {
    for i := 0 to |groups|
      invariant forall o :: o in Members(groups) ==>
                              o.selected == (old(o.selected) || (o.value == Some(value) && o in Members(groups[..i])))
    {
      GroupIn(groups, i);
      SelectOptions(value, groups[i]);
    }
    TakeAll(groups);
  }

  lemma GroupIn(groups: seq<seq<Choice>>, i: nat)
    requires i < |groups|
    ensures forall o :: o in groups[i] ==> o in Members(groups)
    ensures Members(groups[..i + 1]) == Members(groups[..i]) + set o | o in groups[i]
  {
    TakeOne(groups, i);
    assert groups[i] in groups;
  }

  /** The body of the loop of `handleSelections` for a field with a selection and input. */
  method SelectValues(s: Selection, values: seq<string>)
    modifies Choices(s)
    ensures forall o :: o in Choices(s) ==> o.selected == Chosen(o, values)
    ensures forall o :: o in s.options ==> o.selected == (o.value.Some? && o.value.value in values)
    ensures forall g, o :: g in s.groups && o in g ==> o.selected == (o.value.Some? && o.value.value in values)
  {
    DeselectOptions(s.options);
    DeselectGroups(s.groups);
    for i := 0 to |values|
      invariant forall o :: o in Choices(s) ==> o.selected == Chosen(o, values[..i])
    {
      TakeOne(values, i);
      SelectOptions(values[i], s.options);
      SelectGroups(values[i], s.groups);
    }
    TakeAll(values);
  }

  /** The map from ids to selections that `handleSelections` builds. */
  method IndexSelections(selections: seq<Selection>) returns (index: map<string, Selection>)
    ensures forall id :: id in index <==> SelectionFor(selections, id).Some?
    ensures forall id :: id in index ==> SelectionFor(selections, id) == Some(index[id])
  {
    index := map[];
    for i := 0 to |selections|
      invariant forall id :: id in index <==> SelectionFor(selections[..i], id).Some?
      invariant forall id :: id in index ==> SelectionFor(selections[..i], id) == Some(index[id])
    {
      TakeOne(selections, i);
      Snoc(selections[..i], selections[i]);
      index := index[selections[i].id := selections[i]];
    }
    TakeAll(selections);
  }

  /** The map from names to submitted values that `handleSelections` builds. */
  method GroupInputs(inputs: seq<Input>) returns (userinput: map<string, seq<string>>)
    ensures forall name :: name in userinput <==> ContentsOf(inputs, name) != []
    ensures forall name :: name in userinput ==> userinput[name] == ContentsOf(inputs, name)
  {
    userinput := map[];
    for i := 0 to |inputs|
      invariant forall name :: name in userinput <==> ContentsOf(inputs[..i], name) != []
      invariant forall name :: name in userinput ==> userinput[name] == ContentsOf(inputs[..i], name)
    {
      TakeOne(inputs, i);
      Snoc(inputs[..i], inputs[i]);
      var name := inputs[i].name;
      if name !in userinput {
        userinput := userinput[name := []];
      }
      userinput := userinput[name := userinput[name] + [inputs[i].content]];
    }
    TakeAll(inputs);
  }

  /** `handleSelections`; without data or user data nothing happens. */
  method HandleSelections(data: Option<seq<Selection>>, userdata: UserData?, fields: seq<FormField>)
    modifies if data.Some? then AllChoices(data.value) else {}
    ensures data.Some? && userdata != null ==>
              forall o :: o in AllChoices(data.value) ==>
                            o.selected == SelectedInTheEnd(data.value, userdata.inputs, fields, o, old(o.selected))
    ensures data.Some? && userdata == null ==> forall o :: o in AllChoices(data.value) ==> o.selected == old(o.selected)
  {
    if data.None? || userdata == null {
      return;
    }
    var selections, inputs := data.value, userdata.inputs;
    var index := IndexSelections(selections);
    var userinput := GroupInputs(inputs);
    for i := 0 to |fields|
      invariant userdata.inputs == inputs
      invariant forall o :: o in AllChoices(selections) ==>
                              o.selected == SelectedInTheEnd(selections, inputs, fields[..i], o, old(o.selected))
    {
      TakeOne(fields, i);
      Snoc(fields[..i], fields[i]);
      HandleField(selections, inputs, index, userinput, fields[i]);
    }
    TakeAll(fields);
  }

  method HandleField(ghost selections: seq<Selection>, ghost inputs: seq<Input>, index: map<string, Selection>,
      userinput: map<string, seq<string>>, f: FormField)
    requires forall id :: id in index <==> SelectionFor(selections, id).Some?
    requires forall id :: id in index ==> SelectionFor(selections, id) == Some(index[id])
    requires forall name :: name in userinput <==> ContentsOf(inputs, name) != []
    requires forall name :: name in userinput ==> userinput[name] == ContentsOf(inputs, name)
    modifies AllChoices(selections)
    ensures forall o :: o in AllChoices(selections) ==>
                          o.selected == if Touches(selections, inputs, f, o) then Chosen(o, ContentsOf(inputs, f.binding))
                                        else old(o.selected)
  {
    if f.name in index && f.binding in userinput {
      assert index[f.name] in selections;
      SelectValues(index[f.name], userinput[f.binding]);
    }
  }

  // ---------- a failed submission ----------

  /** Selections with different ids share no option. */
  ghost predicate OptionsUnshared(selections: seq<Selection>)
  {
    forall s, t :: s in selections && t in selections && s.id != t.id ==> Choices(s) !! Choices(t)
  }

  predicate NamesDistinct(fields: seq<FormField>)
  {
    forall i, j :: 0 <= i < j < |fields| ==> fields[i].name != fields[j].name
  }

  /** An option that no field touches is left alone. */
  lemma {:induction false} Untouched(selections: seq<Selection>, inputs: seq<Input>, fields: seq<FormField>, o: Choice,
      before: bool)
    requires forall f :: f in fields ==> !Touches(selections, inputs, f, o)
    ensures SelectedInTheEnd(selections, inputs, fields, o, before) == before
  {
    if fields != [] {
      Untouched(selections, inputs, fields[..|fields| - 1], o, before);
    }
  }

  /** If only one field can touch an option, that field decides. */
  lemma {:induction false} OneFieldDecides(selections: seq<Selection>, inputs: seq<Input>, fields: seq<FormField>, i: nat,
      o: Choice, before: bool)
    requires i < |fields| && forall j :: 0 <= j < |fields| && j != i ==> !Touches(selections, inputs, fields[j], o)
    ensures SelectedInTheEnd(selections, inputs, fields, o, before)
         == if Touches(selections, inputs, fields[i], o) then Chosen(o, ContentsOf(inputs, fields[i].binding)) else before
  {
    var init, last := Unsnoc(fields);
    if i == |init| {
      Untouched(selections, inputs, init, o, before);
    } else {
      OneFieldDecides(selections, inputs, init, i, o, before);
    }
  }

  lemma OthersDoNotTouch(selections: seq<Selection>, inputs: seq<Input>, fields: seq<FormField>, i: nat, j: nat, o: Choice)
    requires OptionsUnshared(selections) && NamesDistinct(fields) && i < |fields| && j < |fields| && i != j
    requires SelectionFor(selections, fields[i].name).Some? && o in Choices(SelectionFor(selections, fields[i].name).value)
    ensures !Touches(selections, inputs, fields[j], o)
  {
  }

  /**
   After a failed submission, an option of the selection of a field is selected if and only if its value was
   submitted for that field, provided the field is open, is no password and anything was submitted for it;
   otherwise the option is left as it was. `recorded` are the fields input is recorded for, of which
   the form's field may be any, at any depth.
   */
  lemma SelectionAfterFailure(selections: seq<Selection>, recorded: seq<FormField>, params: string -> seq<string>,
      fields: seq<FormField>, i: nat, k: nat, o: Choice, before: bool)
    requires OptionsUnshared(selections) && NamesDistinct(fields) && BindingsDistinct(Preorder(recorded, true))
    requires i < |fields| && k < |Preorder(recorded, true)|
    requires Preorder(recorded, true)[k].field.binding == fields[i].binding
    requires SelectionFor(selections, fields[i].name).Some?
    requires var s := SelectionFor(selections, fields[i].name).value;
             o in s.options || exists g :: g in s.groups && o in g
    ensures var v, values := Preorder(recorded, true)[k], params(fields[i].binding);
            SelectedInTheEnd(selections, Recorded(recorded, params), fields, o, before)
            == if v.open && !v.field.kind.PasswordType? && values != [] then o.value.Some? && o.value.value in values
               else before
  {
    var inputs := Recorded(recorded, params);
    RecordedIsPreorder(recorded, params);
    RecordedForField(Preorder(recorded, true), params, k);
    forall j | 0 <= j < |fields| && j != i
      ensures !Touches(selections, inputs, fields[j], o)
    {
      OthersDoNotTouch(selections, inputs, fields, i, j, o);
    }
    OneFieldDecides(selections, inputs, fields, i, o, before);
  }

  /** The options of all other selections are left as they were. */
  lemma OtherSelectionsUntouched(selections: seq<Selection>, recorded: seq<FormField>, params: string -> seq<string>,
      fields: seq<FormField>, o: Choice, before: bool)
    requires forall f :: f in fields && SelectionFor(selections, f.name).Some?
                         && o in Choices(SelectionFor(selections, f.name).value) ==>
                           forall v :: v in Preorder(recorded, true) ==> v.field.binding != f.binding
    ensures SelectedInTheEnd(selections, Recorded(recorded, params), fields, o, before) == before
  {
    var inputs := Recorded(recorded, params);
    RecordedIsPreorder(recorded, params);
    forall f | f in fields
      ensures !Touches(selections, inputs, f, o)
    {
      if SelectionFor(selections, f.name).Some? && o in Choices(SelectionFor(selections, f.name).value) {
        NotRecorded(Preorder(recorded, true), params, f.binding);
      }
    }
    Untouched(selections, inputs, fields, o, before);
  }
}
