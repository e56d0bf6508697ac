/**
 What a datasource resolved from a chain of definitions holds, read off the definitions themselves: which of them
 is the nearest one to set an element, counted along the chain.
 */
module NearestDefinitions {
  import opened Options
  import opened Seqs
  import opened JavaStrings
  import opened InheritanceIds
  import opened NamedLists
  import opened Fields
  import opened Datasources

  // ---------- single values ----------

  lemma {:induction false} NearestSomeAt<T>(chain: seq<DatasourceView>, own: DatasourceView -> Option<T>, base: Option<T>,
      i: nat)
    requires i <= |chain| && (forall j :: 0 <= j < i ==> own(chain[j]).None?) && (i < |chain| ==> own(chain[i]).Some?)
    ensures NearestSome(chain, own, base) == if i < |chain| then own(chain[i]) else base
  {
    if i > 0 {
      NearestSomeAt(chain[1..], own, base, i - 1);
    }
  }

  /** A binding that is set: not missing and not empty. */
  predicate SetsBinding(def: DatasourceView)
  {
    def.binding.Some? && def.binding.value != ""
  }

  /** The binding is that of the first definition with one that is not empty, or else the base's. */
  lemma {:induction false} BindingOfChain(chain: seq<DatasourceView>, base: DatasourceView, i: nat)
    requires ChainFits(chain, base) && i <= |chain|
    requires (forall j :: 0 <= j < i ==> !SetsBinding(chain[j])) && (i < |chain| ==> SetsBinding(chain[i]))
    ensures Resolved(chain, base).binding == if i < |chain| then chain[i].binding else base.binding
  {
    if i > 0 {
      BindingOfChain(chain[1..], base, i - 1);
    }
  }

  /** A title that is set has text for its id or its value. */
  ghost predicate SetsTitle(def: DatasourceView)
  {
    def.title.Some? && (HasText(def.title.value.id) || HasText(def.title.value.value))
  }

  lemma TitleOfChain(chain: seq<DatasourceView>, base: DatasourceView, i: nat)
    requires ChainFits(chain, base) && i <= |chain|
    requires (forall j :: 0 <= j < i ==> !SetsTitle(chain[j])) && (i < |chain| ==> SetsTitle(chain[i]))
    ensures Resolved(chain, base).title == if i < |chain| then chain[i].title else base.title
  {
    forall j | 0 <= j < |chain|
      ensures TitleSet(chain[j]) == if SetsTitle(chain[j]) then chain[j].title else None
    {
      if chain[j].title.Some? {
        BlankHasNoText(chain[j].title.value.id);
        BlankHasNoText(chain[j].title.value.value);
      }
    }
    if chain != [] {
      NearestScalarsWin(chain, base);
      NearestSomeAt(chain, TitleSet, base.title, i);
    }
  }

  lemma DescriptionOfChain(chain: seq<DatasourceView>, base: DatasourceView, i: nat)
    requires ChainFits(chain, base) && i <= |chain|
    requires (forall j :: 0 <= j < i ==> chain[j].description.None?) && (i < |chain| ==> chain[i].description.Some?)
    ensures Resolved(chain, base).description == if i < |chain| then chain[i].description else base.description
  {
    if chain != [] {
      NearestScalarsWin(chain, base);
      NearestSomeAt(chain, DescriptionSet, base.description, i);
    }
  }

  lemma PermissionsOfChain(chain: seq<DatasourceView>, base: DatasourceView, i: nat)
    requires ChainFits(chain, base) && i <= |chain|
    requires (forall j :: 0 <= j < i ==> chain[j].permissions.None?) && (i < |chain| ==> chain[i].permissions.Some?)
    ensures Resolved(chain, base).permissions == if i < |chain| then chain[i].permissions else base.permissions
  {
    if chain != [] {
      NearestScalarsWin(chain, base);
      NearestSomeAt(chain, PermissionsSet, base.permissions, i);
    }
  }

  ghost predicate SetsBeanId(def: DatasourceView)
  {
    def.bean.Some? && HasText(def.bean.value.id)
  }

  lemma BeanIdOfChain(chain: seq<DatasourceView>, base: DatasourceView, i: nat)
    requires ChainFits(chain, base) && chain != [] && i <= |chain|
    requires (forall j :: 0 <= j < i ==> !SetsBeanId(chain[j])) && (i < |chain| ==> SetsBeanId(chain[i]))
    ensures Resolved(chain, base).bean.Some?
    ensures Resolved(chain, base).bean.value.id == if i < |chain| then chain[i].bean.value.id else base.bean.value.id
  {
    forall j | 0 <= j < |chain|
      ensures BeanIdSet(chain[j]) == if SetsBeanId(chain[j]) then chain[j].bean.value.id else None
    {
      BlankHasNoText(chain[j].bean.value.id);
    }
    NearestScalarsWin(chain, base);
    NearestSomeAt(chain, BeanIdSet, base.bean.value.id, i);
  }

  // ---------- lists merged by name ----------

  /** The last element of its name is at this index. */
  predicate LastAt<T>(xs: seq<Keyed<T>>, k: nat)
  {
    k < |xs| && forall m :: k < m < |xs| ==> xs[m].key != xs[k].key
  }

  ghost predicate Lacks<T>(xs: seq<Keyed<T>>, key: string)
  {
    forall x :: x in xs ==> x.key != key
  }

  /** The only element of its name. */
  ghost predicate HasOnly<T>(xs: seq<Keyed<T>>, x: Keyed<T>)
  {
    x in xs && forall y :: y in xs && y.key == x.key ==> y == x
  }

  lemma {:induction false} FindLastAt<T>(xs: seq<Keyed<T>>, k: nat)
    requires LastAt(xs, k)
    ensures FindLast(xs, xs[k].key) == Some(xs[k])
  {
    if k < |xs| - 1 {
      FindLastAt(xs[..|xs| - 1], k);
    }
  }

  lemma {:induction false} FindLastLacks<T>(xs: seq<Keyed<T>>, key: string)
    requires Lacks(xs, key)
    ensures FindLast(xs, key) == None
  {
    if xs != [] {
      assert xs[|xs| - 1] in xs;
      FindLastLacks(xs[..|xs| - 1], key);
    }
  }

  lemma {:induction false} FindLacks<T>(xs: seq<Keyed<T>>, key: string)
    ensures Find(xs, key).None? <==> Lacks(xs, key)
    ensures Find(xs, key).Some? ==> Find(xs, key).value in xs && Find(xs, key).value.key == key
  {
    if xs != [] {
      FindLacks(xs[1..], key);
      assert xs == [xs[0]] + xs[1..];
    }
  }

  lemma FindIsOnly<T>(xs: seq<Keyed<T>>, x: Keyed<T>)
    requires Distinct(xs)
    ensures Find(xs, x.key) == Some(x) <==> HasOnly(xs, x)
  {
    FindLacks(xs, x.key);
    if Find(xs, x.key).Some? {
      var found := Find(xs, x.key).value;
      forall y | y in xs && y.key == x.key
        ensures y == found
      {
        DistinctNames(xs, y, found);
      }
    }
  }

  lemma {:induction false} DistinctNames<T>(xs: seq<Keyed<T>>, x: Keyed<T>, y: Keyed<T>)
    requires Distinct(xs) && x in xs && y in xs && x.key == y.key
    ensures x == y
  {
    var init, last := Unsnoc(xs);
    KeyIn(init, x);
    KeyIn(init, y);
    if x in init && y in init {
      DistinctNames(init, x, y);
    }
  }

  lemma {:induction false} KeyIn<T>(xs: seq<Keyed<T>>, x: Keyed<T>)
    ensures x in xs ==> x.key in Keys(xs)
  {
    if xs != [] {
      KeyIn(xs[..|xs| - 1], x);
    }
  }

  lemma {:induction false} NearestAt<T>(chain: seq<DatasourceView>, own: DatasourceView -> seq<Keyed<T>>,
      base: DatasourceView, i: nat, k: nat)
    requires i < |chain| && LastAt(own(chain[i]), k)
    requires forall j :: 0 <= j < i ==> Lacks(own(chain[j]), own(chain[i])[k].key)
    ensures Nearest(chain, own, base, own(chain[i])[k].key) == Some(own(chain[i])[k])
  {
    if i == 0 {
      FindLastAt(own(chain[0]), k);
    } else {
      FindLastLacks(own(chain[0]), own(chain[i])[k].key);
      NearestAt(chain[1..], own, base, i - 1, k);
    }
  }

  lemma {:induction false} NearestInBase<T>(chain: seq<DatasourceView>, own: DatasourceView -> seq<Keyed<T>>,
      base: DatasourceView, key: string)
    requires forall j :: 0 <= j < |chain| ==> Lacks(own(chain[j]), key)
    ensures Nearest(chain, own, base, key) == Find(own(base), key)
  {
    if chain != [] {
      FindLastLacks(own(chain[0]), key);
      NearestInBase(chain[1..], own, base, key);
    }
  }

  /**
   A label of the `i`-th definition, the last of its id there, is in the resolved datasource and alone of its id, if
   no nearer definition has a label of that id.
   */
  lemma LabelOfChain(chain: seq<DatasourceView>, base: DatasourceView, i: nat, k: nat)
    requires ChainFits(chain, base) && NamesDistinct(base) && i < |chain|
    requires chain[i].labels.Some? && LastAt(chain[i].labels.value, k)
    requires forall j :: 0 <= j < i && chain[j].labels.Some? ==>
                           Lacks(chain[j].labels.value, chain[i].labels.value[k].key)
    ensures Resolved(chain, base).labels.Some?
    ensures HasOnly(Resolved(chain, base).labels.value, chain[i].labels.value[k])
  {
    NearestAt(chain, LabelsOf, base, i, k);
    NearestLabelWins(chain, base, chain[i].labels.value[k].key);
    ResolvedNamesDistinct(chain, base);
    FindIsOnly(LabelsOf(Resolved(chain, base)), chain[i].labels.value[k]);
  }

  /** Labels of the base that no definition has stay, and no others come up. */
  lemma LabelOfBase(chain: seq<DatasourceView>, base: DatasourceView, own: Label)
    requires ChainFits(chain, base) && NamesDistinct(base) && base.labels.Some?
    requires forall j :: 0 <= j < |chain| && chain[j].labels.Some? ==> Lacks(chain[j].labels.value, own.key)
    ensures Resolved(chain, base).labels.Some?
    ensures HasOnly(Resolved(chain, base).labels.value, own) <==> own in base.labels.value
  {
    NearestInBase(chain, LabelsOf, base, own.key);
    NearestLabelWins(chain, base, own.key);
    ResolvedNamesDistinct(chain, base);
    FindIsOnly(LabelsOf(Resolved(chain, base)), own);
    FindIsOnly(base.labels.value, own);
    InDistinct(base.labels.value, own);
  }

  lemma InDistinct<T>(xs: seq<Keyed<T>>, x: Keyed<T>)
    requires Distinct(xs)
    ensures HasOnly(xs, x) <==> x in xs
  {
    forall y | x in xs && y in xs && y.key == x.key
      ensures y == x
    {
      DistinctNames(xs, x, y);
    }
  }

  /** The same for params. */
  lemma ParamOfChain(chain: seq<DatasourceView>, base: DatasourceView, i: nat, k: nat)
    requires ChainFits(chain, base) && NamesDistinct(base) && i < |chain|
    requires chain[i].params.Some? && LastAt(chain[i].params.value, k)
    requires forall j :: 0 <= j < i && chain[j].params.Some? ==>
                           Lacks(chain[j].params.value, chain[i].params.value[k].key)
    ensures Resolved(chain, base).params.Some?
    ensures HasOnly(Resolved(chain, base).params.value, chain[i].params.value[k])
  {
    NearestAt(chain, ParamsOf, base, i, k);
    NearestParamWins(chain, base, chain[i].params.value[k].key);
    ResolvedNamesDistinct(chain, base);
    FindIsOnly(ParamsOf(Resolved(chain, base)), chain[i].params.value[k]);
  }

  lemma ParamOfBase(chain: seq<DatasourceView>, base: DatasourceView, param: Param)
    requires ChainFits(chain, base) && NamesDistinct(base) && base.params.Some?
    requires forall j :: 0 <= j < |chain| && chain[j].params.Some? ==> Lacks(chain[j].params.value, param.key)
    ensures Resolved(chain, base).params.Some?
    ensures HasOnly(Resolved(chain, base).params.value, param) <==> param in base.params.value
  {
    NearestInBase(chain, ParamsOf, base, param.key);
    NearestParamWins(chain, base, param.key);
    ResolvedNamesDistinct(chain, base);
    FindIsOnly(ParamsOf(Resolved(chain, base)), param);
    FindIsOnly(base.params.value, param);
    InDistinct(base.params.value, param);
  }

  /** The same for link panels. */
  lemma PanelOfChain(chain: seq<DatasourceView>, base: DatasourceView, i: nat, k: nat)
    requires ChainFits(chain, base) && NamesDistinct(base) && i < |chain| && LastAt(chain[i].panels, k)
    requires forall j :: 0 <= j < i ==> Lacks(chain[j].panels, chain[i].panels[k].key)
    ensures HasOnly(Resolved(chain, base).panels, chain[i].panels[k])
  {
    NearestAt(chain, PanelsOf, base, i, k);
    NearestPanelWins(chain, base, chain[i].panels[k].key);
    ResolvedNamesDistinct(chain, base);
    FindIsOnly(Resolved(chain, base).panels, chain[i].panels[k]);
  }

  lemma PanelOfBase(chain: seq<DatasourceView>, base: DatasourceView, panel: LinkPanel)
    requires ChainFits(chain, base) && NamesDistinct(base)
    requires forall j :: 0 <= j < |chain| ==> Lacks(chain[j].panels, panel.key)
    ensures HasOnly(Resolved(chain, base).panels, panel) <==> panel in base.panels
  {
    NearestInBase(chain, PanelsOf, base, panel.key);
    NearestPanelWins(chain, base, panel.key);
    ResolvedNamesDistinct(chain, base);
    FindIsOnly(Resolved(chain, base).panels, panel);
    FindIsOnly(base.panels, panel);
    InDistinct(base.panels, panel);
  }

  // ---------- bean options ----------

  /** The options of the definition's bean. */
  function OptionList(def: DatasourceView): seq<BeanOption>
    requires def.bean.Some?
  {
    def.bean.value.options
  }

  lemma {:induction false} NearestOptionAt(chain: seq<DatasourceView>, base: DatasourceView, i: nat, k: nat)
    requires ChainFits(chain, base) && i < |chain| && LastAt(OptionList(chain[i]), k)
    requires forall j :: 0 <= j < i ==> Lacks(OptionList(chain[j]), OptionList(chain[i])[k].key) && !SetsBeanId(chain[j])
    ensures NearestOption(chain, base, OptionList(chain[i])[k].key) == Some(OptionList(chain[i])[k])
  {
    if i == 0 {
      FindLastAt(OptionList(chain[0]), k);
    } else {
      BlankHasNoText(chain[0].bean.value.id);
      FindLastLacks(OptionList(chain[0]), OptionList(chain[i])[k].key);
      NearestOptionAt(chain[1..], base, i - 1, k);
    }
  }

  /** A bean option counts unless a nearer definition has one of its name or sets a bean id. */
  lemma OptionOfChain(chain: seq<DatasourceView>, base: DatasourceView, i: nat, k: nat)
    requires ChainFits(chain, base) && NamesDistinct(base) && i < |chain| && LastAt(OptionList(chain[i]), k)
    requires forall j :: 0 <= j < i ==> Lacks(OptionList(chain[j]), OptionList(chain[i])[k].key) && !SetsBeanId(chain[j])
    ensures Resolved(chain, base).bean.Some? && HasOnly(OptionList(Resolved(chain, base)), OptionList(chain[i])[k])
  {
    NearestOptionAt(chain, base, i, k);
    NearestOptionWins(chain, base, OptionList(chain[i])[k].key);
    ResolvedNamesDistinct(chain, base);
    FindIsOnly(OptionList(Resolved(chain, base)), OptionList(chain[i])[k]);
  }

  lemma {:induction false} NoOptionBehind(chain: seq<DatasourceView>, base: DatasourceView, i: nat, name: string)
    requires ChainFits(chain, base) && i < |chain| && SetsBeanId(chain[i])
    requires forall j :: 0 <= j <= i ==> Lacks(OptionList(chain[j]), name)
    ensures NearestOption(chain, base, name) == None
  {
    BlankHasNoText(chain[0].bean.value.id);
    FindLastLacks(OptionList(chain[0]), name);
    if i > 0 {
      NoOptionBehind(chain[1..], base, i - 1, name);
    }
  }

  /** Options behind a definition that sets a bean id are gone unless that definition or a nearer one repeats them. */
  lemma OptionsAreDropped(chain: seq<DatasourceView>, base: DatasourceView, i: nat, name: string)
    requires ChainFits(chain, base) && NamesDistinct(base) && i < |chain| && SetsBeanId(chain[i])
    requires forall j :: 0 <= j <= i ==> Lacks(OptionList(chain[j]), name)
    ensures Resolved(chain, base).bean.Some? && Lacks(OptionList(Resolved(chain, base)), name)
  {
    NoOptionBehind(chain, base, i, name);
    NearestOptionWins(chain, base, name);
    FindLacks(OptionList(Resolved(chain, base)), name);
  }

  // ---------- fields ----------

  /** The binding in force for the fields of the `i`-th definition is that of the `h`-th. */
  predicate InForce(chain: seq<DatasourceView>, i: nat, h: nat)
  {
    && i <= h <= |chain| && (forall j :: i <= j < h ==> !SetsBinding(chain[j])) && (h < |chain| ==> SetsBinding(chain[h]))
  }

  lemma {:induction false} NearestBindingAt(chain: seq<DatasourceView>, base: DatasourceView, h: nat)
    requires InForce(chain, 0, h)
    ensures NearestBinding(chain, base) == if h < |chain| then chain[h].binding else base.binding
  {
    if h > 0 {
      NearestBindingAt(chain[1..], base, h - 1);
    }
  }

  lemma {:induction false} NearestFieldAt(chain: seq<DatasourceView>, base: DatasourceView, i: nat, k: nat, h: nat)
    requires i < |chain| && LastAt(chain[i].fields, k) && InForce(chain, i, h)
    requires forall j :: 0 <= j < i ==> Lacks(chain[j].fields, chain[i].fields[k].key)
    ensures var prefix := if h < |chain| then chain[h].binding else base.binding;
            NearestField(chain, base, chain[i].fields[k].key) == Some(BindField(prefix, chain[i].fields[k]))
  {
    if i == 0 {
      FindLastAt(chain[0].fields, k);
      NearestBindingAt(chain, base, h);
    } else {
      FindLastLacks(chain[0].fields, chain[i].fields[k].key);
      NearestFieldAt(chain[1..], base, i - 1, k, h - 1);
    }
  }

  /**
   A field of the `i`-th definition, the last of its name there, is read back unless a nearer definition has one of
   its name. It is bound with the first binding set from that definition on, whatever nearer ones set.
   */
  lemma FieldOfChain(chain: seq<DatasourceView>, base: DatasourceView, i: nat, k: nat, h: nat)
    requires ChainFits(chain, base) && NamesDistinct(base)
    requires i < |chain| && LastAt(chain[i].fields, k) && InForce(chain, i, h)
    requires forall j :: 0 <= j < i ==> Lacks(chain[j].fields, chain[i].fields[k].key)
    ensures var prefix := if h < |chain| then chain[h].binding else base.binding;
            HasOnly(Bound(Resolved(chain, base)).fields, BindFields(prefix, chain[i].fields)[k])
  {
    var prefix := if h < |chain| then chain[h].binding else base.binding;
    NearestFieldAt(chain, base, i, k, h);
    NearestFieldWins(chain, base, chain[i].fields[k].key);
    ResolvedNamesDistinct(chain, base);
    FindIsOnly(Bound(Resolved(chain, base)).fields, BindField(prefix, chain[i].fields[k]));
  }

  lemma {:induction false} NearestFieldInBase(chain: seq<DatasourceView>, base: DatasourceView, k: nat)
    requires NamesDistinct(base) && k < |base.fields|
    requires forall j :: 0 <= j < |chain| ==> Lacks(chain[j].fields, base.fields[k].key)
    ensures NearestField(chain, base, base.fields[k].key) == Some(BindField(base.binding, base.fields[k]))
  {
    if chain == [] {
      InDistinct(base.fields, base.fields[k]);
      FindIsOnly(base.fields, base.fields[k]);
    } else {
      FindLastLacks(chain[0].fields, base.fields[k].key);
      NearestFieldInBase(chain[1..], base, k);
    }
  }

  /** A field of the base is bound with the base's binding. */
  lemma FieldOfBase(chain: seq<DatasourceView>, base: DatasourceView, k: nat)
    requires ChainFits(chain, base) && NamesDistinct(base) && k < |base.fields|
    requires forall j :: 0 <= j < |chain| ==> Lacks(chain[j].fields, base.fields[k].key)
    ensures HasOnly(Bound(Resolved(chain, base)).fields, BindFields(base.binding, base.fields)[k])
  {
    NearestFieldInBase(chain, base, k);
    NearestFieldWins(chain, base, base.fields[k].key);
    ResolvedNamesDistinct(chain, base);
    FindIsOnly(Bound(Resolved(chain, base)).fields, BindField(base.binding, base.fields[k]));
  }
}
