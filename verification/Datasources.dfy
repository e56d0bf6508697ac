/**
 Datasources as values, what one inheritance step makes of a definition and its ancestor
 (`DatasourceInheritanceHelper.inherit`) and what a whole chain of definitions means.
 */
module Datasources {
  import opened Options
  import opened Seqs
  import opened JavaStrings
  import opened InheritanceIds
  import opened NamedLists
  import opened Fields

  /** A title or description label. */
  datatype Text = Text(id: Option<string>, value: Option<string>)

  datatype ParamBody = ParamBody(value: Option<string>, default: Option<string>)

  type Label = Keyed<Option<string>>
  type Param = Keyed<ParamBody>
  type BeanOption = Keyed<map<string, string>>
  type LinkPanel = Keyed<seq<string>>

  datatype Bean = Bean(id: Option<string>, options: seq<BeanOption>)

  /**
   The contents of a datasource. `labels` and `params` are containers that may be missing; a static
   datasource has no bean; `binding`, `bindClass` and `fields` belong to the meta-data element.
   */
  datatype DatasourceView = DatasourceView(
    id: string,
    title: Option<Text>,
    description: Option<Text>,
    labels: Option<seq<Label>>,
    permissions: Option<seq<string>>,
    params: Option<seq<Param>>,
    bindClass: Option<string>,
    binding: Option<string>,
    fields: seq<Field>,
    bean: Option<Bean>,
    panels: seq<LinkPanel>)

  /** The elements of a container that may be missing. */
  function Elements<T>(container: Option<seq<T>>): seq<T>
  {
    if container.Some? then container.value else []
  }

  /** The datasource as `getDatasource` hands it out: with all bindings filled in. */
  function Bound(ds: DatasourceView): DatasourceView
  {
    ds.(fields := BindFields(ds.binding, ds.fields))
  }

  /** Reading a datasource twice is reading it once. */
  lemma BoundTwice(ds: DatasourceView)
    ensures Bound(Bound(ds)) == Bound(ds)
  {
    BindingsStick(ds.binding, ds.binding, ds.fields);
  }

  // ---------- one step ----------

  /**
   `inherit` reaches its end: where the definition has labels or params the ancestor needs the
   container they are added to, and both need a bean. Otherwise a null pointer is hit.
   */
  predicate Mergeable(def: DatasourceView, ancestor: DatasourceView)
  {
    && (def.labels.Some? ==> ancestor.labels.Some?)
    && (def.params.Some? ==> ancestor.params.Some?)
    && def.bean.Some? && ancestor.bean.Some?
  }

  predicate OverridesTitle(def: DatasourceView)
  {
    def.title.Some? && (!IsBlank(def.title.value.id) || !IsBlank(def.title.value.value))
  }

  predicate OverridesBeanId(def: DatasourceView)
    requires def.bean.Some?
  {
    !IsBlank(def.bean.value.id)
  }

  function InheritedList<T>(own: Option<seq<Keyed<T>>>, inherited: Option<seq<Keyed<T>>>): Option<seq<Keyed<T>>>
    requires own.Some? ==> inherited.Some?
  {
    if own.Some? then Some(AppendMerged(inherited.value, own.value)) else inherited
  }

  /** A new bean id throws the inherited options away. */
  function BeanMerged(own: Bean, inherited: Bean): Bean
  {
    var start := if !IsBlank(own.id) then Bean(own.id, []) else inherited;
    Bean(start.id, AppendMerged(start.options, own.options))
  }

  function InheritedBean(def: DatasourceView, ancestor: Bean): Bean
    requires def.bean.Some?
  {
    BeanMerged(def.bean.value, ancestor)
  }

  /** The datasource `inherit` builds from a definition and its ancestor. */
  function Inherited(def: DatasourceView, ancestor: DatasourceView): (r: DatasourceView)
    requires IsInheriting(def.id) && Mergeable(def, ancestor)
  {
    DatasourceView(
      DescendantId(def.id),
      if OverridesTitle(def) then def.title else ancestor.title,
      def.description.OrElse(ancestor.description),
      InheritedList(def.labels, ancestor.labels),
      def.permissions.OrElse(ancestor.permissions),
      InheritedList(def.params, ancestor.params),
      def.bindClass,
      if IsEmpty(def.binding) then ancestor.binding else def.binding,
      FieldsMerged(ancestor.fields, def.fields),
      Some(InheritedBean(def, ancestor.bean.value)),
      ReplaceMerged(ancestor.panels, def.panels))
  }

  // ---------- chains ----------

  /** All lists merged by name have distinct names. */
  ghost predicate NamesDistinct(ds: DatasourceView)
  {
    && Distinct(LabelsOf(ds)) && Distinct(ParamsOf(ds)) && Distinct(ds.fields)
    && Distinct(ds.panels) && Distinct(OptionsOf(ds))
  }

  /**
   The definitions of a chain, the nearest one first, can all be merged. Containers and beans are
   inherited, so it is the base datasource alone that decides.
   */
  predicate ChainFits(chain: seq<DatasourceView>, base: DatasourceView)
  {
    forall i :: 0 <= i < |chain| ==> IsInheriting(chain[i].id) && Mergeable(chain[i], base)
  }

  /** The datasource at the near end of a chain; every ancestor is read through `getDatasource` first. */
  function Resolved(chain: seq<DatasourceView>, base: DatasourceView): (r: DatasourceView)
    requires ChainFits(chain, base)
    ensures r.labels.Some? == base.labels.Some? && r.params.Some? == base.params.Some?
    ensures r.bean.Some? == base.bean.Some?
  {
    if chain == [] then base
    else Inherited(chain[0], Bound(Resolved(chain[1..], base)))
  }

  /** The last definition of a name in the nearest layer that defines it at all, else the one in `base`. */
  ghost function Nearest<T>(chain: seq<DatasourceView>, own: DatasourceView -> seq<Keyed<T>>, base: DatasourceView,
      key: string): Option<Keyed<T>>
  {
    if chain == [] then Find(own(base), key)
    else FindLast(own(chain[0]), key).OrElse(Nearest(chain[1..], own, base, key))
  }

  function LabelsOf(ds: DatasourceView): seq<Label>
  {
    Elements(ds.labels)
  }

  function ParamsOf(ds: DatasourceView): seq<Param>
  {
    Elements(ds.params)
  }

  function PanelsOf(ds: DatasourceView): seq<LinkPanel>
  {
    ds.panels
  }

  function OptionsOf(ds: DatasourceView): seq<BeanOption>
  {
    if ds.bean.Some? then ds.bean.value.options else []
  }

  /** The value of the nearest definition that has one, else `base`. */
  ghost function NearestSome<T>(chain: seq<DatasourceView>, own: DatasourceView -> Option<T>, base: Option<T>): Option<T>
  {
    if chain == [] then base else own(chain[0]).OrElse(NearestSome(chain[1..], own, base))
  }

  function TitleSet(def: DatasourceView): Option<Text>
  {
    if OverridesTitle(def) then def.title else None
  }

  function DescriptionSet(def: DatasourceView): Option<Text>
  {
    def.description
  }

  function PermissionsSet(def: DatasourceView): Option<seq<string>>
  {
    def.permissions
  }

  function BeanIdSet(def: DatasourceView): Option<string>
  {
    if def.bean.Some? && OverridesBeanId(def) then def.bean.value.id else None
  }

  /** The nearest bean option, looking no further than the nearest definition that sets a bean id. */
  ghost function NearestOption(chain: seq<DatasourceView>, base: DatasourceView, name: string): Option<BeanOption>
  {
    if chain == [] then Find(OptionsOf(base), name)
    else if chain[0].bean.Some? && OverridesBeanId(chain[0]) then FindLast(OptionsOf(chain[0]), name)
    else FindLast(OptionsOf(chain[0]), name).OrElse(NearestOption(chain[1..], base, name))
  }

  /** The prefix in force at the near end of the chain. */
  ghost function NearestBinding(chain: seq<DatasourceView>, base: DatasourceView): Option<string>
  {
    if chain == [] then base.binding
    else if IsEmpty(chain[0].binding) then NearestBinding(chain[1..], base)
    else chain[0].binding
  }

  /**
   The nearest definition of a field, bound with the prefix in force at the level that defines it:
   a definition further up that changes the prefix does not touch it.
   */
  ghost function NearestField(chain: seq<DatasourceView>, base: DatasourceView, name: string): Option<Field>
  {
    if chain == [] then
      match Find(base.fields, name)
      case None => None
      case Some(f) => Some(BindField(base.binding, f))
    else
      match FindLast(chain[0].fields, name)
      case None => NearestField(chain[1..], base, name)
      case Some(f) => Some(BindField(NearestBinding(chain, base), f))
  }

  lemma InheritedListLookup<T>(own: Option<seq<Keyed<T>>>, inherited: Option<seq<Keyed<T>>>, key: string)
    requires (own.Some? ==> inherited.Some?) && Distinct(Elements(inherited))
    ensures var r := Elements(InheritedList(own, inherited));
            Distinct(r) && Find(r, key) == FindLast(Elements(own), key).OrElse(Find(Elements(inherited), key))
  {
    AppendMergeLookup(Elements(inherited), Elements(own), key);
  }

  /** One step of inheritance keeps every name unique, even if the definition repeats one. */
  lemma InheritedNamesDistinct(def: DatasourceView, ancestor: DatasourceView)
    requires IsInheriting(def.id) && Mergeable(def, ancestor) && NamesDistinct(ancestor)
    ensures NamesDistinct(Inherited(def, ancestor))
  {
    InheritedListLookup(def.labels, ancestor.labels, "");
    InheritedListLookup(def.params, ancestor.params, "");
    FieldsMergedLookup(ancestor.fields, def.fields, "");
    ReplaceMergeLookup(ancestor.panels, def.panels, "");
    AppendMergeLookup([], def.bean.value.options, "");
    AppendMergeLookup(ancestor.bean.value.options, def.bean.value.options, "");
  }

  /** Merging keeps every name unique over a whole chain. */
  lemma {:induction false} ResolvedNamesDistinct(chain: seq<DatasourceView>, base: DatasourceView)
    requires ChainFits(chain, base) && NamesDistinct(base)
    ensures NamesDistinct(Resolved(chain, base)) && NamesDistinct(Bound(Resolved(chain, base)))
  {
    if chain != [] {
      ResolvedNamesDistinct(chain[1..], base);
      InheritedNamesDistinct(chain[0], Bound(Resolved(chain[1..], base)));
    }
    BoundNames(Resolved(chain, base).binding, Resolved(chain, base).fields);
  }

  /** A label of a resolved datasource is the one nearest in the chain. */
  lemma {:induction false} NearestLabelWins(chain: seq<DatasourceView>, base: DatasourceView, id: string)
    requires ChainFits(chain, base) && NamesDistinct(base)
    ensures Find(LabelsOf(Resolved(chain, base)), id) == Nearest(chain, LabelsOf, base, id)
  {
    if chain != [] {
      NearestLabelWins(chain[1..], base, id);
      ResolvedNamesDistinct(chain[1..], base);
      InheritedListLookup(chain[0].labels, Resolved(chain[1..], base).labels, id);
    }
  }

  /** A param of a resolved datasource is the one nearest in the chain. */
  lemma {:induction false} NearestParamWins(chain: seq<DatasourceView>, base: DatasourceView, name: string)
    requires ChainFits(chain, base) && NamesDistinct(base)
    ensures Find(ParamsOf(Resolved(chain, base)), name) == Nearest(chain, ParamsOf, base, name)
  {
    if chain != [] {
      NearestParamWins(chain[1..], base, name);
      ResolvedNamesDistinct(chain[1..], base);
      InheritedListLookup(chain[0].params, Resolved(chain[1..], base).params, name);
    }
  }

  /** A link panel of a resolved datasource is the one nearest in the chain. */
  lemma {:induction false} NearestPanelWins(chain: seq<DatasourceView>, base: DatasourceView, id: string)
    requires ChainFits(chain, base) && NamesDistinct(base)
    ensures Find(Resolved(chain, base).panels, id) == Nearest(chain, PanelsOf, base, id)
  {
    if chain != [] {
      NearestPanelWins(chain[1..], base, id);
      ResolvedNamesDistinct(chain[1..], base);
      ReplaceMergeLookup(Resolved(chain[1..], base).panels, chain[0].panels, id);
    }
  }

  /** Bean options follow the same rule, but only down to the nearest definition that sets a bean id. */
  lemma {:induction false} NearestOptionWins(chain: seq<DatasourceView>, base: DatasourceView, name: string)
    requires ChainFits(chain, base) && NamesDistinct(base)
    ensures Find(OptionsOf(Resolved(chain, base)), name) == NearestOption(chain, base, name)
  {
    if chain != [] {
      NearestOptionWins(chain[1..], base, name);
      ResolvedNamesDistinct(chain[1..], base);
      var own := chain[0].bean.value.options;
      if OverridesBeanId(chain[0]) {
        AppendMergeLookup([], own, name);
      } else {
        AppendMergeLookup(Resolved(chain[1..], base).bean.value.options, own, name);
      }
    }
  }

  /** A field of a resolved datasource, as it is read back, is the nearest one with its own level's binding. */
  lemma {:induction false} NearestFieldWins(chain: seq<DatasourceView>, base: DatasourceView, name: string)
    requires ChainFits(chain, base) && NamesDistinct(base)
    ensures Resolved(chain, base).binding == NearestBinding(chain, base)
    ensures Find(Bound(Resolved(chain, base)).fields, name) == NearestField(chain, base, name)
  {
    var r := Resolved(chain, base);
    FindBound(r.binding, r.fields, name);
    if chain != [] {
      var def, ancestor := chain[0], Resolved(chain[1..], base);
      NearestFieldWins(chain[1..], base, name);
      ResolvedNamesDistinct(chain[1..], base);
      FieldsMergedLookup(Bound(ancestor).fields, def.fields, name);
      FindBound(ancestor.binding, ancestor.fields, name);
      match Find(ancestor.fields, name)
      case None =>
      case Some(f) => BindingSticks(r.binding, ancestor.binding, f);
    }
  }

  /** Title, description, permissions and bean id are the nearest ones set; the bind class is the definition's own. */
  lemma {:induction false} NearestScalarsWin(chain: seq<DatasourceView>, base: DatasourceView)
    requires ChainFits(chain, base) && chain != []
    ensures var r := Resolved(chain, base);
            && r.id == DescendantId(chain[0].id)
            && r.bindClass == chain[0].bindClass
            && r.title == NearestSome(chain, TitleSet, base.title)
            && r.description == NearestSome(chain, DescriptionSet, base.description)
            && r.permissions == NearestSome(chain, PermissionsSet, base.permissions)
            && r.bean.value.id == NearestSome(chain, BeanIdSet, base.bean.value.id)
  {
    if |chain| > 1 {
      NearestScalarsWin(chain[1..], base);
    }
  }
}
