/**
 What the validator's checks of params are worth: whether a reference it accepts can mention a param that nobody
 supplies when `ElementHelper.initializeParameters` replaces the placeholders in its values.
 */
module ParamReferences {
  import opened Options
  import opened Seqs
  import opened JavaStrings
  import opened NamedLists
  import opened Placeholders
  import opened Datasources
  import opened Inheritance
  import opened Config
  import opened Runtime
  import opened Validator
  import opened ValidatorSoundness

  // ---------- one reference ----------

  /** Of params with the same name the last one counts. */
  lemma {:induction false} ParamMapIsLast(params: seq<Param>, name: string)
    ensures name in ParamMap(params) <==> FindLast(params, name).Some?
    ensures name in ParamMap(params) ==> ParamMap(params)[name] == ParamValue(FindLast(params, name).value)
  {
    if params != [] {
      ParamMapIsLast(params[..|params| - 1], name);
    }
  }

  /** The param `name` counts and its value refers to `n`. */
  ghost predicate RefersTo(params: seq<Param>, name: string, n: string)
  {
    FindLast(params, name).Some? && ParamReferred(ParamValue(FindLast(params, name).value)) == Some(n)
  }

  lemma ReferredIff(params: seq<Param>, n: string)
    ensures n in ParamsReferred(ParamMap(params)) <==> exists name :: RefersTo(params, name, n)
  {
    var values := ParamMap(params);
    if n in ParamsReferred(values) {
      var name :| name in values && ParamReferred(values[name]) == Some(n);
      ParamMapIsLast(params, name);
      assert RefersTo(params, name, n);
    }
    if exists name :: RefersTo(params, name, n) {
      var name :| RefersTo(params, name, n);
      ParamMapIsLast(params, name);
    }
  }

  /** Exactly the params that values refer to and nobody supplies are reported, and exactly the surplus names. */
  lemma ReferenceIssuesAreDangling(origin: Origin, kind: Kind, refId: string, refParams: seq<Param>,
      execParams: seq<Param>, available: set<string>, n: string)
    ensures var issues := ReferenceIssues(origin, kind, refId, refParams, execParams, available);
            && (UnknownParam(origin, kind, refId, n) in issues <==>
                  n !in available && exists name :: RefersTo(refParams, name, n))
            && (UnsupportedParam(origin, kind, refId, n) in issues <==>
                  FindLast(refParams, n).Some? && FindLast(execParams, n).None?)
  {
    ReferredIff(refParams, n);
    ParamMapIsLast(refParams, n);
    ParamMapIsLast(execParams, n);
  }

  /** The text of a param in which placeholders are replaced: its value, but never its default. */
  function TextOf(p: Param): string
  {
    if p.body.value.Some? then p.body.value.value else ""
  }

  /** Some param of the reference mentions the name. */
  ghost predicate Mentioned(params: seq<Param>, n: string)
  {
    exists p :: p in params && n in GetParameters(TextOf(p))
  }

  /** With these params available, no unknown param is reported for a reference. */
  ghost predicate NothingUnknown(params: seq<Param>, available: set<string>)
  {
    ParamsReferred(ParamMap(params)) <= available
  }

  ghost predicate Supplied(params: seq<Param>, available: set<string>)
  {
    forall n :: Mentioned(params, n) ==> n in available
  }

  /** Every name that is mentioned is one that the value of some param, the last of its name, refers to. */
  ghost predicate MentionsAreChecked(params: seq<Param>)
  {
    forall n :: Mentioned(params, n) ==> exists name :: RefersTo(params, name, n)
  }

  /**
   For a whole reference: that nothing unknown is reported means that all mentioned params are available, whatever is
   available, exactly if every mentioned name is one that the value of some param, the last of its name, refers to.
   */
  lemma AcceptedReferenceCoversIff(params: seq<Param>)
    ensures (forall available: set<string> :: NothingUnknown(params, available) ==> Supplied(params, available))
       <==> MentionsAreChecked(params)
  {
    var referred := ParamsReferred(ParamMap(params));
    forall n
      ensures n in referred <==> exists name :: RefersTo(params, name, n)
    {
      ReferredIff(params, n);
    }
    assert NothingUnknown(params, referred);
  }

  /**
   What a reference mentions is checked if no param is followed by another one of its name and each text mentions
   nothing or one name between brackets.
   */
  lemma PlainParamsAreChecked(params: seq<Param>)
    requires forall p :: p in params ==> FindLast(params, p.key) == Some(p) && Transparent(TextOf(p))
    ensures MentionsAreChecked(params)
  {
    forall n | Mentioned(params, n)
      ensures exists name :: RefersTo(params, name, n)
    {
      var p :| p in params && n in GetParameters(TextOf(p));
      MentionIsReferred(params, p, n);
    }
  }

  lemma MentionIsReferred(params: seq<Param>, p: Param, n: string)
    requires FindLast(params, p.key) == Some(p) && Transparent(TextOf(p)) && n in GetParameters(TextOf(p))
    ensures RefersTo(params, p.key, n)
  {
    var s := TextOf(p);
    ParametersAreMentioned(s, 0, n);
    var i: nat :| OccursAt(s, Placeholder(n), i);
    OccursIff(s, n, i);
    assert !IsWhitespace(s[i]);
    var m, k :| Alone(s, m, k);
    AloneIsOnly(s, m, k, n, i);
    ReferredIffAlone(s, n, i);
  }

  /** A mentioned name that is not available is reported. */
  lemma UnavailableIsReported(origin: Origin, kind: Kind, refId: string, params: seq<Param>, execParams: seq<Param>,
      available: set<string>, n: string)
    requires MentionsAreChecked(params) && Mentioned(params, n) && n !in available
    ensures UnknownParam(origin, kind, refId, n) in ReferenceIssues(origin, kind, refId, params, execParams, available)
  {
    ReferenceIssuesAreDangling(origin, kind, refId, params, execParams, available, n);
  }

  // ---------- a whole application ----------

  /** The validator runs to its end and reports no unknown event, action, datasource or param. */
  ghost predicate ParamsAccepted(c: Config)
  {
    ReferencesAccepted(c) && forall i :: i in AllIssues(c) ==> !i.UnknownParam?
  }

  /** The params of a page by all three ways of passing them. */
  function AllPageParams(page: Page): seq<Param>
  {
    if page.urlSchema.None? then []
    else Elements(page.urlSchema.value.post) + Elements(page.urlSchema.value.get) + Elements(page.urlSchema.value.url)
  }

  lemma PageParamIsDeclared(page: Page, n: string)
    ensures n in PageParams(page) <==> exists p :: p in AllPageParams(page) && p.key == n
  {
    if page.urlSchema.Some? {
      var u := page.urlSchema.value;
      DeclaredIn(Elements(u.post), n);
      DeclaredIn(Elements(u.get), n);
      DeclaredIn(Elements(u.url), n);
    }
  }

  lemma {:induction false} DeclaredIn(params: seq<Param>, n: string)
    ensures n in ParamMap(params) <==> exists p :: p in params && p.key == n
  {
    if params != [] {
      var init, last := Unsnoc(params);
      DeclaredIn(init, n);
    }
  }

  /** The params passed by the reference an element is validated as. */
  function PassedParams(e: Element): seq<Param>
  {
    if e.action.Some? then Elements(e.action.value.params)
    else if e.datasource.Some? then Elements(e.datasource.value.params)
    else []
  }

  /**
   If nothing is reported, every page declares all params that its references mention, wherever what they mention is
   checked: on each page, for each element and each name.
   */
  lemma PassedParamsExist(c: Config, id: string, s: seq<Element>, e: Element, n: string)
    requires ParamsAccepted(c) && id in c.pages && s in c.pages[id].sections && e in s
    requires MentionsAreChecked(PassedParams(e)) && Mentioned(PassedParams(e), n)
    ensures exists d :: d in AllPageParams(c.pages[id]) && d.key == n
  {
    if n !in PageParams(c.pages[id]) {
      ElementReports(c, id, s, e, n);
    }
    PageParamIsDeclared(c.pages[id], n);
  }

  lemma ElementReports(c: Config, id: string, s: seq<Element>, e: Element, n: string)
    requires ReferencesAccepted(c) && id in c.pages && s in c.pages[id].sections && e in s
    requires MentionsAreChecked(PassedParams(e)) && Mentioned(PassedParams(e), n) && n !in PageParams(c.pages[id])
    ensures exists i :: i in AllIssues(c) && i.UnknownParam?
  {
    var origin, available := OnPage(id), PageParams(c.pages[id]).Keys;
    if e.action.Some? {
      var ref := e.action.value;
      IssueOfElement(c, id, s, e, UnknownEvent(origin, ref.eventId));
      IssueOfElement(c, id, s, e, UnknownAction(origin, ref.eventId, ref.id));
      var execParams := Elements(GetAction(c, ref.eventId, ref.id).action.params);
      UnavailableIsReported(origin, ActionKind, ref.id, Elements(ref.params), execParams, available, n);
      IssueOfElement(c, id, s, e, UnknownParam(origin, ActionKind, ref.id, n));
    } else {
      var ref := e.datasource.value;
      IssueOfElement(c, id, s, e, UnknownDatasource(origin, ref.id));
      var execParams := Elements(c.store.items[ref.id].params);
      UnavailableIsReported(origin, DatasourceKind, ref.id, Elements(ref.params), execParams, available, n);
      IssueOfElement(c, id, s, e, UnknownParam(origin, DatasourceKind, ref.id, n));
    }
  }

  /** The same for an action's reference to its datasource: what it mentions are params of the action. */
  lemma ActionParamsExist(c: Config, eventId: string, a: Action, n: string)
    requires ParamsAccepted(c) && eventId in c.events && a in c.events[eventId].actions && a.datasource.Some?
    requires var params := Elements(a.datasource.value.params); MentionsAreChecked(params) && Mentioned(params, n)
    ensures exists d :: d in Elements(a.params) && d.key == n
  {
    var ref, origin := a.datasource.value, OnAction(eventId, a.id);
    var available := ParamMap(Elements(a.params)).Keys;
    if n !in available {
      if ref.id !in c.store.items {
        IssueOfAction(c, eventId, a, UnknownDatasource(origin, ref.id));
      } else {
        var execParams := Elements(c.store.items[ref.id].params);
        UnavailableIsReported(origin, DatasourceKind, ref.id, Elements(ref.params), execParams, available, n);
        IssueOfAction(c, eventId, a, UnknownParam(origin, DatasourceKind, ref.id, n));
      }
    }
    DeclaredIn(Elements(a.params), n);
  }
}
