/**
 `ConfigValidator`: the checks of references to events, actions and datasources and of the params passed
 with them, and what they mean for the processing of a page.
 */
module Validator {
  import opened Options
  import opened Seqs
  import opened JavaStrings
  import opened NamedLists
  import opened Placeholders
  import opened Datasources
  import opened Inheritance
  import opened Config
  import opened Runtime

  /** Where a reference was found. */
  datatype Origin = OnPage(pageId: string) | OnAction(eventId: string, actionId: string)

  datatype Kind = ActionKind | DatasourceKind

  /** The errors the validator reports, without their wording. */
  datatype Issue =
    | NoRootConfig
    | UnknownEvent(origin: Origin, eventId: string)
    | UnknownAction(origin: Origin, eventId: string, actionId: string)
    | UnknownDatasource(origin: Origin, id: string)
    | UnknownParam(origin: Origin, kind: Kind, refId: string, param: string)
    | UnsupportedParam(origin: Origin, kind: Kind, refId: string, param: string)

  /** An issue about what a reference refers to. */
  predicate IsReferenceIssue(i: Issue)
  {
    i.UnknownEvent? || i.UnknownAction? || i.UnknownDatasource?
  }

  // ---------- params ----------

  /** The value of a param, its default if that is blank, or else "value". */
  function ParamValue(p: Param): string
  {
    if !IsBlank(p.body.value) then p.body.value.value
    else if !IsBlank(p.body.default) then p.body.default.value
    else "value"
  }

  /** `getParameterMap` */
  function ParamMap(params: seq<Param>): map<string, string>
  {
    if params == [] then map[]
    else ParamMap(params[..|params| - 1])[params[|params| - 1].key := ParamValue(params[|params| - 1])]
  }

  /** `getAllPageParams` */
  function PageParams(page: Page): map<string, string>
  {
    if page.urlSchema.None? then map[]
    else
      var u := page.urlSchema.value;
      ParamMap(Elements(u.post)) + ParamMap(Elements(u.get)) + ParamMap(Elements(u.url))
  }

  function ParamsReferred(values: map<string, string>): set<string>
  {
    set n | n in values && ParamReferred(values[n]).Some? :: ParamReferred(values[n]).value
  }

  function UnknownParams(origin: Origin, kind: Kind, refId: string, names: set<string>): set<Issue>
  {
    set p | p in names :: UnknownParam(origin, kind, refId, p)
  }

  function UnsupportedParams(origin: Origin, kind: Kind, refId: string, names: set<string>): set<Issue>
  {
    set p | p in names :: UnsupportedParam(origin, kind, refId, p)
  }

  /** `checkReferenceParameters` */
  function ReferenceIssues(origin: Origin, kind: Kind, refId: string, refParams: seq<Param>, execParams: seq<Param>,
      available: set<string>): set<Issue>
  {
    UnknownParams(origin, kind, refId, ParamsReferred(ParamMap(refParams)) - available)
    + UnsupportedParams(origin, kind, refId, ParamMap(refParams).Keys - ParamMap(execParams).Keys)
  }

  // ---------- what is reported ----------

  function DatasourceIssues(c: Config, origin: Origin, ref: DatasourceRef, available: set<string>): set<Issue>
  {
    if ref.id !in c.store.items then {UnknownDatasource(origin, ref.id)}
    else
      ReferenceIssues(origin, DatasourceKind, ref.id, Elements(ref.params), Elements(c.store.items[ref.id].params),
                      available)
  }

  /** `validateAction` */
  function ActionIssues(c: Config, eventId: string, action: Action): set<Issue>
  {
    if action.datasource.None? then {}
    else
      DatasourceIssues(c, OnAction(eventId, action.id), action.datasource.value,
                       ParamMap(Elements(action.params)).Keys)
  }

  /** A section element's action is found by its id, but not by `getAction`: a null pointer is hit. */
  predicate ElementCrashes(c: Config, e: Element)
  {
    && e.action.Some?
    && var ref := e.action.value;
    && ref.eventId in c.events
    && (ref.eventId in c.actions ==> ref.id in c.actions[ref.eventId] && !GetAction(c, ref.eventId, ref.id).Found?)
  }

  /** The innermost loop body of `validateApplication`. */
  function ElementIssues(c: Config, pageId: string, page: Page, e: Element): set<Issue>
    requires !ElementCrashes(c, e)
  {
    var origin, available := OnPage(pageId), PageParams(page).Keys;
    if e.action.Some? then
      var ref := e.action.value;
      if ref.eventId !in c.events then {UnknownEvent(origin, ref.eventId)}
      else if ref.id !in c.actions[ref.eventId] then {UnknownAction(origin, ref.eventId, ref.id)}
      else
        ReferenceIssues(origin, ActionKind, ref.id, Elements(ref.params),
                        Elements(GetAction(c, ref.eventId, ref.id).action.params), available)
    else if e.datasource.Some? then DatasourceIssues(c, origin, e.datasource.value, available)
    else {}
  }

  function RootIssues(c: Config): set<Issue>
  {
    if c.root.None? && c.pages != map[] then {NoRootConfig} else {}
  }

  function EventIssues(c: Config, eventId: string, actions: seq<Action>): set<Issue>
  {
    set a, i | a in actions && i in ActionIssues(c, eventId, a) :: i
  }

  function EventsIssues(c: Config, ids: set<string>): set<Issue>
    requires ids <= c.events.Keys
  {
    set id, i | id in ids && i in EventIssues(c, id, c.events[id].actions) :: i
  }

  predicate SectionCrashes(c: Config, elements: seq<Element>)
  {
    exists e :: e in elements && ElementCrashes(c, e)
  }

  predicate PageCrashes(c: Config, sections: seq<seq<Element>>)
  {
    exists s :: s in sections && SectionCrashes(c, s)
  }

  function SectionIssues(c: Config, pageId: string, page: Page, elements: seq<Element>): set<Issue>
    requires !SectionCrashes(c, elements)
  {
    set e, i | e in elements && i in ElementIssues(c, pageId, page, e) :: i
  }

  function PageIssues(c: Config, pageId: string, page: Page, sections: seq<seq<Element>>): set<Issue>
    requires !PageCrashes(c, sections)
  {
    set s, i | s in sections && i in SectionIssues(c, pageId, page, s) :: i
  }

  function PagesIssues(c: Config, ids: set<string>): set<Issue>
    requires ids <= c.pages.Keys && forall id :: id in ids ==> !PageCrashes(c, c.pages[id].sections)
  {
    set id, i | id in ids && i in PageIssues(c, id, c.pages[id], c.pages[id].sections) :: i
  }

  /** The validator hits a null pointer on some page. */
  predicate Crashes(c: Config)
  {
    exists id :: id in c.pages && PageCrashes(c, c.pages[id].sections)
  }

  /** Everything the validator reports about an application. */
  function AllIssues(c: Config): set<Issue>
    requires !Crashes(c)
  {
    RootIssues(c) + EventsIssues(c, c.events.Keys) + PagesIssues(c, c.pages.Keys)
  }

  // ---------- taking the sets apart ----------

  lemma Joined(errors: set<Issue>, a: set<Issue>, b: set<Issue>)
    ensures (errors + a) + b == errors + (a + b)
  {
  }

  lemma NextAction(c: Config, id: string, actions: seq<Action>, i: nat)
    requires i < |actions|
    ensures EventIssues(c, id, actions[..i + 1]) == EventIssues(c, id, actions[..i]) + ActionIssues(c, id, actions[i])
  {
    TakeOne(actions, i);
  }

  lemma NextEvent(c: Config, done: set<string>, id: string)
    requires done <= c.events.Keys && id in c.events
    ensures EventsIssues(c, done + {id}) == EventsIssues(c, done) + EventIssues(c, id, c.events[id].actions)
  {
  }

  lemma NextElement(c: Config, pageId: string, page: Page, elements: seq<Element>, i: nat)
    requires i < |elements| && !SectionCrashes(c, elements[..i])
    ensures SectionCrashes(c, elements[..i + 1]) <==> ElementCrashes(c, elements[i])
    ensures !ElementCrashes(c, elements[i]) ==>
              SectionIssues(c, pageId, page, elements[..i + 1])
              == SectionIssues(c, pageId, page, elements[..i]) + ElementIssues(c, pageId, page, elements[i])
  {
    TakeOne(elements, i);
    assert elements[i] in elements[..i + 1];
  }

  lemma NextSection(c: Config, pageId: string, page: Page, sections: seq<seq<Element>>, i: nat)
    requires i < |sections| && !PageCrashes(c, sections[..i])
    ensures PageCrashes(c, sections[..i + 1]) <==> SectionCrashes(c, sections[i])
    ensures !SectionCrashes(c, sections[i]) ==>
              PageIssues(c, pageId, page, sections[..i + 1])
              == PageIssues(c, pageId, page, sections[..i]) + SectionIssues(c, pageId, page, sections[i])
  {
    TakeOne(sections, i);
    assert sections[i] in sections[..i + 1];
  }

  lemma NextPage(c: Config, done: set<string>, id: string)
    requires done <= c.pages.Keys && id in c.pages && !PageCrashes(c, c.pages[id].sections)
    requires forall other :: other in done ==> !PageCrashes(c, c.pages[other].sections)
    ensures PagesIssues(c, done + {id})
         == PagesIssues(c, done) + PageIssues(c, id, c.pages[id], c.pages[id].sections)
  {
  }

  // ---------- the validator ----------

  lemma NextParam(params: seq<Param>, i: nat)
    requires i < |params|
    ensures ParamMap(params[..i + 1]) == ParamMap(params[..i])[params[i].key := ParamValue(params[i])]
  {
    Snoc(params[..i], params[i]);
    TakeOne(params, i);
  }

  /** `getParameterMap` */
  method GetParameterMap(params: seq<Param>) returns (m: map<string, string>)
    ensures m == ParamMap(params)
  {
    m := map[];
    for i := 0 to |params|
      invariant m == ParamMap(params[..i])
    {
      NextParam(params, i);
      m := m[params[i].key := ParamValue(params[i])];
    }
    TakeAll(params);
  }

  /** The loop of `checkReferenceParameters` over the values of the reference's params. */
  method CollectReferred(values: map<string, string>) returns (names: set<string>)
    ensures names == ParamsReferred(values)
  {
    names := {};
    var todo := values.Keys;
    while todo != {}
      invariant todo <= values.Keys && names == ParamsReferred(values - todo)
    {
      var n :| n in todo;
      ghost var before, after := values - todo, values - (todo - {n});
      assert forall k :: k in after <==> k in before || k == n;
      if ParamReferred(values[n]).Some? {
        names := names + {ParamReferred(values[n]).value};
      }
      todo := todo - {n};
    }
    assert values - {} == values;
  }

  class ConfigValidator {
    var errors: set<Issue>
    const throwException: bool
    const clearErrors: bool

    constructor (throwException: bool, clearErrors: bool)
      ensures errors == {} && this.throwException == throwException && this.clearErrors == clearErrors
    {
      this.errors, this.throwException, this.clearErrors := {}, throwException, clearErrors;
    }

    /** `checkReferenceParameters` */
    method CheckReferenceParameters(origin: Origin, kind: Kind, refId: string, refParams: seq<Param>,
        execParams: seq<Param>, available: set<string>)
      modifies this
      ensures errors == old(errors) + ReferenceIssues(origin, kind, refId, refParams, execParams, available)
    {
      var fromRef := GetParameterMap(refParams);
      var fromExec := GetParameterMap(execParams);
      var referred := CollectReferred(fromRef);
      var missing := referred - available;
      Joined(errors, UnknownParams(origin, kind, refId, missing),
             UnsupportedParams(origin, kind, refId, fromRef.Keys - fromExec.Keys));
      errors := errors + UnknownParams(origin, kind, refId, missing);
      errors := errors + UnsupportedParams(origin, kind, refId, fromRef.Keys - fromExec.Keys);
    }

    /** A reference to a datasource, from a page or from an action. */
    method CheckDatasource(c: Config, origin: Origin, ref: DatasourceRef, available: set<string>)
      modifies this
      ensures errors == old(errors) + DatasourceIssues(c, origin, ref, available)
    {
      if ref.id !in c.store.items {
        errors := errors + {UnknownDatasource(origin, ref.id)};
      } else {
        CheckReferenceParameters(origin, DatasourceKind, ref.id, Elements(ref.params),
                                 Elements(c.store.items[ref.id].params), available);
      }
    }

    /** `validateAction` */
    method ValidateAction(c: Config, eventId: string, action: Action)
      modifies this
      ensures errors == old(errors) + ActionIssues(c, eventId, action)
    {
      if action.datasource.Some? {
        var available := GetParameterMap(Elements(action.params));
        CheckDatasource(c, OnAction(eventId, action.id), action.datasource.value, available.Keys);
      }
    }

    /** The actions of one event. */
    method ValidateEvent(c: Config, id: string)
      requires id in c.events
      modifies this
      ensures errors == old(errors) + EventIssues(c, id, c.events[id].actions)
    {
      var actions := c.events[id].actions;
      TakeAll(actions);
      for i := 0 to |actions|
        invariant errors == old(errors) + EventIssues(c, id, actions[..i])
      {
        NextAction(c, id, actions, i);
        Joined(old(errors), EventIssues(c, id, actions[..i]), ActionIssues(c, id, actions[i]));
        ValidateAction(c, id, actions[i]);
      }
    }

    /** `validateActions` */
    method ValidateActions(c: Config)
      modifies this
      ensures errors == old(errors) + EventsIssues(c, c.events.Keys)
    {
      var todo := c.events.Keys;
      while todo != {}
        invariant todo <= c.events.Keys && errors == old(errors) + EventsIssues(c, c.events.Keys - todo)
      {
        var id :| id in todo;
        ValidateEvent(c, id);
        NextEvent(c, c.events.Keys - todo, id);
        assert c.events.Keys - (todo - {id}) == (c.events.Keys - todo) + {id};
        todo := todo - {id};
      }
      assert c.events.Keys - {} == c.events.Keys;
    }

    /** The checks of a section element; `crashed` where a null pointer is hit. */
    method ValidateElement(c: Config, pageId: string, page: Page, e: Element) returns (crashed: bool)
      modifies this
      ensures crashed == ElementCrashes(c, e)
      ensures !crashed ==> errors == old(errors) + ElementIssues(c, pageId, page, e)
    {
      var origin := OnPage(pageId);
      if e.action.Some? {
        var ref := e.action.value;
        if ref.eventId !in c.events {
          errors := errors + {UnknownEvent(origin, ref.eventId)};
        } else if ref.eventId !in c.actions {
          return true;
        } else if ref.id !in c.actions[ref.eventId] {
          errors := errors + {UnknownAction(origin, ref.eventId, ref.id)};
        } else {
          var lookup := GetAction(c, ref.eventId, ref.id);
          if !lookup.Found? {
            return true;
          }
          CheckReferenceParameters(origin, ActionKind, ref.id, Elements(ref.params), Elements(lookup.action.params),
                                   PageParams(page).Keys);
        }
      } else if e.datasource.Some? {
        CheckDatasource(c, origin, e.datasource.value, PageParams(page).Keys);
      }
      return false;
    }

    method ValidateSection(c: Config, pageId: string, page: Page, elements: seq<Element>) returns (crashed: bool)
      modifies this
      ensures crashed == SectionCrashes(c, elements)
      ensures !crashed ==> errors == old(errors) + SectionIssues(c, pageId, page, elements)
    {
      TakeAll(elements);
      for j := 0 to |elements|
        invariant !SectionCrashes(c, elements[..j])
        invariant errors == old(errors) + SectionIssues(c, pageId, page, elements[..j])
      {
        NextElement(c, pageId, page, elements, j);
        crashed := ValidateElement(c, pageId, page, elements[j]);
        if crashed {
          assert elements[j] in elements;
          return;
        }
      }
      return false;
    }

    method ValidatePage(c: Config, pageId: string, page: Page) returns (crashed: bool)
      modifies this
      ensures crashed == PageCrashes(c, page.sections)
      ensures !crashed ==> errors == old(errors) + PageIssues(c, pageId, page, page.sections)
    {
      TakeAll(page.sections);
      for i := 0 to |page.sections|
        invariant !PageCrashes(c, page.sections[..i])
        invariant errors == old(errors) + PageIssues(c, pageId, page, page.sections[..i])
      {
        NextSection(c, pageId, page, page.sections, i);
        crashed := ValidateSection(c, pageId, page, page.sections[i]);
        if crashed {
          assert page.sections[i] in page.sections;
          return;
        }
      }
      return false;
    }

    method ValidatePages(c: Config) returns (crashed: bool)
      modifies this
      ensures crashed == Crashes(c)
      ensures !crashed ==> errors == old(errors) + PagesIssues(c, c.pages.Keys)
    {
      var todo := c.pages.Keys;
      while todo != {}
        invariant todo <= c.pages.Keys
        invariant forall id :: id in c.pages.Keys - todo ==> !PageCrashes(c, c.pages[id].sections)
        invariant errors == old(errors) + PagesIssues(c, c.pages.Keys - todo)
      {
        var id :| id in todo;
        crashed := ValidatePage(c, id, c.pages[id]);
        if crashed {
          return;
        }
        NextPage(c, c.pages.Keys - todo, id);
        assert c.pages.Keys - (todo - {id}) == (c.pages.Keys - todo) + {id};
        todo := todo - {id};
      }
      assert c.pages.Keys - {} == c.pages.Keys;
      return false;
    }

    /** `processErrors`; `thrown` where it throws. */
    method ProcessErrors() returns (thrown: bool)
      modifies this
      ensures thrown <==> throwException && old(errors) != {}
      ensures errors == if clearErrors then {} else old(errors)
    {
      thrown := errors != {} && throwException;
      if errors != {} && clearErrors {
        errors := {};
      }
    }

    /**
     `validateApplication`. It throws if errors are to be thrown and there are any; unless errors are cleared
     they can be asked for afterwards.
     */
    method ValidateApplication(c: Config) returns (crashed: bool, thrown: bool)
      modifies this
      ensures crashed == Crashes(c)
      ensures !crashed ==>
                && (thrown <==> throwException && old(errors) + AllIssues(c) != {})
                && errors == if clearErrors then {} else old(errors) + AllIssues(c)
    {
      thrown := false;
      errors := errors + RootIssues(c);
      ValidateActions(c);
      crashed := ValidatePages(c);
      if !crashed {
        thrown := ProcessErrors();
      }
    }
  }
}
