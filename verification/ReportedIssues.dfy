/**
 What the validator reports, told from the configuration: when it hits a null pointer, what stands behind every
 error, when there is none, and so when it throws.
 */
module ReportedIssues {
  import opened Options
  import opened Seqs
  import opened JavaStrings
  import opened NamedLists
  import opened Placeholders
  import opened Datasources
  import opened Inheritance
  import opened Config
  import opened Runtime
  import opened Validator
  import opened ValidatorSoundness
  import opened ParamReferences

  /** The element stands in a section of the page. */
  ghost predicate StandsOn(c: Config, id: string, e: Element)
  {
    id in c.pages && exists s :: s in c.pages[id].sections && e in s
  }

  // ---------- params ----------

  /**
   Of params with one name the last one counts: with its value if that has text, else with its default if that has text,
   else with a filler.
   */
  lemma ParamCounts(params: seq<Param>, i: nat)
    requires i < |params| && forall j :: i < j < |params| ==> params[j].key != params[i].key
    ensures params[i].key in ParamMap(params)
    ensures var p, v := params[i].body, ParamMap(params)[params[i].key];
            && (HasText(p.value) ==> v == p.value.value)
            && (!HasText(p.value) && HasText(p.default) ==> v == p.default.value)
            && (!HasText(p.value) && !HasText(p.default) ==> v == "value")
  {
    LastInMap(params, i);
    BlankHasNoText(params[i].body.value);
    BlankHasNoText(params[i].body.default);
  }

  lemma {:induction false} LastInMap(params: seq<Param>, i: nat)
    requires i < |params| && forall j :: i < j < |params| ==> params[j].key != params[i].key
    ensures params[i].key in ParamMap(params) && ParamMap(params)[params[i].key] == ParamValue(params[i])
  {
    if i < |params| - 1 {
      LastInMap(params[..|params| - 1], i);
    }
  }

  /** A page's URL param counts before a GET param of its name, and that before a POST param. */
  lemma PageParamsInOrder(page: Page, schema: UrlSchema, name: string)
    requires page.urlSchema == Some(schema)
    ensures var post, get, url := ParamMap(Elements(schema.post)), ParamMap(Elements(schema.get)),
                                  ParamMap(Elements(schema.url));
            && (name in url ==> name in PageParams(page) && PageParams(page)[name] == url[name])
            && (name !in url && name in get ==> name in PageParams(page) && PageParams(page)[name] == get[name])
            && (name !in url && name !in get && name in post ==>
                  name in PageParams(page) && PageParams(page)[name] == post[name])
  {
  }

  /** A value that is `${`, a text without brackets or line ends, and `}` refers to that text if there is something in it. */
  lemma BracketedIsReferred(text: string)
    requires forall k :: 0 <= k < |text| ==> text[k] !in {'$', '}', '\n', '\r', '\U{0085}', '\U{2028}', '\U{2029}'}
    ensures ParamReferred("${" + text + "}") == if HasText(Some(text)) then Some(text) else None
  {
    BracketsGone(text);
    IsBracketed(text);
    BlankHasNoText(Some(text));
  }

  lemma BracketsGone(text: string)
    requires forall k :: 0 <= k < |text| ==> text[k] != '$' && text[k] != '}'
    ensures Strip("${" + text + "}") == text
  {
    Assoc("${", text, "}");
    StripConcat("${", text + "}");
    StripConcat(text, "}");
    NothingToStrip(text);
    BracketsStripped();
    Empty(text);
  }

  lemma IsBracketed(text: string)
    requires forall k :: 0 <= k < |text| ==> text[k] !in {'\n', '\r', '\U{0085}', '\U{2028}', '\U{2029}'}
    ensures IsPlaceholder("${" + text + "}")
  {
    var s := "${" + text + "}";
    StartsWithIff(s, "${");
    OccursAtChar(s, "}", |s| - 1);
    forall k | 2 <= k < |s| - 1
      ensures !IsLineEnd(s[k])
    {
      assert s[k] == text[k - 2];
    }
  }

  lemma {:induction false} NothingToStrip(text: string)
    requires forall k :: 0 <= k < |text| ==> text[k] != '$' && text[k] != '}'
    ensures Strip(text) == text
  {
    NothingToRemove(text, "${");
    NothingToRemove(text, "}");
  }

  lemma {:induction false} NothingToRemove(text: string, target: string)
    requires target != "" && forall k :: 0 <= k < |text| ==> text[k] != target[0]
    ensures Remove(text, target) == text
  {
    if text != "" {
      NothingToRemove(text[1..], target);
      assert text[0] != target[0];
      assert text == [text[0]] + text[1..];
    }
  }

  lemma BracketsStripped()
    ensures Strip("${") == "" && Strip("}") == ""
  {
    assert "${"[2..] == "" && "}"[1..] == "";
    assert Remove("${", "${") == "";
    NothingToRemove("}", "${");
  }

  /** A value that does not start with `${` or does not end with `}` refers to nothing, and neither does one with a line end. */
  lemma OthersReferToNothing(s: string)
    requires |s| < 3 || s[..2] != "${" || s[|s| - 1] != '}'
             || exists k :: 2 <= k < |s| - 1 && s[k] in {'\n', '\r', '\U{0085}', '\U{2028}', '\U{2029}'}
    ensures ParamReferred(s) == None
  {
    if |s| >= 3 {
      StartsWithIff(s, "${");
      assert "${" <= s <==> s[..2] == "${";
      OccursAtChar(s, "}", |s| - 1);
    }
  }

  // ---------- what is reported ----------

  /** Some element of the page makes the validator report the issue. */
  ghost predicate Reports(c: Config, id: string, i: Issue)
    requires !Crashes(c)
  {
    NoElementCrashes(c);
    exists e :: StandsOn(c, id, e) && i in ElementIssues(c, id, c.pages[id], e)
  }

  lemma PageIssuesOnly(c: Config, i: Issue)
    requires !Crashes(c)
    ensures i in PagesIssues(c, c.pages.Keys) <==> exists id :: Reports(c, id, i)
  {
    NoElementCrashes(c);
    if i in PagesIssues(c, c.pages.Keys) {
      var id :| id in c.pages && i in PageIssues(c, id, c.pages[id], c.pages[id].sections);
      var s :| s in c.pages[id].sections && i in SectionIssues(c, id, c.pages[id], s);
      var e :| e in s && i in ElementIssues(c, id, c.pages[id], e);
      assert StandsOn(c, id, e);
      assert Reports(c, id, i);
    }
    if exists id :: Reports(c, id, i) {
      var id :| Reports(c, id, i);
      var e :| StandsOn(c, id, e) && i in ElementIssues(c, id, c.pages[id], e);
      var s :| s in c.pages[id].sections && e in s;
      assert i in SectionIssues(c, id, c.pages[id], s);
      assert i in PageIssues(c, id, c.pages[id], c.pages[id].sections);
    }
  }

  lemma NoElementCrashes(c: Config)
    requires !Crashes(c)
    ensures forall id, e :: StandsOn(c, id, e) ==> !ElementCrashes(c, e)
  {
    forall id, e | StandsOn(c, id, e)
      ensures !ElementCrashes(c, e)
    {
      var s :| s in c.pages[id].sections && e in s;
      IssueOfElement(c, id, s, e, NoRootConfig);
    }
  }

  lemma ActionIssuesOnly(c: Config, i: Issue)
    ensures i in EventsIssues(c, c.events.Keys) <==>
              exists ev, a :: ev in c.events && a in c.events[ev].actions && i in ActionIssues(c, ev, a)
  {
    if i in EventsIssues(c, c.events.Keys) {
      var ev :| ev in c.events && i in EventIssues(c, ev, c.events[ev].actions);
      var a :| a in c.events[ev].actions && i in ActionIssues(c, ev, a);
    }
    if exists ev, a :: ev in c.events && a in c.events[ev].actions && i in ActionIssues(c, ev, a) {
      var ev, a :| ev in c.events && a in c.events[ev].actions && i in ActionIssues(c, ev, a);
      assert i in EventIssues(c, ev, c.events[ev].actions);
    }
  }

  /** A missing root config is reported exactly if there are pages. */
  lemma NoRootConfigIff(c: Config)
    requires !Crashes(c)
    ensures NoRootConfig in AllIssues(c) <==> c.root.None? && c.pages != map[]
  {
    ActionIssuesOnly(c, NoRootConfig);
    PageIssuesOnly(c, NoRootConfig);
  }

  lemma ElementOrigins(c: Config, id: string, page: Page, e: Element, i: Issue)
    requires !ElementCrashes(c, e) && i in ElementIssues(c, id, page, e)
    ensures !i.NoRootConfig? && i.origin == OnPage(id)
  {
  }

  lemma ReportOrigins(c: Config, id: string, i: Issue)
    requires !Crashes(c) && Reports(c, id, i)
    ensures !i.NoRootConfig? && i.origin == OnPage(id)
  {
    NoElementCrashes(c);
    var e :| StandsOn(c, id, e) && i in ElementIssues(c, id, c.pages[id], e);
    ElementOrigins(c, id, c.pages[id], e, i);
  }

  lemma ActionOrigins(c: Config, ev: string, a: Action, i: Issue)
    requires i in ActionIssues(c, ev, a)
    ensures !i.NoRootConfig? && i.origin == OnAction(ev, a.id)
  {
  }

  lemma RootOrigins(c: Config, i: Issue)
    requires !Crashes(c) && !i.NoRootConfig?
    ensures i in AllIssues(c) <==> i in EventsIssues(c, c.events.Keys) || i in PagesIssues(c, c.pages.Keys)
  {
  }

  /** What is reported for a page comes from an element of the page. */
  lemma OfPage(c: Config, id: string, i: Issue)
    requires !Crashes(c) && !i.NoRootConfig? && i.origin == OnPage(id)
    ensures i in AllIssues(c) <==> Reports(c, id, i)
  {
    RootOrigins(c, i);
    ActionIssuesOnly(c, i);
    PageIssuesOnly(c, i);
    if i in EventsIssues(c, c.events.Keys) {
      var ev, a :| ev in c.events && a in c.events[ev].actions && i in ActionIssues(c, ev, a);
      ActionOrigins(c, ev, a, i);
    } else if i in PagesIssues(c, c.pages.Keys) {
      var page :| Reports(c, page, i);
      ReportOrigins(c, page, i);
    }
  }

  /** What is reported for an action comes from that action. */
  lemma OfAction(c: Config, ev: string, action: string, i: Issue)
    requires !Crashes(c) && !i.NoRootConfig? && i.origin == OnAction(ev, action)
    ensures i in AllIssues(c) <==>
              ev in c.events && exists a :: a in c.events[ev].actions && a.id == action && i in ActionIssues(c, ev, a)
  {
    RootOrigins(c, i);
    ActionIssuesOnly(c, i);
    PageIssuesOnly(c, i);
    if i in EventsIssues(c, c.events.Keys) {
      var ev', a :| ev' in c.events && a in c.events[ev'].actions && i in ActionIssues(c, ev', a);
      ActionOrigins(c, ev', a, i);
    } else if i in PagesIssues(c, c.pages.Keys) {
      var page :| Reports(c, page, i);
      ReportOrigins(c, page, i);
    }
  }

  /** What an element has reported about what it refers to. */
  lemma ElementReportsIff(c: Config, id: string, page: Page, e: Element, ev: string, action: string, ds: string)
    requires !ElementCrashes(c, e)
    ensures UnknownEvent(OnPage(id), ev) in ElementIssues(c, id, page, e) <==>
              ev !in c.events && e.action.Some? && e.action.value.eventId == ev
    ensures UnknownAction(OnPage(id), ev, action) in ElementIssues(c, id, page, e) <==>
              && ev in c.events && e.action.Some? && e.action.value.eventId == ev && e.action.value.id == action
              && action !in c.actions[ev]
    ensures UnknownDatasource(OnPage(id), ds) in ElementIssues(c, id, page, e) <==>
              e.action.None? && e.datasource.Some? && e.datasource.value.id == ds && ds !in c.store.items
  {
  }

  /** An unknown event is reported for a page exactly if an action on the page refers to it. */
  lemma UnknownEventIff(c: Config, id: string, ev: string)
    requires !Crashes(c)
    ensures UnknownEvent(OnPage(id), ev) in AllIssues(c) <==>
              ev !in c.events && exists e :: StandsOn(c, id, e) && e.action.Some? && e.action.value.eventId == ev
  {
    OfPage(c, id, UnknownEvent(OnPage(id), ev));
    NoElementCrashes(c);
    forall e | StandsOn(c, id, e)
      ensures UnknownEvent(OnPage(id), ev) in ElementIssues(c, id, c.pages[id], e) <==>
                ev !in c.events && e.action.Some? && e.action.value.eventId == ev
    {
      ElementReportsIff(c, id, c.pages[id], e, ev, "", "");
    }
  }

  /** An unknown action is reported for a page exactly if an element refers to it and its event has none of that id. */
  lemma UnknownActionIff(c: Config, id: string, ev: string, action: string)
    requires Consistent(c) && !Crashes(c)
    ensures UnknownAction(OnPage(id), ev, action) in AllIssues(c) <==>
              && ev in c.events && (forall a :: a in c.events[ev].actions ==> a.id != action)
              && exists e :: StandsOn(c, id, e) && e.action.Some? && e.action.value.eventId == ev && e.action.value.id == action
  {
    OfPage(c, id, UnknownAction(OnPage(id), ev, action));
    NoElementCrashes(c);
    if ev in c.events {
      OnlyActionsIndexed(c.events[ev].actions, action);
    }
    forall e | StandsOn(c, id, e)
      ensures UnknownAction(OnPage(id), ev, action) in ElementIssues(c, id, c.pages[id], e) <==>
                && ev in c.events && e.action.Some? && e.action.value.eventId == ev && e.action.value.id == action
                && action !in c.actions[ev]
    {
      ElementReportsIff(c, id, c.pages[id], e, ev, action, "");
    }
  }

  /** An unknown datasource is reported for a page exactly if an element without an action refers to it. */
  lemma UnknownDatasourceIff(c: Config, id: string, ds: string)
    requires !Crashes(c)
    ensures UnknownDatasource(OnPage(id), ds) in AllIssues(c) <==>
              && ds !in c.store.items
              && exists e :: StandsOn(c, id, e) && e.action.None? && e.datasource.Some? && e.datasource.value.id == ds
  {
    OfPage(c, id, UnknownDatasource(OnPage(id), ds));
    NoElementCrashes(c);
    forall e | StandsOn(c, id, e)
      ensures UnknownDatasource(OnPage(id), ds) in ElementIssues(c, id, c.pages[id], e) <==>
                e.action.None? && e.datasource.Some? && e.datasource.value.id == ds && ds !in c.store.items
    {
      ElementReportsIff(c, id, c.pages[id], e, "", "", ds);
    }
  }

  /** The same for the datasource of an action. */
  lemma UnknownActionDatasourceIff(c: Config, ev: string, action: string, ds: string)
    requires !Crashes(c)
    ensures UnknownDatasource(OnAction(ev, action), ds) in AllIssues(c) <==>
              && ds !in c.store.items && ev in c.events
              && exists a :: a in c.events[ev].actions && a.id == action && a.datasource.Some? && a.datasource.value.id == ds
  {
    OfAction(c, ev, action, UnknownDatasource(OnAction(ev, action), ds));
  }

  // ---------- acceptance ----------

  /** Every param passed is declared, and every name that a value refers to is supplied. */
  ghost predicate ParamsFit(passed: seq<Param>, declared: seq<Param>, supplied: seq<Param>)
  {
    && (forall p :: p in passed ==> exists d :: d in declared && d.key == p.key)
    && (forall name, n :: RefersTo(passed, name, n) ==> exists d :: d in supplied && d.key == n)
  }

  ghost predicate ElementFits(c: Config, page: Page, e: Element)
  {
    if e.action.Some? then
      var ref := e.action.value;
      && ref.eventId in c.events && ref.eventId in c.actions && ref.id in c.actions[ref.eventId]
      && match GetAction(c, ref.eventId, ref.id)
         case Found(a) => ParamsFit(Elements(ref.params), Elements(a.params), AllPageParams(page))
         case _ => false
    else if e.datasource.Some? then DatasourceFits(c, e.datasource.value, AllPageParams(page))
    else true
  }

  ghost predicate DatasourceFits(c: Config, ref: DatasourceRef, supplied: seq<Param>)
  {
    ref.id in c.store.items && ParamsFit(Elements(ref.params), Elements(c.store.items[ref.id].params), supplied)
  }

  ghost predicate ActionFits(c: Config, a: Action)
  {
    a.datasource.Some? ==> DatasourceFits(c, a.datasource.value, Elements(a.params))
  }

  /** There is nothing to report about the application. */
  ghost predicate Fits(c: Config)
  {
    && (c.root.Some? || c.pages == map[])
    && (forall ev, a :: ev in c.events && a in c.events[ev].actions ==> ActionFits(c, a))
    && (forall id, e :: StandsOn(c, id, e) ==> ElementFits(c, c.pages[id], e))
  }

  lemma NamesIn(params: seq<Param>)
    ensures forall n :: n in ParamMap(params) <==> exists p :: p in params && p.key == n
  {
    forall n
      ensures n in ParamMap(params) <==> exists p :: p in params && p.key == n
    {
      DeclaredIn(params, n);
    }
  }

  lemma ReferenceIsFine(origin: Origin, kind: Kind, refId: string, passed: seq<Param>, declared: seq<Param>,
      available: set<string>, supplied: seq<Param>)
    requires forall n :: n in available <==> exists d :: d in supplied && d.key == n
    ensures ReferenceIssues(origin, kind, refId, passed, declared, available) == {} <==> ParamsFit(passed, declared, supplied)
  {
    var issues := ReferenceIssues(origin, kind, refId, passed, declared, available);
    NamesIn(passed);
    NamesIn(declared);
    forall n
      ensures UnknownParam(origin, kind, refId, n) in issues <==>
                n !in available && exists name :: RefersTo(passed, name, n)
      ensures UnsupportedParam(origin, kind, refId, n) in issues <==> n in ParamMap(passed) && n !in ParamMap(declared)
    {
      ReferenceIssuesAreDangling(origin, kind, refId, passed, declared, available, n);
      ParamMapIsLast(passed, n);
      ParamMapIsLast(declared, n);
    }
    if issues == {} {
      ParamsFitWithoutIssues(origin, kind, refId, passed, declared, available, supplied);
    }
  }

  lemma ParamsFitWithoutIssues(origin: Origin, kind: Kind, refId: string, passed: seq<Param>, declared: seq<Param>,
      available: set<string>, supplied: seq<Param>)
    requires forall n :: n in available <==> exists d :: d in supplied && d.key == n
    requires ReferenceIssues(origin, kind, refId, passed, declared, available) == {}
    ensures ParamsFit(passed, declared, supplied)
  {
    NamesIn(passed);
    NamesIn(declared);
    forall p | p in passed
      ensures exists d :: d in declared && d.key == p.key
    {
      assert p.key in ParamMap(passed);
      ReferenceIssuesAreDangling(origin, kind, refId, passed, declared, available, p.key);
      ParamMapIsLast(passed, p.key);
      ParamMapIsLast(declared, p.key);
    }
    forall name, n | RefersTo(passed, name, n)
      ensures exists d :: d in supplied && d.key == n
    {
      ReferenceIssuesAreDangling(origin, kind, refId, passed, declared, available, n);
    }
  }

  lemma DatasourceIsFine(c: Config, origin: Origin, ref: DatasourceRef, available: set<string>, supplied: seq<Param>)
    requires forall n :: n in available <==> exists d :: d in supplied && d.key == n
    ensures DatasourceIssues(c, origin, ref, available) == {} <==> DatasourceFits(c, ref, supplied)
  {
    if ref.id in c.store.items {
      ReferenceIsFine(origin, DatasourceKind, ref.id, Elements(ref.params), Elements(c.store.items[ref.id].params),
                      available, supplied);
    }
  }

  lemma ActionIsFine(c: Config, ev: string, a: Action)
    ensures ActionIssues(c, ev, a) == {} <==> ActionFits(c, a)
  {
    NamesIn(Elements(a.params));
    if a.datasource.Some? {
      DatasourceIsFine(c, OnAction(ev, a.id), a.datasource.value, ParamMap(Elements(a.params)).Keys, Elements(a.params));
    }
  }

  lemma ElementIsFine(c: Config, id: string, page: Page, e: Element)
    requires Consistent(c) && !ElementCrashes(c, e)
    ensures ElementIssues(c, id, page, e) == {} <==> ElementFits(c, page, e)
  {
    forall n
      ensures n in PageParams(page).Keys <==> exists d :: d in AllPageParams(page) && d.key == n
    {
      PageParamIsDeclared(page, n);
    }
    if e.action.Some? {
      var ref := e.action.value;
      if ref.eventId in c.events && ref.id in c.actions[ref.eventId] {
        ReferenceIsFine(OnPage(id), ActionKind, ref.id, Elements(ref.params),
                        Elements(GetAction(c, ref.eventId, ref.id).action.params), PageParams(page).Keys,
                        AllPageParams(page));
      }
    } else if e.datasource.Some? {
      DatasourceIsFine(c, OnPage(id), e.datasource.value, PageParams(page).Keys, AllPageParams(page));
    }
  }

  /** Nothing is reported exactly if the application fits. */
  lemma NothingReportedIff(c: Config)
    requires Consistent(c) && !Crashes(c)
    ensures AllIssues(c) == {} <==> Fits(c)
  {
    NoRootConfigIff(c);
    NoElementCrashes(c);
    if AllIssues(c) == {} {
      forall ev, a | ev in c.events && a in c.events[ev].actions
        ensures ActionFits(c, a)
      {
        UnfitActionReported(c, ev, a);
      }
      forall id, e | StandsOn(c, id, e)
        ensures ElementFits(c, c.pages[id], e)
      {
        UnfitElementReported(c, id, e);
      }
    } else if Fits(c) {
      var i :| i in AllIssues(c);
      NotReported(c, i);
    }
  }

  lemma UnfitActionReported(c: Config, ev: string, a: Action)
    requires !Crashes(c) && ev in c.events && a in c.events[ev].actions
    ensures ActionFits(c, a) || AllIssues(c) != {}
  {
    ActionIsFine(c, ev, a);
    if i :| i in ActionIssues(c, ev, a) {
      IssueOfAction(c, ev, a, i);
    }
  }

  lemma UnfitElementReported(c: Config, id: string, e: Element)
    requires Consistent(c) && !Crashes(c) && StandsOn(c, id, e)
    ensures ElementFits(c, c.pages[id], e) || AllIssues(c) != {}
  {
    NoElementCrashes(c);
    ElementIsFine(c, id, c.pages[id], e);
    if i :| i in ElementIssues(c, id, c.pages[id], e) {
      PageIssuesOnly(c, i);
      assert Reports(c, id, i);
    }
  }

  lemma NotReported(c: Config, i: Issue)
    requires Consistent(c) && !Crashes(c) && Fits(c)
    ensures i !in AllIssues(c)
  {
    NoElementCrashes(c);
    ActionIssuesOnly(c, i);
    PageIssuesOnly(c, i);
    if i in EventsIssues(c, c.events.Keys) {
      var ev, a :| ev in c.events && a in c.events[ev].actions && i in ActionIssues(c, ev, a);
      ActionIsFine(c, ev, a);
    }
    if i in PagesIssues(c, c.pages.Keys) {
      var page :| Reports(c, page, i);
      var e :| StandsOn(c, page, e) && i in ElementIssues(c, page, c.pages[page], e);
      ElementIsFine(c, page, c.pages[page], e);
    }
  }

  /** The action is registered under the id as written, and `getAction` looks for another one in vain. */
  ghost predicate Misread(c: Config, ref: ActionRef)
  {
    && ref.eventId in c.actions && ref.id in c.actions[ref.eventId]
    && exists rest: string ::
         ref.id == ref.eventId + ":" + rest && (rest == "" || rest[1..] !in c.actions[ref.eventId])
  }

  lemma MisreadCrashes(c: Config, e: Element)
    requires Consistent(c)
    ensures ElementCrashes(c, e) <==> e.action.Some? && Misread(c, e.action.value)
  {
    if e.action.Some? {
      var ref := e.action.value;
      if ref.eventId in c.actions && ref.id in c.actions[ref.eventId] && !GetAction(c, ref.eventId, ref.id).Found? {
        var rest := ActionIdParts(c, ref.eventId, ref.id);
      }
      if Misread(c, ref) {
        var rest: string :| ref.id == ref.eventId + ":" + rest && (rest == "" || rest[1..] !in c.actions[ref.eventId]);
        ActionBehindColon(c, ref.eventId, rest);
      }
    }
  }

  /**
   A validator hits a null pointer exactly on elements whose action id starts with the event's id and a colon, is
   registered as written, and is not found without them and the character that follows.
   */
  lemma CrashesIff(c: Config)
    requires Consistent(c)
    ensures Crashes(c) <==> exists id, e :: StandsOn(c, id, e) && e.action.Some? && Misread(c, e.action.value)
  {
    forall e
      ensures ElementCrashes(c, e) <==> e.action.Some? && Misread(c, e.action.value)
    {
      MisreadCrashes(c, e);
    }
    if Crashes(c) {
      var id :| id in c.pages && PageCrashes(c, c.pages[id].sections);
      var s :| s in c.pages[id].sections && SectionCrashes(c, s);
      var e :| e in s && ElementCrashes(c, e);
      assert StandsOn(c, id, e);
    }
    if id, e :| StandsOn(c, id, e) && e.action.Some? && Misread(c, e.action.value) {
      var s :| s in c.pages[id].sections && e in s;
      assert ElementCrashes(c, e) && SectionCrashes(c, s) && PageCrashes(c, c.pages[id].sections);
    }
  }

  lemma ActionIdParts(c: Config, ev: string, action: string) returns (rest: string)
    requires ev in c.actions && action in c.actions[ev] && !GetAction(c, ev, action).Found?
    ensures action == ev + ":" + rest && (rest == "" || rest[1..] !in c.actions[ev])
  {
    var start := ev + ":";
    StartsWithIff(action, start);
    rest := action[|start|..];
    assert action == start + rest;
    ActionBehindColon(c, ev, rest);
  }

  /** A validator without earlier errors throws exactly if it is to and the application does not fit. */
  method ValidateNew(c: Config, throwException: bool, clearErrors: bool) returns (crashed: bool, thrown: bool)
    requires Consistent(c)
    ensures crashed <==> Crashes(c)
    ensures !crashed ==> (thrown <==> throwException && !Fits(c))
  {
    var validator := new ConfigValidator(throwException, clearErrors);
    crashed, thrown := validator.ValidateApplication(c);
    if !crashed {
      NothingReportedIff(c);
    }
  }
}
