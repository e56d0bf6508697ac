/**
 What the validator's verdict is worth: an application it accepts never fails on an unknown event, action
 or datasource when its pages and actions are processed, and exactly when that can go wrong.
 */
module ValidatorSoundness {
  import opened Options
  import opened JavaStrings
  import opened Datasources
  import opened Inheritance
  import opened Config
  import opened Runtime
  import opened Validator

  // ---------- references ----------

  /** The validator runs to its end and reports no unknown event, action or datasource. */
  ghost predicate ReferencesAccepted(c: Config)
  {
    !Crashes(c) && forall i :: i in AllIssues(c) ==> !IsReferenceIssue(i)
  }

  ghost predicate OnSomePage(c: Config, e: Element)
  {
    exists id, s :: id in c.pages && s in c.pages[id].sections && e in s
  }

  /** Elements on pages and the actions of events, called by their ids, find what they refer to whatever is permitted. */
  ghost predicate RunsCleanly(c: Config)
  {
    && (forall e, access :: OnSomePage(c, e) ==> RunElement(c, e, access) == None)
    && (forall ev, id, access :: ev in c.actions && id in c.actions[ev] ==>
                                   RunAction(c, ActionRef(ev, id, None), access) == None)
  }

  predicate CarriesBoth(e: Element)
  {
    e.action.Some? && e.datasource.Some?
  }

  /** All action ids in references and in events are looked up as they are. */
  ghost predicate PlainIds(c: Config)
  {
    && (forall e :: OnSomePage(c, e) && e.action.Some? ==> PlainId(e.action.value.eventId, e.action.value.id))
    && (forall ev, id :: ev in c.actions && id in c.actions[ev] ==> PlainId(ev, id))
  }

  /** No event has two actions with the same id, of which only the last could be called. */
  ghost predicate NoShadowedActions(c: Config)
  {
    forall ev, a :: ev in c.events && a in c.events[ev].actions ==>
                      ev in c.actions && a.id in c.actions[ev] && c.actions[ev][a.id] == a
  }

  lemma IssueOfElement(c: Config, id: string, s: seq<Element>, e: Element, i: Issue)
    requires !Crashes(c) && id in c.pages && s in c.pages[id].sections && e in s
    ensures !ElementCrashes(c, e)
    ensures i in ElementIssues(c, id, c.pages[id], e) ==> i in AllIssues(c)
  {
    assert !PageCrashes(c, c.pages[id].sections);
    assert !SectionCrashes(c, s);
    if i in ElementIssues(c, id, c.pages[id], e) {
      assert i in SectionIssues(c, id, c.pages[id], s);
      assert i in PageIssues(c, id, c.pages[id], c.pages[id].sections);
      assert i in PagesIssues(c, c.pages.Keys);
    }
  }

  lemma IssueOfAction(c: Config, ev: string, a: Action, i: Issue)
    requires !Crashes(c) && ev in c.events && a in c.events[ev].actions && i in ActionIssues(c, ev, a)
    ensures i in AllIssues(c)
  {
    assert i in EventIssues(c, ev, c.events[ev].actions);
    assert i in EventsIssues(c, c.events.Keys);
  }

  /** An indexed action was checked: its datasource exists. */
  lemma ActionChecked(c: Config, ev: string, id: string)
    requires Consistent(c) && ReferencesAccepted(c) && ev in c.actions && id in c.actions[ev]
    ensures c.actions[ev][id].datasource.Some? ==> c.actions[ev][id].datasource.value.id in c.store.items
  {
    var a := c.actions[ev][id];
    OnlyActionsIndexed(c.events[ev].actions, id);
    if a.datasource.Some? && a.datasource.value.id !in c.store.items {
      IssueOfAction(c, ev, a, UnknownDatasource(OnAction(ev, a.id), a.datasource.value.id));
    }
  }

  /**
   Processing an element of a validated application fails on no lookup, whatever is permitted and whatever
   the conditions yield. Elements with an action and a datasource are validated as the one and processed as
   the other, so they are not covered.
   */
  lemma ValidatedElementRuns(c: Config, e: Element, access: Access)
    requires Consistent(c) && ReferencesAccepted(c) && OnSomePage(c, e) && !CarriesBoth(e)
    ensures RunElement(c, e, access) == None
  {
    var id, s :| id in c.pages && s in c.pages[id].sections && e in s;
    var page := c.pages[id];
    if e.action.Some? {
      var ref := e.action.value;
      IssueOfElement(c, id, s, e, UnknownEvent(OnPage(id), ref.eventId));
      IssueOfElement(c, id, s, e, UnknownAction(OnPage(id), ref.eventId, ref.id));
      assert GetAction(c, ref.eventId, ref.id).Found?;
      ActionChecked(c, ref.eventId, RealActionId(ref.eventId, ref.id).value);
    } else if e.datasource.Some? {
      IssueOfElement(c, id, s, e, UnknownDatasource(OnPage(id), e.datasource.value.id));
    }
  }

  lemma ValidatedActionRuns(c: Config, ev: string, id: string, access: Access)
    requires Consistent(c) && ReferencesAccepted(c) && ev in c.actions && id in c.actions[ev] && PlainId(ev, id)
    ensures RunAction(c, ActionRef(ev, id, None), access) == None
  {
    ActionChecked(c, ev, id);
  }

  /** An issue about a reference of an element is one the processing runs into if all is permitted. */
  lemma ElementIssueIsReal(c: Config, id: string, e: Element, i: Issue)
    requires !ElementCrashes(c, e) && id in c.pages && !CarriesBoth(e)
    requires e.action.Some? ==> PlainId(e.action.value.eventId, e.action.value.id)
    requires i in ElementIssues(c, id, c.pages[id], e) && IsReferenceIssue(i)
    ensures RunElement(c, e, GRANTED).Some?
  {
  }

  lemma ActionIssueIsReal(c: Config, ev: string, a: Action, i: Issue)
    requires Consistent(c) && ev in c.events && a in c.events[ev].actions && i in ActionIssues(c, ev, a)
    requires IsReferenceIssue(i) && NoShadowedActions(c) && PlainIds(c)
    ensures RunAction(c, ActionRef(ev, a.id, None), GRANTED).Some?
  {
    assert a.id in c.actions[ev] && PlainId(ev, a.id);
  }

  lemma PlainIdsDoNotCrash(c: Config)
    requires Consistent(c) && PlainIds(c)
    ensures !Crashes(c)
  {
    forall id, s, e | id in c.pages && s in c.pages[id].sections && e in s
      ensures !ElementCrashes(c, e)
    {
      assert OnSomePage(c, e);
    }
  }

  /**
   Validation decides whether an application can fail on a lookup: if no element carries both an action and a
   datasource, no action id starts with its event's id and a colon, and no action is shadowed, then the
   references are accepted if and only if nothing that can be processed ever fails on one.
   */
  lemma AcceptedIffRunsCleanly(c: Config)
    requires Consistent(c) && PlainIds(c) && NoShadowedActions(c)
    requires forall e :: OnSomePage(c, e) ==> !CarriesBoth(e)
    ensures ReferencesAccepted(c) <==> RunsCleanly(c)
  {
    PlainIdsDoNotCrash(c);
    if ReferencesAccepted(c) {
      forall e, access | OnSomePage(c, e)
        ensures RunElement(c, e, access) == None
      {
        ValidatedElementRuns(c, e, access);
      }
      forall ev, id, access | ev in c.actions && id in c.actions[ev]
        ensures RunAction(c, ActionRef(ev, id, None), access) == None
      {
        ValidatedActionRuns(c, ev, id, access);
      }
    } else {
      var i :| i in AllIssues(c) && IsReferenceIssue(i);
      IssueIsReal(c, i);
    }
  }

  lemma IssueIsReal(c: Config, i: Issue)
    requires Consistent(c) && PlainIds(c) && NoShadowedActions(c) && !Crashes(c)
    requires forall e :: OnSomePage(c, e) ==> !CarriesBoth(e)
    requires i in AllIssues(c) && IsReferenceIssue(i)
    ensures !RunsCleanly(c)
  {
    if i in EventsIssues(c, c.events.Keys) {
      var ev :| ev in c.events && i in EventIssues(c, ev, c.events[ev].actions);
      var a :| a in c.events[ev].actions && i in ActionIssues(c, ev, a);
      ActionIssueIsReal(c, ev, a, i);
    } else {
      var id :| id in c.pages && i in PageIssues(c, id, c.pages[id], c.pages[id].sections);
      var s :| s in c.pages[id].sections && i in SectionIssues(c, id, c.pages[id], s);
      var e :| e in s && i in ElementIssues(c, id, c.pages[id], e);
      assert OnSomePage(c, e);
      IssueOfElement(c, id, s, e, i);
      ElementIssueIsReal(c, id, e, i);
    }
  }

  /**
   The validator looks for an action under the id as written, the processing under the one `getAction` makes of
   it. It accepts only what both find, so what it accepts is found; what is found is accepted unless the id
   starts with the event's id and a colon and no action is registered under it as written.
   */
  lemma AcceptedIffFound(c: Config, pageId: string, page: Page, e: Element)
    requires Consistent(c) && e.action.Some? && e.action.value.eventId in c.events
    ensures var ref := e.action.value;
            var accepted := !ElementCrashes(c, e)
                            && UnknownAction(OnPage(pageId), ref.eventId, ref.id) !in ElementIssues(c, pageId, page, e);
            && (accepted ==> GetAction(c, ref.eventId, ref.id).Found?)
            && (GetAction(c, ref.eventId, ref.id).Found? ==>
                  (accepted <==> PlainId(ref.eventId, ref.id) || ref.id in c.actions[ref.eventId]))
  {
  }

  /** With both, the validator looks at the action and the processing at the datasource. */
  lemma BothMeansDatasource(c: Config, id: string, page: Page, e: Element)
    requires CarriesBoth(e) && !ElementCrashes(c, e)
    ensures (forall access :: RunElement(c, e, access) == None) <==> e.datasource.value.id in c.store.items
    ensures ElementIssues(c, id, page, e) == ElementIssues(c, id, page, e.(datasource := None))
  {
    assert RunElement(c, e, GRANTED) == None <==> e.datasource.value.id in c.store.items;
  }

  /**
   What acceptance leaves open, in one condition: an accepted application whose indexed actions have plain ids runs
   cleanly if and only if the datasource of every element that carries an action as well is registered.
   */
  lemma AcceptedRunsCleanlyIff(c: Config)
    requires Consistent(c) && ReferencesAccepted(c)
    requires forall ev, id :: ev in c.actions && id in c.actions[ev] ==> PlainId(ev, id)
    ensures RunsCleanly(c) <==>
              forall e :: OnSomePage(c, e) && CarriesBoth(e) ==> e.datasource.value.id in c.store.items
  {
    forall e | OnSomePage(c, e)
      ensures (forall access :: RunElement(c, e, access) == None)
         <==> (CarriesBoth(e) ==> e.datasource.value.id in c.store.items)
    {
      ElementRunsIff(c, e);
    }
    forall ev, id, access | ev in c.actions && id in c.actions[ev]
      ensures RunAction(c, ActionRef(ev, id, None), access) == None
    {
      ValidatedActionRuns(c, ev, id, access);
    }
  }

  lemma ElementRunsIff(c: Config, e: Element)
    requires Consistent(c) && ReferencesAccepted(c) && OnSomePage(c, e)
    ensures (forall access :: RunElement(c, e, access) == None)
       <==> (CarriesBoth(e) ==> e.datasource.value.id in c.store.items)
  {
    if CarriesBoth(e) {
      assert RunElement(c, e, GRANTED) == None <==> e.datasource.value.id in c.store.items;
    } else {
      forall access
        ensures RunElement(c, e, access) == None
      {
        ValidatedElementRuns(c, e, access);
      }
    }
  }

  const PAGE := Page("p", None, None, [[BOTH]])
  const BOTH := Element(Some(ActionRef("e", "a", None)), Some(DatasourceRef("d", None)))
  const ACTION := Action("a", None, None)

  /** An application with one page, whose one element carries both, and one event with one action. */
  const ESCAPING :=
    Config(map["p" := PAGE], map["e" := Event("e", [ACTION])], map["e" := map["a" := ACTION]], None, Some({}), None,
           Store(map[], map[PageKey("p") := "r", EventKey("e") := "r"]), [])

  lemma EscapingConsistent()
    ensures Consistent(ESCAPING)
  {
    assert [ACTION][..0] == [];
    assert ActionIndex([ACTION]) == map["a" := ACTION];
  }

  lemma PlainEscape()
    ensures PlainId("e", "a")
  {
  }

  lemma EscapingElement()
    ensures !ElementCrashes(ESCAPING, BOTH) && ElementIssues(ESCAPING, "p", PAGE, BOTH) == {}
  {
    PlainEscape();
    assert GetAction(ESCAPING, "e", "a") == Found(ACTION);
  }

  lemma EscapingAccepted()
    ensures ReferencesAccepted(ESCAPING)
  {
    EscapingElement();
    assert !SectionCrashes(ESCAPING, [BOTH]) && SectionIssues(ESCAPING, "p", PAGE, [BOTH]) == {};
    assert !PageCrashes(ESCAPING, [[BOTH]]) && PageIssues(ESCAPING, "p", PAGE, [[BOTH]]) == {};
    assert ActionIssues(ESCAPING, "e", ACTION) == {};
  }

  /** So the condition on elements is needed: this application is accepted, but fails. */
  lemma BothEscapes()
    ensures Consistent(ESCAPING) && PlainIds(ESCAPING) && NoShadowedActions(ESCAPING) && ReferencesAccepted(ESCAPING)
    ensures OnSomePage(ESCAPING, BOTH) && RunElement(ESCAPING, BOTH, GRANTED) == Some(NoSuchDatasource("d"))
  {
    EscapingConsistent();
    EscapingAccepted();
    PlainEscape();
    assert [BOTH] in [[BOTH]] && BOTH in [BOTH];
  }
}
