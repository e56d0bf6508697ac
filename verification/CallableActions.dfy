/**
 `CallableAction`: when an action is executed, when it redirects and when its form is shown again
 (constructor, `setOnSuccess` and `perform`).
 */
module CallableActions {
  import opened Options
  import opened Seqs
  import opened JavaStrings
  import opened Config
  import opened Runtime

  // ---------- the machine ----------

  /** What stays the same over all calls of `perform`. */
  datatype Setup = Setup(forceForward: bool, hasBean: bool, outputPrefix: Option<string>)

  datatype State = State(included: bool, executed: bool, errors: bool, onSuccess: Option<string>)

  /** The outcome of `retrieveData`: whether the data is fine, unless it throws. */
  datatype Fetch = Fetched(ok: bool) | FetchThrows

  /**
   The outcome of `execute` for an action with a bean: it throws before the errors are known, or they are known, and what
   is done with them may still throw.
   */
  datatype Call = Returned(errors: bool, throws: bool) | CallThrows

  /** What the outside world answers during one call of `perform`. */
  datatype World = World(before: Fetch, call: Call, after: Fetch)

  /** What one call of `perform` does to the outside. */
  datatype Effect = Executed | Redirected(target: string) | Rendered

  datatype Report = Report(state: State, effects: seq<Effect>, thrown: bool)

  /** `doForward` */
  predicate DoForward(s: State)
  {
    !s.errors && s.onSuccess.Some?
  }

  /** `forceForward` */
  predicate ForceForward(setup: Setup, s: State)
  {
    s.onSuccess.Some? && setup.forceForward
  }

  /** `execute` throws. */
  predicate Throws(call: Call)
  {
    call.CallThrows? || call.throws
  }

  function Target(setup: Setup, onSuccess: string): string
  {
    (if setup.outputPrefix.Some? then setup.outputPrefix.value else "") + onSuccess
  }

  /** `perform` up to the redirect. */
  function ExecutePart(setup: Setup, s: State, w: World): Report
  {
    if !s.executed then Report(s, [], false)
    else
      match w.before
      case FetchThrows => Report(s, [], true)
      case Fetched(ok) =>
        if !ok then Report(s.(executed := false), [], false)
        else
          var called := if setup.hasBean && w.call.Returned? then s.(errors := w.call.errors) else s;
          if setup.hasBean && Throws(w.call) then Report(called, [Executed], true)
          else if DoForward(called) || ForceForward(setup, called) then
            Report(called, [Executed, Redirected(Target(setup, called.onSuccess.value))], false)
          else Report(called, [Executed], false)
  }

  /** `perform` */
  function Perform(setup: Setup, s: State, w: World): Report
  {
    var first := ExecutePart(setup, s, w);
    if first.thrown || !first.state.included || (first.state.executed && DoForward(first.state)) then first
    else if w.after.FetchThrows? then first.(thrown := true)
    else first.(effects := first.effects + [Rendered])
  }

  class CallableAction {
    const setup: Setup
    var included: bool
    var executed: bool
    var errors: bool
    var onSuccess: Option<string>

    /** What was done to the outside so far. */
    var effects: seq<Effect>

    ghost function Now(): State
      reads this
    {
      State(included, executed, errors, onSuccess)
    }

    /** The end of the constructor: `setOnSuccess` if there is something to include or to execute. */
    constructor (setup: Setup, prepared: Prepared, configured: Option<string>, applicationName: string,
        replace: string -> string)
      ensures this.setup == setup && effects == []
      ensures Now() == Initial(prepared, OnSuccess(configured, applicationName, replace))
    {
      this.setup := setup;
      included, executed, errors := prepared.included, prepared.executed, false;
      if prepared.included || prepared.executed {
        onSuccess := OnSuccess(configured, applicationName, replace);
      } else {
        onSuccess := None;
      }
      effects := [];
    }

    /** The synchronous part of `execute`; `thrown` where it throws. */
    method Execute(call: Call) returns (thrown: bool)
      modifies `errors, `effects
      ensures thrown == (setup.hasBean && Throws(call))
      ensures errors == if setup.hasBean && call.Returned? then call.errors else old(errors)
      ensures effects == old(effects) + [Executed]
    {
      effects := effects + [Executed];
      thrown := false;
      if setup.hasBean {
        match call
        case CallThrows => thrown := true;
        case Returned(failed, throws) => errors := failed; thrown := throws;
      }
    }

    /** `perform` */
    method Run(w: World) returns (thrown: bool)
      modifies this
      ensures var r := Perform(setup, old(Now()), w);
              Now() == r.state && effects == old(effects) + r.effects && thrown == r.thrown
    {
      if executed {
        match w.before
        case FetchThrows => return true;
        case Fetched(ok) => executed := ok;
        if executed {
          thrown := Execute(w.call);
          if thrown {
            return;
          }
          if (!errors && onSuccess.Some?) || (onSuccess.Some? && setup.forceForward) {
            effects := effects + [Redirected(Target(setup, onSuccess.value))];
          }
        }
      }
      if included && !(executed && !errors && onSuccess.Some?) {
        if w.after.FetchThrows? {
          return true;
        }
        effects := effects + [Rendered];
      }
      return false;
    }
  }

  /** The state the constructor leaves. */
  function Initial(prepared: Prepared, onSuccess: Option<string>): State
  {
    State(prepared.included, prepared.executed, false,
          if prepared.included || prepared.executed then onSuccess else None)
  }

  // ---------- where to go on success ----------

  /** `setOnSuccess`, with the replacement of params left open. */
  function OnSuccess(configured: Option<string>, applicationName: string, replace: string -> string): Option<string>
  {
    if IsBlank(configured) then configured
    else
      var path := if StartsWith(configured.value, "/") then configured.value else "/" + configured.value;
      Some(applicationName + replace(path))
  }

  /** A path given without its leading slash is the same path; one that is blank is kept and still forwards. */
  lemma OnSuccessPath(path: string, applicationName: string, replace: string -> string)
    ensures !IsBlank(Some(path)) && !StartsWith(path, "/") ==>
              OnSuccess(Some(path), applicationName, replace) == OnSuccess(Some("/" + path), applicationName, replace)
    ensures IsBlank(Some(path)) ==>
              forall prepared: Prepared :: prepared.included || prepared.executed ==>
                DoForward(Initial(prepared, OnSuccess(Some(path), applicationName, replace)))
  {
    assert ("/" + path)[0..1] == "/";
    if !IsBlank(Some(path)) {
      var i :| 0 <= i < |path| && !IsWhitespace(path[i]);
      assert ("/" + path)[i + 1] == path[i];
    }
  }

  /** Where to go on success, told from the attribute: a path gets its slash, a blank one stays, a missing one too. */
  lemma OnSuccessIs(configured: Option<string>, applicationName: string, replace: string -> string)
    ensures var target := OnSuccess(configured, applicationName, replace);
            && (!HasText(configured) ==> target == configured)
            && (HasText(configured) ==>
                  var path := configured.value;
                  target == Some(applicationName + replace(if path[0] == '/' then path else "/" + path)))
  {
    BlankHasNoText(configured);
    if HasText(configured) {
      OccursAtChar(configured.value, "/", 0);
    }
  }

  /** The constructor, if it does not throw. */
  function Constructed(c: Config, ref: ActionRef, access: Access, configured: Option<string>, applicationName: string,
      replace: string -> string): Result<State>
  {
    match PrepareAction(c, ref, access)
    case Err(failure) => Err(failure)
    case Ok(prepared) => Ok(Initial(prepared, OnSuccess(configured, applicationName, replace)))
  }

  // ---------- one call ----------

  /** The action is executed in this call: it was to be executed and its data is fine. */
  predicate Executes(s: State, w: World)
  {
    s.executed && w.before.Fetched? && w.before.ok
  }

  /** The errors after a call: what the action's bean reported if it was called, else what they were. */
  predicate ErrorsAfter(setup: Setup, s: State, w: World)
  {
    if Executes(s, w) && setup.hasBean && w.call.Returned? then w.call.errors else s.errors
  }

  /** What a call makes of the state, and when it throws, told by its inputs alone. */
  lemma PerformOutcome(setup: Setup, s: State, w: World)
    ensures var r := Perform(setup, s, w);
            var failed := (s.executed && w.before.FetchThrows?) || (Executes(s, w) && setup.hasBean && Throws(w.call));
            var shown := s.included && !(Executes(s, w) && !ErrorsAfter(setup, s, w) && s.onSuccess.Some?);
            && (r.thrown <==> failed || (shown && w.after.FetchThrows?))
            && (Executed in r.effects <==> Executes(s, w))
            && r.state.errors == ErrorsAfter(setup, s, w)
            && r.state.included == s.included && r.state.onSuccess == s.onSuccess
            && (!failed ==> r.state.executed == Executes(s, w))
            && (failed ==> r.state == s.(errors := ErrorsAfter(setup, s, w)))
  {
  }

  function Redirects(effects: seq<Effect>): seq<string>
  {
    if effects == [] then []
    else
      var last := effects[|effects| - 1];
      Redirects(effects[..|effects| - 1]) + if last.Redirected? then [last.target] else []
  }

  lemma RedirectsMore(effects: seq<Effect>, e: Effect)
    ensures Redirects(effects + [e]) == Redirects(effects) + if e.Redirected? then [e.target] else []
  {
    Snoc(effects, e);
  }

  lemma RedirectsOfFew(e: Effect, f: Effect)
    requires !e.Redirected?
    ensures Redirects([]) == [] && Redirects([e]) == []
    ensures Redirects([e, f]) == if f.Redirected? then [f.target] else []
  {
    assert [] + [e] == [e] && [e] + [f] == [e, f];
    RedirectsMore([], e);
    RedirectsMore([e], f);
  }

  lemma RedirectsWhileExecuting(setup: Setup, s: State, w: World)
    requires !ExecutePart(setup, s, w).thrown
    ensures var r := ExecutePart(setup, s, w);
            Redirects(r.effects)
            == if r.state.executed && r.state.onSuccess.Some? && (!r.state.errors || setup.forceForward)
               then [Target(setup, r.state.onSuccess.value)] else []
  {
    var effects := ExecutePart(setup, s, w).effects;
    RedirectsOfFew(Executed, if |effects| == 2 then effects[1] else Executed);
  }

  /**
   One call that does not throw sends at most one redirect, and exactly then if the action was executed,
   there is somewhere to go, and there are no errors or the forward is forced.
   */
  lemma RedirectIff(setup: Setup, s: State, w: World)
    requires !Perform(setup, s, w).thrown
    ensures var r := Perform(setup, s, w);
            Redirects(r.effects)
            == if r.state.executed && r.state.onSuccess.Some? && (!r.state.errors || setup.forceForward)
               then [Target(setup, r.state.onSuccess.value)] else []
  {
    var first := ExecutePart(setup, s, w);
    RedirectsWhileExecuting(setup, s, w);
    RedirectsMore(first.effects, Rendered);
  }

  /** The form is shown again if and only if the action is included and was not executed and cleanly forwarded. */
  lemma RenderIff(setup: Setup, s: State, w: World)
    requires !Perform(setup, s, w).thrown
    ensures var r := Perform(setup, s, w);
            Rendered in r.effects <==> r.state.included && !(r.state.executed && DoForward(r.state))
  {
  }

  /** Redirects and rendering of a call that does not throw, told by its inputs alone. */
  lemma CallDecides(setup: Setup, s: State, w: World)
    requires !Perform(setup, s, w).thrown
    ensures var r, errors := Perform(setup, s, w), ErrorsAfter(setup, s, w);
            && Redirects(r.effects)
               == (if Executes(s, w) && s.onSuccess.Some? && (!errors || setup.forceForward)
                   then [Target(setup, s.onSuccess.value)] else [])
            && (Rendered in r.effects <==> s.included && !(Executes(s, w) && !errors && s.onSuccess.Some?))
  {
    PerformOutcome(setup, s, w);
    RedirectIff(setup, s, w);
    RenderIff(setup, s, w);
  }

  /** Both at once happens exactly if an included action with errors is forced to forward. */
  lemma RedirectAndRender(setup: Setup, s: State, w: World)
    requires !Perform(setup, s, w).thrown
    ensures var r := Perform(setup, s, w);
            Redirects(r.effects) != [] && Rendered in r.effects
            <==> r.state.included && r.state.executed && r.state.onSuccess.Some? && r.state.errors && setup.forceForward
  {
    RedirectIff(setup, s, w);
    RenderIff(setup, s, w);
  }

  /** Everything about the action is found and permitted. */
  predicate Granted(c: Config, ref: ActionRef, access: Access)
  {
    && ref.eventId in c.events && GetAction(c, ref.eventId, ref.id).Found?
    && access.event && access.actionRef && access.action
  }

  /**
   From the conditions to the effects of the first call: a permitted action is executed exactly if its execute condition holds
   and its data is fine. If nothing throws, its form is shown exactly if the include condition holds and it was not
   executed without errors and with somewhere to go; and the only place it redirects to is that one, behind the
   output prefix, exactly if it was executed and there were no errors or the forward is forced.
   */
  lemma FirstCall(c: Config, ref: ActionRef, access: Access, configured: Option<string>, applicationName: string,
      replace: string -> string, setup: Setup, w: World)
    requires Granted(c, ref, access)
    ensures var s := Constructed(c, ref, access, configured, applicationName, replace);
            && s.Ok?
            && var r := Perform(setup, s.value, w);
            && var executes := access.executed && w.before == Fetched(true);
            && var errors := setup.hasBean && w.call == Returned(true, false);
            && (Executed in r.effects <==> executes)
            && (!r.thrown ==> (Rendered in r.effects <==> access.included && !(executes && !errors && configured.Some?)))
            && (!r.thrown ==> forall target ::
                  Redirected(target) in r.effects <==>
                    && executes && configured.Some? && (!errors || setup.forceForward)
                    && target == (if setup.outputPrefix.Some? then setup.outputPrefix.value else "")
                                 + OnSuccess(configured, applicationName, replace).value)
  {
    var s := Constructed(c, ref, access, configured, applicationName, replace).value;
    PerformOutcome(setup, s, w);
    if !Perform(setup, s, w).thrown {
      RenderIff(setup, s, w);
    }
  }

  /** If the event is there and it, the reference or the action is not permitted, nothing is done. */
  lemma FirstCallDenied(c: Config, ref: ActionRef, access: Access, configured: Option<string>, applicationName: string,
      replace: string -> string, setup: Setup, w: World)
    requires ref.eventId in c.events && GetAction(c, ref.eventId, ref.id).Found?
    requires !access.event || !access.actionRef || !access.action
    ensures var s := Constructed(c, ref, access, configured, applicationName, replace);
            s.Ok? && Perform(setup, s.value, w) == Report(s.value, [], false)
  {
  }

  // ---------- any number of calls ----------

  /** The calls of `perform` one after the other, also past one that throws. */
  function Calls(setup: Setup, s: State, worlds: seq<World>): Report
  {
    if worlds == [] then Report(s, [], false)
    else
      var before := Calls(setup, s, worlds[..|worlds| - 1]);
      var r := Perform(setup, before.state, worlds[|worlds| - 1]);
      Report(r.state, before.effects + r.effects, r.thrown)
  }

  lemma CallKeeps(setup: Setup, s: State, world: World)
    ensures var r := Perform(setup, s, world).state;
            && r.included == s.included && r.onSuccess == s.onSuccess && (r.executed ==> s.executed)
            && (!s.executed ==> r == s)
  {
  }

  /** `included` and `onSuccess` never change; `executed` only falls, and without it the state never changes. */
  lemma {:induction false} StatesKeep(setup: Setup, s: State, worlds: seq<World>)
    ensures var r := Calls(setup, s, worlds).state;
            && r.included == s.included && r.onSuccess == s.onSuccess && (r.executed ==> s.executed)
            && (!s.executed ==> r == s)
  {
    if worlds != [] {
      var init, last := Unsnoc(worlds);
      StatesKeep(setup, s, init);
      CallKeeps(setup, Calls(setup, s, init).state, last);
    }
  }

  /** An effect that the state at the start allows. */
  predicate Allowed(setup: Setup, s: State, e: Effect)
  {
    match e
    case Executed => s.executed
    case Redirected(target) => s.executed && s.onSuccess.Some? && target == Target(setup, s.onSuccess.value)
    case Rendered => s.included
  }

  lemma CallAllowed(setup: Setup, s: State, world: World)
    ensures forall e :: e in Perform(setup, s, world).effects ==> Allowed(setup, s, e)
  {
  }

  /** Nothing is ever done that the state after construction does not allow. */
  lemma {:induction false} EffectsAllowed(setup: Setup, s: State, worlds: seq<World>)
    ensures forall e :: e in Calls(setup, s, worlds).effects ==> Allowed(setup, s, e)
  {
    if worlds != [] {
      var init, last := Unsnoc(worlds);
      StatesKeep(setup, s, init);
      EffectsAllowed(setup, s, init);
      CallAllowed(setup, Calls(setup, s, init).state, last);
    }
  }

  /** Once the action is not to be executed any more it never is again, whatever calls follow. */
  lemma {:induction false} ExecutedOnlyFalls(setup: Setup, s: State, worlds: seq<World>, i: nat)
    requires i <= |worlds| && !Calls(setup, s, worlds[..i]).state.executed
    ensures !Calls(setup, s, worlds).state.executed
    ensures Calls(setup, s, worlds).state.errors == Calls(setup, s, worlds[..i]).state.errors
  {
    if i == |worlds| {
      TakeAll(worlds);
    } else {
      assert worlds[..|worlds| - 1][..i] == worlds[..i];
      ExecutedOnlyFalls(setup, s, worlds[..|worlds| - 1], i);
    }
  }

  /** Every redirect follows an execution in the same call. */
  lemma {:induction false} RedirectsFollowExecutions(setup: Setup, s: State, worlds: seq<World>, i: nat)
    requires i < |Calls(setup, s, worlds).effects| && Calls(setup, s, worlds).effects[i].Redirected?
    ensures i > 0 && Calls(setup, s, worlds).effects[i - 1] == Executed
  {
    if worlds != [] {
      var before := Calls(setup, s, worlds[..|worlds| - 1]);
      if i < |before.effects| {
        RedirectsFollowExecutions(setup, s, worlds[..|worlds| - 1], i);
      }
    }
  }

  lemma {:induction false} IdleDoesNothing(setup: Setup, s: State, worlds: seq<World>)
    requires !s.executed && !s.included
    ensures Calls(setup, s, worlds).effects == [] && Calls(setup, s, worlds).state == s
  {
    if worlds != [] {
      IdleDoesNothing(setup, s, worlds[..|worlds| - 1]);
    }
  }

  /** A denied event, reference or action permission leaves nothing to run, however often it is tried. */
  lemma DeniedDoesNothing(c: Config, ref: ActionRef, access: Access, setup: Setup, onSuccess: Option<string>,
      worlds: seq<World>)
    requires PrepareAction(c, ref, access).Ok? && !(access.event && access.actionRef && access.action)
    ensures var s := Initial(PrepareAction(c, ref, access).value, onSuccess);
            Calls(setup, s, worlds).effects == [] && Calls(setup, s, worlds).state == s
  {
    IdleDoesNothing(setup, Initial(PrepareAction(c, ref, access).value, onSuccess), worlds);
  }
}
