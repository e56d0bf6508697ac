/**
 What happens to a section element when a page is processed: which event, action and datasource
 `ApplicationProvider`, `CallableAction` and `CallableDataSource` look up, and where that fails.
 */
module Runtime {
  import opened Options
  import opened JavaStrings
  import opened Datasources
  import opened Inheritance
  import opened Config

  /** The answers of the permission processor and of the conditions while one element is processed. */
  datatype Access = Access(
    event: bool,
    actionRef: bool,
    action: bool,
    included: bool,
    executed: bool,
    datasourceRef: bool,
    datasourceCondition: bool,
    datasource: bool)

  const GRANTED := Access(true, true, true, true, true, true, true, true)

  datatype Failure =
    | NoSuchEvent(id: string)
    | NoSuchAction(id: string)
    | NoSuchDatasource(id: string)
    | BadActionId(id: string)

  datatype Result<T> = Ok(value: T) | Err(failure: Failure)

  // ---------- getAction ----------

  datatype Lookup = Found(action: Action) | NotFound | OutOfBounds

  /**
   The id `getAction` looks for. Behind the event's id and a colon it skips one more character, which is
   out of bounds if there is none.
   */
  function RealActionId(eventId: string, actionId: string): Option<string>
  {
    if !StartsWith(actionId, eventId + ":") then Some(actionId)
    else
      var begin := |eventId + ":"| + 1;
      if begin > |actionId| then None else Some(actionId[begin..])
  }

  /** `getAction` */
  function GetAction(c: Config, eventId: string, actionId: string): Lookup
  {
    match RealActionId(eventId, actionId)
    case None => OutOfBounds
    case Some(id) =>
      if eventId in c.actions && id in c.actions[eventId] then Found(c.actions[eventId][id]) else NotFound
  }

  /** A plain id is looked up as it is. */
  predicate PlainId(eventId: string, actionId: string)
  {
    !StartsWith(actionId, eventId + ":")
  }

  // ---------- actions and datasources ----------

  /** An action that was set up: without permission there is nothing to include or to execute. */
  datatype Prepared = Prepared(action: Option<Action>, included: bool, executed: bool)

  const IDLE := Prepared(None, false, false)

  /** The constructor of `CallableAction` and `initializeAction`. */
  function PrepareAction(c: Config, ref: ActionRef, access: Access): Result<Prepared>
  {
    if ref.eventId !in c.events then Err(NoSuchEvent(ref.eventId))
    else if !access.event || !access.actionRef then Ok(IDLE)
    else
      match GetAction(c, ref.eventId, ref.id)
      case OutOfBounds => Err(BadActionId(ref.id))
      case NotFound => Err(NoSuchAction(ref.id))
      case Found(action) =>
        Ok(if access.action then Prepared(Some(action), access.included, access.executed)
           else Prepared(Some(action), false, false))
  }

  /** The constructor of `CallableDataSource`: whether the datasource is included. */
  function PrepareDatasource(c: Config, ref: DatasourceRef, access: Access): Result<bool>
  {
    if !access.datasourceRef || !access.datasourceCondition then Ok(false)
    else if ref.id !in c.store.items then Err(NoSuchDatasource(ref.id))
    else Ok(access.datasource)
  }

  function FailureOf<T>(r: Result<T>): Option<Failure>
  {
    if r.Err? then Some(r.failure) else None
  }

  /** `perform` looks up the action's datasource as soon as there is something to execute or to include. */
  function RunAction(c: Config, ref: ActionRef, access: Access): Option<Failure>
  {
    match PrepareAction(c, ref, access)
    case Err(failure) => Some(failure)
    case Ok(prepared) =>
      if (prepared.included || prepared.executed) && prepared.action.Some? && prepared.action.value.datasource.Some? then
        FailureOf(PrepareDatasource(c, prepared.action.value.datasource.value, access))
      else None
  }

  /** `addElements`: an element with a datasource is a datasource, whatever else it carries. */
  function RunElement(c: Config, e: Element, access: Access): Option<Failure>
  {
    if e.datasource.Some? then FailureOf(PrepareDatasource(c, e.datasource.value, access))
    else if e.action.Some? then RunAction(c, e.action.value, access)
    else None
  }

  // ---------- what is looked up, told from the ids ----------

  /** An action is looked up under its id unless that starts with the event's id and a colon. */
  lemma ActionAsWritten(c: Config, ev: string, id: string)
    requires |id| <= |ev| || id[..|ev| + 1] != ev + ":"
    ensures GetAction(c, ev, id)
         == if ev in c.actions && id in c.actions[ev] then Found(c.actions[ev][id]) else NotFound
  {
    StartsWithIff(id, ev + ":");
  }

  /** Behind the event's id and a colon one more character is skipped, on which the lookup fails if there is none. */
  lemma ActionBehindColon(c: Config, ev: string, rest: string)
    ensures GetAction(c, ev, ev + ":" + rest)
         == if rest == "" then OutOfBounds
            else if ev in c.actions && rest[1..] in c.actions[ev] then Found(c.actions[ev][rest[1..]])
            else NotFound
  {
    var id := ev + ":" + rest;
    StartsWithIff(id, ev + ":");
    if rest != "" {
      assert id[|ev| + 2..] == rest[1..];
    }
  }

  /** Processing an element with a datasource fails exactly if that is missing, permitted and its condition holds. */
  lemma DatasourceElementFails(c: Config, e: Element, ref: DatasourceRef, access: Access)
    requires e.datasource == Some(ref)
    ensures RunElement(c, e, access)
         == if ref.id !in c.store.items && access.datasourceRef && access.datasourceCondition
            then Some(NoSuchDatasource(ref.id)) else None
  {
  }

  /**
   Processing an element that only carries an action fails if the event is missing; if it is permitted and there is no such
   action; and if the action is permitted, is to be included or executed, and its datasource fails.
   */
  lemma ActionElementFails(c: Config, e: Element, ref: ActionRef, access: Access)
    requires e.datasource.None? && e.action == Some(ref)
    ensures var failure := RunElement(c, e, access);
            && (ref.eventId !in c.events ==> failure == Some(NoSuchEvent(ref.eventId)))
            && (ref.eventId in c.events && !(access.event && access.actionRef) ==> failure == None)
            && (ref.eventId in c.events && access.event && access.actionRef ==>
                  match GetAction(c, ref.eventId, ref.id)
                  case OutOfBounds => failure == Some(BadActionId(ref.id))
                  case NotFound => failure == Some(NoSuchAction(ref.id))
                  case Found(a) =>
                    failure == (if access.action && (access.included || access.executed) && a.datasource.Some?
                                   && access.datasourceRef && access.datasourceCondition
                                   && a.datasource.value.id !in c.store.items
                                then Some(NoSuchDatasource(a.datasource.value.id)) else None))
  {
  }
}
