/** The GSM/PPPoS connection manager as a state machine.

    Three actors share a handful of mutex-protected globals: the client task, the PPP status
    callback and one controlling user thread.  A run is a schedule: a sequence of actions, each
    of which lets one actor take its next atomic step (one critical section, one call into the
    PPP stack, or one exchange with the modem).  The choices of the environment are part of the
    action, so that a schedule determines its run.  An action whose actor is not able to move
    leaves the state alone. */
module ConnectionManager {

  import opened InitLoop

  /** The length of the table of initialization commands. */
  const COMMAND_COUNT: nat := 9

  type Flags = skip: seq<bool> | |skip| == COMMAND_COUNT witness AllClear(COMMAND_COUNT)

  datatype Status = FirstInit | Idle | Connected | Disconnected

  /** Life of the PPP control block, as the PPP stack sees it. */
  datatype Phase = NoBlock | Dead | Opening | Up | Closing

  /** What the client task does next. */
  datatype ClientPc =
    | Absent
    | Starting
    | Setup
    | FirstReset
    | Initializing(iter: nat, nfail: nat)
    | Create
    | SetIdle
    | CallConnect
    | Serving
    | CloseRequested(endTask: bool)
    | AwaitDown(endTask: bool)
    | ReadRfOff(endTask: bool)
    | HangingUp(endTask: bool, rf: bool)
    | Finish(endTask: bool)
    | AwaitInit
    | CloseLost
    | ResetLost
    | Exiting
    | Terminating

  /** What the controlling thread does next. */
  datatype UserPc =
    | Free
    | InitStart
    | InitCreate
    | InitAwaitTask
    | InitAwaitConnection
    | DiscRead(endTask: bool, rf: bool)
    | DiscPost(endTask: bool, rf: bool)
    | DiscAwaitTaken(endTask: bool, rf: bool)
    | DiscAwaitDone(endTask: bool, rf: bool)

  /** What an observer of the three actors records. */
  datatype Event =
    | TaskStarted
    | Accepted(cmd: nat)
    | Created
    | Connect
    | CameUp
    | WentDown
    | LinkFailed
    | Take(endTask: bool)
    | Close
    | SawDown
    | HungUp(rf: bool)
    | Finished
    | Freed(live: bool)
    | TaskEnded
    | InitCalled
    | InitReturnedOk
    | InitReturnedZero
    | Posted(endTask: bool, rf: bool)
    | Returned
    | ReturnedAtOnce

  datatype State = State(
    client: ClientPc,
    user: UserPc,
    phase: Phase,
    pppSet: bool,        // the global pointer to the control block is not NULL
    status: Status,      // gsm_status
    request: int,        // do_pppos_connect
    rfOff: bool,         // gsm_rfOff
    started: bool,       // pppos_task_started
    skip: Flags)         // the skip flags of the command table

  /** The outcome of a step: the next state and the event that an observer records, if any. */
  datatype Effect = Silent(next: State) | Emit(next: State, event: Event)

  datatype Callback = LinkUp | LinkDown | OtherError

  datatype Action =
    | Client(ok: bool)
    | StatusCallback(kind: Callback)
    | CallInit
    | CallDisconnect(endTask: bool, rf: bool)
    | User(ok: bool)

  function Start(): State {
    State(Absent, UserPc.Free, NoBlock, false, FirstInit, 1, false, false, AllClear(COMMAND_COUNT))
  }

  /** `pppapi_close`: a dead block is reported down before the call returns, if at all. */
  function CloseBlock(s: State, reports: bool): State {
    match s.phase
    case NoBlock => s
    case Dead => if reports then s.(status := Disconnected) else s
    case _ => s.(phase := Closing)
  }

  /** One step of the initialization loop, or the test that follows it. */
  function InitializingStep(s: State, ok: bool): Effect
    requires s.client.Initializing?
  {
    var iter, nfail := s.client.iter, s.client.nfail;
    if COMMAND_COUNT <= iter then
      Silent(s.(client := if s.status == FirstInit then Create else SetIdle))
    else
      match Advance(Progress(iter, nfail, s.skip), ok)
      case GaveUp => Silent(s.(client := Exiting))
      case Continue(next) =>
        var s' := s.(client := Initializing(next.iter, next.nfail), skip := next.skip);
        if ok && !s.skip[iter] then Emit(s', Accepted(iter)) else Silent(s')
  }

  /** From the start of the task to the opening of the link. */
  function SetupStep(s: State, ok: bool): Effect {
    match s.client
    case Starting => Emit(s.(client := Setup, started := true), TaskStarted)
    case Setup =>
      if ok then Emit(s.(client := FirstReset), HungUp(true)) else Silent(s.(client := Exiting))
    case FirstReset =>
      Silent(s.(client := Initializing(0, 0), status := FirstInit, skip := AllClear(COMMAND_COUNT)))
    case Create =>
      if ok then Emit(s.(client := SetIdle, pppSet := true, phase := Dead), Created)
      else Silent(s.(client := Exiting, pppSet := false))
    case SetIdle => Silent(s.(client := CallConnect, status := Idle))
    case CallConnect =>
      Emit(s.(client := Serving, phase := if s.phase == Dead then Opening else s.phase), Connect)
    case _ => Silent(s)
  }

  /** The inner loop, the restart after a lost link, and the wait for `ppposInit`. */
  function ServingStep(s: State, ok: bool): Effect {
    match s.client
    case Serving =>
      if s.request <= 0 then
        Emit(s.(client := CloseRequested(s.request < 0), request := 1), Take(s.request < 0))
      else if s.status == Disconnected then Silent(s.(client := CloseLost))
      else Silent(s)
    case CloseLost => Emit(CloseBlock(s, ok).(client := ResetLost), Close)
    case ResetLost =>
      Silent(s.(client := Initializing(0, 0), status := Idle, skip := AllClear(COMMAND_COUNT)))
    case AwaitInit => Silent(if s.request == 0 then s else s.(client := Initializing(0, 0)))
    case _ => Silent(s)
  }

  /** The execution of a request that was taken. */
  function ShakeStep(s: State, ok: bool): Effect {
    match s.client
    case CloseRequested(e) => Emit(CloseBlock(s, ok).(client := AwaitDown(e)), Close)
    case AwaitDown(e) =>
      if s.status == Disconnected then Emit(s.(client := ReadRfOff(e)), SawDown) else Silent(s)
    case ReadRfOff(e) => Silent(s.(client := HangingUp(e, s.rfOff)))
    case HangingUp(e, rf) =>
      Emit(s.(client := Finish(e), skip := AllClear(COMMAND_COUNT)), HungUp(rf))
    case Finish(e) =>
      Emit(s.(client := if e then Exiting else AwaitInit, status := Idle, request := 0), Finished)
    case _ => Silent(s)
  }

  function ExitStep(s: State): Effect {
    match s.client
    case Exiting =>
      if s.pppSet then Emit(s.(client := Terminating, phase := NoBlock), Freed(s.phase != NoBlock))
      else Silent(s.(client := Terminating))
    case Terminating =>
      Emit(s.(client := Absent, started := false, status := FirstInit), TaskEnded)
    case _ => Silent(s)
  }

  /** `pppos_client_task`. */
  function ClientStep(s: State, ok: bool): Effect {
    match s.client
    case Initializing(_, _) => InitializingStep(s, ok)
    case Serving | CloseLost | ResetLost | AwaitInit => ServingStep(s, ok)
    case CloseRequested(_) | AwaitDown(_) | ReadRfOff(_) | HangingUp(_, _) | Finish(_) => ShakeStep(s, ok)
    case Exiting | Terminating => ExitStep(s)
    case _ => SetupStep(s, ok)
  }

  /** `ppp_status_cb`: the PPP stack reports that a link came up only while it is opening one, and
      reports its end only for a link that is not dead.  Error codes other than PPPERR_USER and
      PPPERR_CONNECT end the link without a status change. */
  function CallbackStep(s: State, kind: Callback): Effect {
    if s.phase == NoBlock || s.phase == Dead then Silent(s)
    else
      match kind
      case LinkUp =>
        if s.phase == Opening then Emit(s.(phase := Up, status := Connected), CameUp) else Silent(s)
      case LinkDown => Emit(s.(phase := Dead, status := Disconnected), WentDown)
      case OtherError => Emit(s.(phase := Dead), LinkFailed)
  }

  /** `ppposInit`. */
  function InitStep(s: State, ok: bool): Effect {
    match s.user
    case InitStart =>
      Emit(s.(user := if s.started then InitAwaitConnection else InitCreate, request := 1), InitCalled)
    case InitCreate =>
      if ok then
        Silent(s.(user := InitAwaitTask, client := if s.client.Absent? then Starting else s.client))
      else Emit(s.(user := UserPc.Free), InitReturnedZero)
    case InitAwaitTask => Silent(if s.started then s.(user := InitAwaitConnection) else s)
    case InitAwaitConnection =>
      if !s.started then Emit(s.(user := UserPc.Free), InitReturnedZero)
      else if s.status == Connected then Emit(s.(user := UserPc.Free), InitReturnedOk)
      else Silent(s)
    case _ => Silent(s)
  }

  /** `ppposDisconnect`. */
  function DisconnectStep(s: State): Effect {
    match s.user
    case DiscRead(e, rf) =>
      if s.status == Idle then Emit(s.(user := UserPc.Free), ReturnedAtOnce)
      else Silent(s.(user := DiscPost(e, rf)))
    case DiscPost(e, rf) =>
      Emit(s.(user := DiscAwaitTaken(e, rf), request := if e then -1 else 0, rfOff := rf), Posted(e, rf))
    case DiscAwaitTaken(e, rf) => Silent(if s.request != 0 then s.(user := DiscAwaitDone(e, rf)) else s)
    case DiscAwaitDone(e, rf) =>
      if s.request == 0 then Emit(s.(user := UserPc.Free), Returned) else Silent(s)
    case _ => Silent(s)
  }

  predicate InDisconnect(u: UserPc) {
    u.DiscRead? || u.DiscPost? || u.DiscAwaitTaken? || u.DiscAwaitDone?
  }

  function Step(s: State, a: Action): Effect {
    match a
    case Client(ok) => ClientStep(s, ok)
    case StatusCallback(kind) => CallbackStep(s, kind)
    case CallInit => Silent(if s.user.Free? then s.(user := InitStart) else s)
    case CallDisconnect(e, rf) => Silent(if s.user.Free? then s.(user := DiscRead(e, rf)) else s)
    case User(ok) => if InDisconnect(s.user) then DisconnectStep(s) else InitStep(s, ok)
  }

  /** A state together with the events that led to it. */
  datatype Trace = Trace(state: State, log: seq<Event>)

  function Extend(t: Trace, a: Action): Trace {
    match Step(t.state, a)
    case Silent(next) => Trace(next, t.log)
    case Emit(next, e) => Trace(next, t.log + [e])
  }

  /** Where a schedule leads. */
  function Run(schedule: seq<Action>): Trace {
    if schedule == [] then Trace(Start(), [])
    else Extend(Run(schedule[..|schedule| - 1]), schedule[|schedule| - 1])
  }
}
