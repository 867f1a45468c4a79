/** Safety of the connection manager in every interleaving.

    `Past` summarizes what a log says about its own past, `Justified` says which past each event
    must have, and `Inv` is the inductive invariant by which every event of every run is
    justified. */
module ConnectionSafety {

  import opened InitLoop
  import opened ConnectionManager

  datatype Post = NoPost | Post(endTask: bool, rf: bool)

  /** Whether the commands accepted so far are the first `n` of the table, in order. */
  datatype Order = InOrder(n: nat) | Disorder

  /** The client's own events from taking the last posted request to finishing it; forgotten when
      the client connects after that. */
  datatype Shake = NotTaken | Taken(events: seq<Event>, finished: bool)

  datatype History = History(
    accepted: Order,     // commands accepted since the task started or last closed the link
    quiet: bool,         // a disconnect has finished and ppposInit has not been called since
    ending: bool,        // the running task has taken a request to end
    created: bool,       // the running task has created a control block
    freed: bool,         // ... and has freed one
    running: bool,       // a task has started and not ended
    cleared: bool,       // it has hung up the modem and switched its radio off
    connecting: bool,    // the link has been opened and neither closed nor reported lost since
    up: bool,            // ... and has come up
    alive: bool,         // ... and has not ended with another error either
    post: Post,          // the last request that was posted
    shake: Shake)

  predicate IsClientEvent(e: Event) {
    match e
    case CameUp | WentDown | LinkFailed | InitCalled | InitReturnedOk | InitReturnedZero | Posted(_, _) | Returned | ReturnedAtOnce => false
    case _ => true
  }

  predicate IsReset(e: Event) {
    e.TaskStarted? || e.Close?
  }

  /** The events that end a link, or of which the next link is the result. */
  predicate EndsLink(e: Event) {
    IsReset(e) || e.WentDown? || e.LinkFailed?
  }

  function NextOrder(o: Order, e: Event): Order {
    if IsReset(e) then InOrder(0)
    else if !e.Accepted? then o
    else if o == InOrder(e.cmd) then InOrder(e.cmd + 1)
    else Disorder
  }

  function NextShake(shake: Shake, e: Event): Shake {
    if e.Posted? then NotTaken
    else if shake.NotTaken? then if e.Take? then Taken([e], false) else NotTaken
    else if !shake.finished && IsClientEvent(e) then Taken(shake.events + [e], e.Finished?)
    else if shake.finished && e.Connect? then NotTaken
    else shake
  }

  function Observe(h: History, e: Event): History {
    History(
      NextOrder(h.accepted, e),
      e.Finished? || (h.quiet && !e.InitCalled?),
      (e.Take? && e.endTask) || (h.ending && !e.TaskStarted?),
      e.Created? || (h.created && !e.TaskStarted?),
      e.Freed? || (h.freed && !e.TaskStarted?),
      e.TaskStarted? || (h.running && !e.TaskEnded?),
      e == HungUp(true) || (h.cleared && !e.TaskStarted?),
      e.Connect? || (h.connecting && !IsReset(e) && !e.WentDown?),
      e.CameUp? || (h.up && !IsReset(e) && !e.WentDown? && !e.Connect?),
      e.CameUp? || (h.alive && !EndsLink(e)),
      if e.Posted? then Post(e.endTask, e.rf) else h.post,
      NextShake(h.shake, e))
  }

  function Past(log: seq<Event>): History {
    if log == [] then History(InOrder(0), false, false, false, false, false, false, false, false, false, NoPost, NotTaken)
    else Observe(Past(log[..|log| - 1]), log[|log| - 1])
  }

  lemma PastSnoc(log: seq<Event>, e: Event)
    ensures Past(log + [e]) == Observe(Past(log), e)
  {
    assert (log + [e])[..|log|] == log;
  }

  /** The flags with exactly the first `p` commands accepted. */
  function FirstSet(p: nat): (skip: Flags)
    ensures forall i :: 0 <= i < COMMAND_COUNT ==> (skip[i] <==> i < p)
  {
    seq(COMMAND_COUNT, i => i < p)
  }

  /** What the client does between taking a request and reporting it done. */
  function FullShake(endTask: bool, rf: bool): seq<Event> {
    [Take(endTask), Close, SawDown, HungUp(rf), Finished]
  }

  /** The request was taken and carried out in full, and the client has been quiet since. */
  predicate Discharged(h: History) {
    && h.post.Post?
    && h.shake == Taken(FullShake(h.post.endTask, h.post.rf), true)
    && h.quiet
    && (h.post.endTask ==> h.ending)
  }

  /** The past that an event requires. */
  predicate Justified(h: History, e: Event) {
    match e
    case Connect => h.running && h.accepted == InOrder(COMMAND_COUNT) && !h.quiet && !h.ending
    case CameUp => h.connecting && h.accepted == InOrder(COMMAND_COUNT)
    case Accepted(_) => h.running && h.cleared
    case Created => h.running && !h.created && !h.freed
    case Freed(live) => h.running && live == h.created && !h.freed
    case TaskEnded => h.running && (h.created ==> h.freed)
    case TaskStarted => !h.running
    case InitReturnedZero => !h.running
    case InitReturnedOk => h.connecting && h.up && h.accepted == InOrder(COMMAND_COUNT)
    case Returned => Discharged(h)
    case _ => true
  }

  ghost predicate WellLogged(log: seq<Event>) {
    forall k :: 0 <= k < |log| ==> Justified(Past(log[..k]), log[k])
  }

  lemma WellLoggedSnoc(log: seq<Event>, e: Event)
    requires WellLogged(log) && Justified(Past(log), e)
    ensures WellLogged(log + [e])
  {
    forall k | 0 <= k < |log + [e]| ensures Justified(Past((log + [e])[..k]), (log + [e])[k]) {
      assert (log + [e])[..k] == log[..k];
      assert log[..|log|] == log;
    }
  }

  // ---- The invariant -----------------------------------------------------------------------

  /** Commands accepted and flags set, by where the client is. */
  predicate GateInv(s: State, h: History) {
    match s.client
    case Initializing(iter, nfail) =>
      h.accepted.InOrder? && iter <= h.accepted.n <= COMMAND_COUNT && s.skip == FirstSet(h.accepted.n)
    case Create | SetIdle | CallConnect | Serving | CloseRequested(_) => h.accepted == InOrder(COMMAND_COUNT)
    case Finish(_) | AwaitInit => h.accepted == InOrder(0) && s.skip == AllClear(COMMAND_COUNT)
    case Setup | FirstReset | AwaitDown(_) | ReadRfOff(_) | HangingUp(_, _) | ResetLost => h.accepted == InOrder(0)
    case _ => true
  }

  predicate HasBlock(s: State, h: History) {
    s.phase != NoBlock && s.pppSet && h.created
  }

  predicate AtRest(status: Status) {
    status == FirstInit || status == Idle
  }

  /** Status, control block and session, by where the client is. */
  predicate LinkInv(s: State, h: History) {
    && (s.started <==> !s.client.Absent? && !s.client.Starting?)
    && (s.phase == Up <==> h.alive)
    && match s.client
       case Absent | Starting => s.phase == NoBlock && s.status == FirstInit
       case Terminating => s.phase == NoBlock && AtRest(s.status)
       case Setup | FirstReset | Create => s.phase == NoBlock && s.status == FirstInit && !h.created
       case Initializing(_, _) =>
         if s.status == FirstInit then s.phase == NoBlock && !h.created
         else s.status == Idle && s.phase == Dead && HasBlock(s, h)
       case SetIdle => AtRest(s.status) && s.phase == Dead && HasBlock(s, h)
       case CallConnect | AwaitInit => s.status == Idle && s.phase == Dead && HasBlock(s, h)
       case Serving | CloseRequested(_) =>
         && HasBlock(s, h) && s.phase != Closing && s.status != FirstInit
         && (s.phase == Opening ==> s.status == Idle && h.connecting)
         && (s.phase == Up ==> s.status == Connected)
         && (s.status == Disconnected ==> s.phase == Dead)
         && (s.status == Connected ==> h.connecting && h.up)
       case AwaitDown(_) =>
         && HasBlock(s, h) && (s.phase == Closing || s.phase == Dead) && s.status != FirstInit
         && (s.status == Disconnected ==> s.phase == Dead)
       case ReadRfOff(_) | HangingUp(_, _) | Finish(_) | CloseLost | ResetLost =>
         s.status == Disconnected && s.phase == Dead && HasBlock(s, h)
       case Exiting =>
         && AtRest(s.status)
         && (if h.created then s.phase == Dead && s.pppSet else s.phase == NoBlock)
  }

  predicate InShake(c: ClientPc) {
    c.CloseRequested? || c.AwaitDown? || c.ReadRfOff? || c.HangingUp? || c.Finish?
  }

  /** The task is over, or about to be. */
  predicate Leaving(c: ClientPc) {
    c.Exiting? || c.Terminating? || c.Absent?
  }

  /** How far a taken request has been carried out. */
  predicate ShakeAt(s: State, h: History, endTask: bool, rf: bool)
    requires h.shake.Taken?
  {
    && (endTask ==> h.ending)
    && if InShake(s.client) then
         && s.request == 1
         && !h.shake.finished
         && s.client.endTask == endTask
         && (s.client.HangingUp? ==> s.client.rf == rf)
         && h.shake.events ==
              match s.client
              case CloseRequested(_) => [Take(endTask)]
              case AwaitDown(_) => [Take(endTask), Close]
              case Finish(_) => [Take(endTask), Close, SawDown, HungUp(rf)]
              case _ => [Take(endTask), Close, SawDown]
       else
         && s.request == 0
         && h.shake == Taken(FullShake(endTask, rf), true)
         && h.quiet
         && (if endTask then Leaving(s.client) else s.client.AwaitInit?)
  }

  /** The request variable and the two ends of the handshake. */
  predicate RequestInv(s: State, h: History) {
    if s.user.DiscAwaitTaken? || s.user.DiscAwaitDone? then
      var endTask, rf := s.user.endTask, s.user.rf;
      && h.post == Post(endTask, rf)
      && s.rfOff == rf
      && match h.shake
         case NotTaken =>
           && s.request == (if endTask then -1 else 0)
           && !InShake(s.client) && !s.client.AwaitInit? && !s.client.Starting?
           && (s.user.DiscAwaitDone? ==> endTask)
         case Taken(_, _) => ShakeAt(s, h, endTask, rf)
    else
      && !InShake(s.client)
      && (s.request == 1 || (s.request == 0 && (s.client.AwaitInit? || Leaving(s.client))))
      && (s.user.InitCreate? || s.user.InitAwaitTask? || s.user.InitAwaitConnection? ==> s.request == 1)
      && (s.user.InitCreate? ==> s.client.Absent?)
      && (s.client.Starting? ==> s.user.InitAwaitTask?)
      && (s.user.DiscPost? ==> !s.client.AwaitInit?)
  }

  /** A finished disconnect keeps the client from connecting. */
  predicate QuietInv(s: State, h: History) {
    && (h.quiet ==>
          && (s.client.AwaitInit? || Leaving(s.client))
          && (s.client.AwaitInit? ==> s.request == 0)
          && !s.user.InitCreate? && !s.user.InitAwaitTask?)
    && (h.ending ==>
          Leaving(s.client) || s.client.Starting? || (InShake(s.client) && s.client.endTask))
  }

  /** The task: whether it runs, what it has done to the modem, and to the control block. */
  predicate TaskInv(s: State, h: History) {
    && (h.running <==> s.started)
    && match s.client
       case Absent | Starting => true
       case Terminating => h.created ==> h.freed
       case Setup | Exiting => !h.freed
       case _ => !h.freed && h.cleared
  }

  predicate Inv(s: State, h: History) {
    GateInv(s, h) && LinkInv(s, h) && RequestInv(s, h) && QuietInv(s, h) && TaskInv(s, h)
  }

  /** A step may be taken: its event is justified and the invariant holds after it. */
  predicate Keeps(h: History, effect: Effect) {
    match effect
    case Silent(next) => Inv(next, h)
    case Emit(next, e) => Justified(h, e) && Inv(next, Observe(h, e))
  }

  // ---- Every step keeps it -------------------------------------------------------------------

  lemma AcceptExtends(p: nat)
    requires p < COMMAND_COUNT
    ensures FirstSet(p)[p := true] == FirstSet(p + 1)
  {
  }

  lemma NothingSet()
    ensures AllClear(COMMAND_COUNT) == FirstSet(0)
  {
  }

  /** The client is at work, of itself. */
  predicate Working(c: ClientPc) {
    !InShake(c) && !c.AwaitInit? && !Leaving(c) && !c.Starting?
  }

  /** As long as it is, and when it gives up, what it does does not matter to the user. */
  lemma WorkApart(s: State, h: History, s': State, h': History)
    requires RequestInv(s, h) && QuietInv(s, h) && Working(s.client) && (Working(s'.client) || s'.client.Exiting?)
    requires s'.user == s.user && s'.request == s.request && s'.rfOff == s.rfOff
    requires h'.post == h.post && h'.quiet == h.quiet && h'.ending == h.ending
    requires h.shake.NotTaken? ==> h'.shake.NotTaken?
    ensures RequestInv(s', h') && QuietInv(s', h')
  {
  }

  lemma AcceptKeeps(s: State, h: History)
    requires Inv(s, h) && s.client.Initializing? && s.client.iter < COMMAND_COUNT && !s.skip[s.client.iter]
    ensures Keeps(h, InitializingStep(s, true))
  {
    hide RequestInv, QuietInv;
    AcceptExtends(h.accepted.n);
    WorkApart(s, h, InitializingStep(s, true).next, Observe(h, Accepted(s.client.iter)));
  }

  lemma SkipKeeps(s: State, h: History, ok: bool)
    requires Inv(s, h) && s.client.Initializing? && s.client.iter < COMMAND_COUNT && s.skip[s.client.iter]
    ensures Keeps(h, InitializingStep(s, ok))
  {
    hide RequestInv, QuietInv;
    WorkApart(s, h, InitializingStep(s, ok).next, h);
  }

  lemma RefuseKeeps(s: State, h: History)
    requires Inv(s, h) && s.client.Initializing? && s.client.iter < COMMAND_COUNT && !s.skip[s.client.iter]
    ensures Keeps(h, InitializingStep(s, false))
  {
    hide RequestInv, QuietInv;
    WorkApart(s, h, InitializingStep(s, false).next, h);
  }

  lemma InitializedKeeps(s: State, h: History, ok: bool)
    requires Inv(s, h) && s.client.Initializing? && COMMAND_COUNT <= s.client.iter
    ensures Keeps(h, InitializingStep(s, ok))
  {
  }

  lemma SetupKeeps(s: State, h: History, ok: bool)
    requires Inv(s, h) && (s.client.Setup? || s.client.FirstReset?)
    ensures Keeps(h, SetupStep(s, ok))
  {
    NothingSet();
  }

  lemma StartKeeps(s: State, h: History, ok: bool)
    requires Inv(s, h) && (s.client.Absent? || s.client.Starting?)
    ensures Keeps(h, SetupStep(s, ok))
  {
  }

  lemma OpenKeeps(s: State, h: History, ok: bool)
    requires Inv(s, h) && (s.client.SetIdle? || s.client.CallConnect?)
    ensures Keeps(h, SetupStep(s, ok))
  {
  }

  lemma CreateKeeps(s: State, h: History, ok: bool)
    requires Inv(s, h) && s.client.Create?
    ensures Keeps(h, SetupStep(s, ok))
  {
  }

  lemma ServingKeeps(s: State, h: History, ok: bool)
    requires Inv(s, h) && s.client.Serving?
    ensures Keeps(h, ServingStep(s, ok))
  {
  }

  lemma AwaitInitKeeps(s: State, h: History, ok: bool)
    requires Inv(s, h) && s.client.AwaitInit?
    ensures Keeps(h, ServingStep(s, ok))
  {
    NothingSet();
  }

  lemma LostKeeps(s: State, h: History, ok: bool)
    requires Inv(s, h) && (s.client.CloseLost? || s.client.ResetLost?)
    ensures Keeps(h, ServingStep(s, ok))
  {
    NothingSet();
  }

  lemma CloseKeeps(s: State, h: History, ok: bool)
    requires Inv(s, h) && s.client.CloseRequested?
    ensures Keeps(h, ShakeStep(s, ok))
  {
  }

  lemma DownKeeps(s: State, h: History, ok: bool)
    requires Inv(s, h) && s.client.AwaitDown?
    ensures Keeps(h, ShakeStep(s, ok))
  {
  }

  lemma HangUpKeeps(s: State, h: History, ok: bool)
    requires Inv(s, h) && (s.client.ReadRfOff? || s.client.HangingUp?)
    ensures Keeps(h, ShakeStep(s, ok))
  {
  }

  lemma FinishKeeps(s: State, h: History, ok: bool)
    requires Inv(s, h) && s.client.Finish?
    ensures Keeps(h, ShakeStep(s, ok))
  {
  }

  /** What the client does on its way out does not matter to the user. */
  lemma LeavingApart(s: State, h: History, s': State)
    requires RequestInv(s, h) && QuietInv(s, h) && Leaving(s.client) && !s.client.Absent? && Leaving(s'.client)
    requires s'.user == s.user && s'.request == s.request && s'.rfOff == s.rfOff
    ensures RequestInv(s', h) && QuietInv(s', h)
    ensures h.shake.Taken? && (s.user.DiscAwaitTaken? || s.user.DiscAwaitDone?) ==> h.shake.finished
  {
  }

  /** The shake of a call that is over, or of one that the client has carried out, is not added to. */
  lemma LeavingShake(s: State, h: History, s': State, h': History)
    requires RequestInv(s, h) && QuietInv(s, h) && Leaving(s.client) && !s.client.Absent? && Leaving(s'.client)
    requires s'.user == s.user && s'.request == s.request && s'.rfOff == s.rfOff
    requires h'.post == h.post && h'.quiet == h.quiet && h'.ending == h.ending
    requires h.shake.NotTaken? || h.shake.finished ==> h'.shake == h.shake
    ensures RequestInv(s', h') && QuietInv(s', h')
  {
  }

  lemma ExitingKeeps(s: State, h: History)
    requires Inv(s, h) && s.client.Exiting?
    ensures Keeps(h, ExitStep(s))
  {
    hide RequestInv, QuietInv;
    var effect := ExitStep(s);
    LeavingApart(s, h, effect.next);
    if effect.Emit? {
      LeavingShake(s, h, effect.next, Observe(h, effect.event));
    }
  }

  lemma TerminatingKeeps(s: State, h: History)
    requires Inv(s, h) && s.client.Terminating?
    ensures Keeps(h, ExitStep(s))
  {
    hide RequestInv, QuietInv;
    LeavingShake(s, h, ExitStep(s).next, Observe(h, TaskEnded));
  }

  lemma CallbackKeeps(s: State, h: History, kind: Callback)
    requires Inv(s, h)
    ensures Keeps(h, CallbackStep(s, kind))
  {
    hide RequestInv, QuietInv, TaskInv, NextShake;
    var effect := CallbackStep(s, kind);
    if effect.Emit? {
      NotInShake(h.shake, effect.event);
      LinkApart(s, h, effect.next, Observe(h, effect.event));
      LinkNoRequest(s, h, effect.next, Observe(h, effect.event));
    }
  }

  /** What the link does does not matter to the other parts of the invariant. */
  lemma LinkApart(s: State, h: History, s': State, h': History)
    requires s'.client == s.client && s'.started == s.started && s'.skip == s.skip
    requires h'.accepted == h.accepted && h'.created == h.created && h'.freed == h.freed && h'.running == h.running
    requires h'.cleared == h.cleared
    ensures GateInv(s', h') == GateInv(s, h) && TaskInv(s', h') == TaskInv(s, h)
  {
  }

  lemma LinkNoRequest(s: State, h: History, s': State, h': History)
    requires s'.client == s.client && s'.user == s.user && s'.request == s.request && s'.rfOff == s.rfOff
    requires h'.quiet == h.quiet && h'.ending == h.ending && h'.post == h.post && h'.shake == h.shake
    ensures RequestInv(s', h') == RequestInv(s, h) && QuietInv(s', h') == QuietInv(s, h)
  {
  }

  lemma NotInShake(shake: Shake, e: Event)
    requires !IsClientEvent(e) && !e.Posted?
    ensures NextShake(shake, e) == shake
  {
  }

  lemma InitStartKeeps(s: State, h: History, ok: bool)
    requires Inv(s, h) && (s.user.Free? || s.user.InitStart? || s.user.InitCreate?)
    ensures Keeps(h, InitStep(s, ok))
  {
  }

  lemma InitAwaitKeeps(s: State, h: History, ok: bool)
    requires Inv(s, h) && (s.user.InitAwaitTask? || s.user.InitAwaitConnection?)
    ensures Keeps(h, InitStep(s, ok))
  {
  }

  /** What the user does to its own place and to its requests does not matter to the client's part of
      the invariant. */
  lemma UserApart(s: State, h: History, s': State, h': History)
    requires s'.client == s.client && s'.phase == s.phase && s'.pppSet == s.pppSet && s'.status == s.status
    requires s'.started == s.started && s'.skip == s.skip
    requires h'.accepted == h.accepted && h'.created == h.created && h'.freed == h.freed && h'.running == h.running
    requires h'.cleared == h.cleared && h'.connecting == h.connecting && h'.up == h.up && h'.alive == h.alive
    ensures GateInv(s', h') == GateInv(s, h) && LinkInv(s', h') == LinkInv(s, h) && TaskInv(s', h') == TaskInv(s, h)
  {
  }

  lemma NotAwaiting(s: State, h: History)
    requires LinkInv(s, h) && s.status != Idle
    ensures !s.client.AwaitInit?
  {
  }

  /** The user's part of the invariant where a disconnect call has read the status, ... */
  lemma StatusRead(s: State, h: History, u: UserPc)
    requires RequestInv(s, h) && QuietInv(s, h) && s.user.DiscRead?
    requires u.Free? || (u.DiscPost? && !s.client.AwaitInit?)
    ensures RequestInv(s.(user := u), h) && QuietInv(s.(user := u), h)
  {
  }

  /** ... where it has posted a request, ... */
  lemma RequestPosted(s: State, h: History, endTask: bool, rf: bool)
    requires RequestInv(s, h) && QuietInv(s, h) && s.user == DiscPost(endTask, rf)
    ensures var s' := s.(user := DiscAwaitTaken(endTask, rf), request := if endTask then -1 else 0, rfOff := rf);
      var h' := h.(post := Post(endTask, rf), shake := NotTaken);
      RequestInv(s', h') && QuietInv(s', h')
  {
  }

  /** ... where it has seen a request that is not 0, ... */
  lemma RequestSeen(s: State, h: History, endTask: bool, rf: bool)
    requires RequestInv(s, h) && QuietInv(s, h) && s.user == DiscAwaitTaken(endTask, rf) && s.request != 0
    ensures var s' := s.(user := DiscAwaitDone(endTask, rf)); RequestInv(s', h) && QuietInv(s', h)
  {
  }

  /** ... and where the request has become 0: it was carried out, so the call may return. */
  lemma RequestDone(s: State, h: History)
    requires RequestInv(s, h) && QuietInv(s, h) && s.user.DiscAwaitDone? && s.request == 0
    ensures Discharged(h) && RequestInv(s.(user := UserPc.Free), h) && QuietInv(s.(user := UserPc.Free), h)
  {
  }

  /** The returns of calls leave no trace in the summary of the past. */
  lemma Unobserved(h: History, e: Event)
    requires e.ReturnedAtOnce? || e.Returned? || e.InitReturnedOk? || e.InitReturnedZero?
    ensures Observe(h, e) == h
  {
    hide NextShake;
    NotInShake(h.shake, e);
  }

  /** Only the user has moved. */
  lemma UserMoved(s: State, h: History, u: UserPc)
    requires Inv(s, h) && RequestInv(s.(user := u), h) && QuietInv(s.(user := u), h)
    ensures Inv(s.(user := u), h)
  {
    hide GateInv, LinkInv, RequestInv, QuietInv, TaskInv;
    UserApart(s, h, s.(user := u), h);
  }

  lemma InvParts(s: State, h: History)
    requires Inv(s, h)
    ensures RequestInv(s, h) && QuietInv(s, h) && LinkInv(s, h)
  {
  }

  lemma ReadKeeps(s: State, h: History)
    requires Inv(s, h) && s.user.DiscRead?
    ensures Keeps(h, DisconnectStep(s))
  {
    hide Inv, LinkInv, RequestInv, QuietInv, Observe;
    InvParts(s, h);
    if s.status == Idle {
      StatusRead(s, h, UserPc.Free);
      UserMoved(s, h, UserPc.Free);
      Unobserved(h, ReturnedAtOnce);
    } else {
      var u := DiscPost(s.user.endTask, s.user.rf);
      NotAwaiting(s, h);
      StatusRead(s, h, u);
      UserMoved(s, h, u);
    }
  }

  lemma PostKeeps(s: State, h: History)
    requires Inv(s, h) && s.user.DiscPost?
    ensures Keeps(h, DisconnectStep(s))
  {
    hide GateInv, LinkInv, RequestInv, QuietInv, TaskInv;
    var endTask, rf := s.user.endTask, s.user.rf;
    var h' := h.(post := Post(endTask, rf), shake := NotTaken);
    assert Observe(h, Posted(endTask, rf)) == h';
    UserApart(s, h, DisconnectStep(s).next, h');
    RequestPosted(s, h, endTask, rf);
  }

  lemma TakenKeeps(s: State, h: History)
    requires Inv(s, h) && s.user.DiscAwaitTaken?
    ensures Keeps(h, DisconnectStep(s))
  {
    hide Inv, LinkInv, RequestInv, QuietInv;
    if s.request != 0 {
      InvParts(s, h);
      RequestSeen(s, h, s.user.endTask, s.user.rf);
      UserMoved(s, h, DiscAwaitDone(s.user.endTask, s.user.rf));
    }
  }

  lemma DoneKeeps(s: State, h: History)
    requires Inv(s, h) && s.user.DiscAwaitDone?
    ensures Keeps(h, DisconnectStep(s))
  {
    hide Inv, LinkInv, RequestInv, QuietInv, Observe;
    if s.request == 0 {
      InvParts(s, h);
      RequestDone(s, h);
      UserMoved(s, h, UserPc.Free);
      Unobserved(h, Returned);
    }
  }

  lemma CallKeeps(s: State, h: History, u: UserPc)
    requires Inv(s, h) && s.user.Free? && (u.InitStart? || u.DiscRead?)
    ensures Inv(s.(user := u), h)
  {
  }

  lemma ClientKeeps(s: State, h: History, ok: bool)
    requires Inv(s, h)
    ensures Keeps(h, ClientStep(s, ok))
  {
    hide Inv, Keeps;
    match s.client
    case Initializing(iter, _) =>
      if COMMAND_COUNT <= iter {
        InitializedKeeps(s, h, ok);
      } else if s.skip[iter] {
        SkipKeeps(s, h, ok);
      } else if ok {
        AcceptKeeps(s, h);
      } else {
        RefuseKeeps(s, h);
      }
    case Serving => ServingKeeps(s, h, ok);
    case AwaitInit => AwaitInitKeeps(s, h, ok);
    case CloseLost | ResetLost => LostKeeps(s, h, ok);
    case CloseRequested(_) => CloseKeeps(s, h, ok);
    case AwaitDown(_) => DownKeeps(s, h, ok);
    case ReadRfOff(_) | HangingUp(_, _) => HangUpKeeps(s, h, ok);
    case Finish(_) => FinishKeeps(s, h, ok);
    case Exiting => ExitingKeeps(s, h);
    case Terminating => TerminatingKeeps(s, h);
    case Create => CreateKeeps(s, h, ok);
    case SetIdle | CallConnect => OpenKeeps(s, h, ok);
    case Absent | Starting => StartKeeps(s, h, ok);
    case Setup | FirstReset => SetupKeeps(s, h, ok);
  }

  lemma UserKeeps(s: State, h: History, ok: bool)
    requires Inv(s, h)
    ensures Keeps(h, Step(s, User(ok)))
  {
    hide Inv, Keeps;
    match s.user
    case DiscRead(_, _) => ReadKeeps(s, h);
    case DiscPost(_, _) => PostKeeps(s, h);
    case DiscAwaitTaken(_, _) => TakenKeeps(s, h);
    case DiscAwaitDone(_, _) => DoneKeeps(s, h);
    case InitAwaitTask | InitAwaitConnection => InitAwaitKeeps(s, h, ok);
    case _ => InitStartKeeps(s, h, ok);
  }

  lemma StepKeeps(s: State, h: History, a: Action)
    requires Inv(s, h)
    ensures Keeps(h, Step(s, a))
  {
    hide Inv;
    match a
    case Client(ok) => ClientKeeps(s, h, ok);
    case StatusCallback(kind) => CallbackKeeps(s, h, kind);
    case CallInit =>
      if s.user.Free? {
        CallKeeps(s, h, InitStart);
      }
    case CallDisconnect(e, rf) =>
      if s.user.Free? {
        CallKeeps(s, h, DiscRead(e, rf));
      }
    case User(ok) => UserKeeps(s, h, ok);
  }

  lemma {:induction false} RunKeeps(schedule: seq<Action>)
    ensures var t := Run(schedule); Inv(t.state, Past(t.log)) && WellLogged(t.log)
  {
    if schedule != [] {
      var before, a := Run(schedule[..|schedule| - 1]), schedule[|schedule| - 1];
      RunKeeps(schedule[..|schedule| - 1]);
      StepKeeps(before.state, Past(before.log), a);
      match Step(before.state, a)
      case Silent(_) =>
      case Emit(_, e) =>
        WellLoggedSnoc(before.log, e);
        PastSnoc(before.log, e);
    }
  }
}
