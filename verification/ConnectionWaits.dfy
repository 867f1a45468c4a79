/** Where the calls of the user can no longer return, and that they can return everywhere else. */
module ConnectionWaits {

  import opened InitLoop
  import opened ConnectionManager
  import opened ConnectionSafety
  import opened ConnectionTheorems
  import opened ConnectionRuns

  // ---- The way to an open link -------------------------------------------------------------------

  /** The client has come to serve a link that is being opened; the user has not moved. */
  predicate Served(s: State, s': State) {
    && s'.client.Serving? && s'.phase == Opening && s'.status == Idle
    && s'.user == s.user && s'.request == s.request && s'.started == s.started
  }

  lemma FromCreate(t0: Trace, t: Trace) returns (t': Trace)
    requires Leads(t0, t)
    requires t.state.client.Create? || (t.state.phase == Dead && t.state.client.SetIdle?)
             || (t.state.phase == Dead && t.state.client.CallConnect? && t.state.status == Idle)
    ensures Leads(t0, t') && Served(t.state, t'.state)
  {
    hide Leads;
    var s := t.state;
    t' := t;
    if s.client.Create? {
      t' := Onward(t0, t', Client(true));
      s := s.(client := SetIdle, pppSet := true, phase := Dead);
      assert t'.state == s;
    }
    if s.client.SetIdle? {
      t' := Onward(t0, t', Client(true));
      s := s.(client := CallConnect, status := Idle);
      assert t'.state == s;
    }
    t' := Onward(t0, t', Client(true));
  }

  lemma FromInitialization(t0: Trace, t: Trace, p: nat) returns (t': Trace)
    requires Leads(t0, t) && p <= COMMAND_COUNT
    requires t.state.client.Initializing? && t.state.client.iter <= p && t.state.skip == FirstSet(p)
    requires t.state.status == FirstInit || t.state.phase == Dead
    ensures Leads(t0, t') && Served(t.state, t'.state)
  {
    hide Leads;
    t' := AcceptRest(t0, t, p);
    var s := t'.state;
    t' := Onward(t0, t', Client(true));
    assert t'.state == s.(client := if s.status == FirstInit then Create else SetIdle);
    t' := FromCreate(t0, t');
  }

  lemma FromSetup(t0: Trace, t: Trace) returns (t': Trace)
    requires Leads(t0, t) && (t.state.client.Setup? || t.state.client.FirstReset?)
    ensures Leads(t0, t') && Served(t.state, t'.state)
  {
    hide Leads;
    NothingSet();
    t' := t;
    if t.state.client.Setup? {
      t' := Onward(t0, t', Client(true));
    }
    assert t'.state == t.state.(client := FirstReset);
    t' := Onward(t0, t', Client(true));
    t' := FromInitialization(t0, t', 0);
  }

  lemma FromLost(t0: Trace, t: Trace) returns (t': Trace)
    requires Leads(t0, t) && (t.state.client.CloseLost? || t.state.client.ResetLost?) && t.state.phase == Dead
    ensures Leads(t0, t') && Served(t.state, t'.state)
  {
    hide Leads;
    NothingSet();
    t' := t;
    if t.state.client.CloseLost? {
      t' := Onward(t0, t', Client(false));
    }
    assert t'.state == t.state.(client := ResetLost);
    t' := Onward(t0, t', Client(true));
    t' := FromInitialization(t0, t', 0);
  }

  lemma FromAwaitInit(t0: Trace, t: Trace) returns (t': Trace)
    requires Leads(t0, t) && t.state.client.AwaitInit? && t.state.request != 0 && t.state.phase == Dead
    requires t.state.skip == AllClear(COMMAND_COUNT)
    ensures Leads(t0, t') && Served(t.state, t'.state)
  {
    hide Leads;
    NothingSet();
    t' := Onward(t0, t, Client(true));
    t' := FromInitialization(t0, t', 0);
  }

  /** The client is on its way to open a link. */
  predicate Opens(s: State) {
    match s.client
    case Setup | FirstReset | Initializing(_, _) | Create | SetIdle | CallConnect | CloseLost | ResetLost => true
    case AwaitInit => s.request != 0
    case _ => false
  }

  lemma OpensFrom(s: State, h: History)
    requires GateInv(s, h) && LinkInv(s, h) && Opens(s)
    ensures match s.client
            case Initializing(iter, _) =>
              && h.accepted.InOrder? && iter <= h.accepted.n <= COMMAND_COUNT && s.skip == FirstSet(h.accepted.n)
              && (s.status == FirstInit || s.phase == Dead)
            case SetIdle | CloseLost | ResetLost => s.phase == Dead
            case CallConnect => s.phase == Dead && s.status == Idle
            case AwaitInit => s.phase == Dead && s.skip == AllClear(COMMAND_COUNT)
            case _ => true
  {
  }

  /** If the modem and the PPP stack cooperate, it gets there. */
  lemma ReachesServing(t0: Trace, t: Trace, h: History) returns (t': Trace)
    requires Leads(t0, t) && GateInv(t.state, h) && LinkInv(t.state, h) && Opens(t.state)
    ensures Leads(t0, t') && Served(t.state, t'.state)
  {
    hide GateInv, LinkInv, Leads, Served;
    OpensFrom(t.state, h);
    match t.state.client
    case Setup | FirstReset => t' := FromSetup(t0, t);
    case Initializing(_, _) => t' := FromInitialization(t0, t, h.accepted.n);
    case CloseLost | ResetLost => t' := FromLost(t0, t);
    case AwaitInit => t' := FromAwaitInit(t0, t);
    case _ => t' := FromCreate(t0, t);
  }

  // ---- ppposInit -------------------------------------------------------------------------------

  /** The link has ended without a change of the status while it was being opened. */
  predicate EndedWhileOpening(s: State) {
    s.client.Serving? && s.status == Idle && s.phase == Dead
  }

  /** No action of any actor has an effect. */
  ghost predicate Stuck(s: State) {
    forall a: Action :: Step(s, a) == Silent(s)
  }

  lemma {:induction false} StuckLong(t: Trace, ext: seq<Action>)
    requires Stuck(t.state)
    ensures RunFrom(t, ext) == t
  {
    if ext != [] {
      StuckLong(t, ext[..|ext| - 1]);
    }
  }

  lemma EndedIsStuck(s: State, h: History)
    requires RequestInv(s, h) && s.user.InitAwaitConnection? && s.started && EndedWhileOpening(s)
    ensures Stuck(s)
  {
  }

  /** What the client may be doing while `ppposInit` waits for the connection. */
  lemma WhileInitWaits(s: State, h: History)
    requires RequestInv(s, h) && LinkInv(s, h) && s.user.InitAwaitConnection? && !EndedWhileOpening(s)
    ensures s.request == 1 && (s.started <==> !s.client.Absent?)
    ensures Opens(s) || s.client.Absent? || s.client.Exiting? || s.client.Terminating? || s.client.Serving?
    ensures s.client.Serving? ==>
      s.phase == Opening || s.status == Connected || (s.status == Disconnected && s.phase == Dead)
  {
  }

  lemma ReturnsFromOpening(t0: Trace, t: Trace) returns (t': Trace)
    requires Leads(t0, t) && t.state.user.InitAwaitConnection? && t.state.started
    requires t.state.phase == Opening || t.state.status == Connected
    ensures Leads(t0, t') && t'.state.user.Free?
  {
    hide Leads;
    t' := t;
    if t.state.status != Connected {
      t' := Onward(t0, t', StatusCallback(LinkUp));
    }
    t' := Onward(t0, t', User(true));
  }

  lemma ReturnsFromExit(t0: Trace, t: Trace) returns (t': Trace)
    requires Leads(t0, t) && t.state.user.InitAwaitConnection?
    requires t.state.client.Exiting? || t.state.client.Terminating? || (t.state.client.Absent? && !t.state.started)
    ensures Leads(t0, t') && t'.state.user.Free?
  {
    hide Leads;
    t' := t;
    if t'.state.client.Exiting? {
      t' := Onward(t0, t', Client(true));
      assert t'.state.user == t.state.user && t'.state.client.Terminating?;
    }
    if t'.state.client.Terminating? {
      t' := Onward(t0, t', Client(true));
    }
    t' := Onward(t0, t', User(true));
  }

  /** Everywhere else `ppposInit` can return. */
  lemma InitCanReturn(t: Trace) returns (t': Trace)
    requires Inv(t.state, Past(t.log)) && t.state.user.InitAwaitConnection? && !EndedWhileOpening(t.state)
    ensures Leads(t, t') && t'.state.user.Free?
  {
    hide GateInv, LinkInv, RequestInv, QuietInv, Leads, Past, Opens, EndedWhileOpening;
    var s := t.state;
    NoStep(t);
    WhileInitWaits(s, Past(t.log));
    if Opens(s) {
      t' := ReachesServing(t, t, Past(t.log));
      OpensStarted(s);
      t' := ReturnsFromOpening(t, t');
    } else if !s.client.Serving? {
      t' := ReturnsFromExit(t, t);
    } else if s.phase == Opening || s.status == Connected {
      t' := ReturnsFromOpening(t, t);
    } else {
      t' := Onward(t, t, Client(true));
      assert t'.state == s.(client := CloseLost);
      t' := FromLost(t, t');
      t' := ReturnsFromOpening(t, t');
    }
  }

  lemma OpensStarted(s: State)
    ensures Opens(s) ==> !s.client.Absent?
  {
  }

  /** A `ppposInit` that waits for the connection can no longer return, whatever happens, if and only if
      the link has ended without a change of the status while it was being opened; and then nothing
      happens at all any more. */
  lemma InitWaitsForever(schedule: seq<Action>)
    requires Run(schedule).state.user.InitAwaitConnection?
    ensures EndedWhileOpening(Run(schedule).state)
            <==> forall ext :: Run(schedule + ext).state.user.InitAwaitConnection?
    ensures EndedWhileOpening(Run(schedule).state) ==> forall ext :: Run(schedule + ext) == Run(schedule)
  {
    hide Run, RunFrom, Step, EndedWhileOpening, GateInv, LinkInv, RequestInv, QuietInv, Past;
    RunKeeps(schedule);
    var t := Run(schedule);
    if EndedWhileOpening(t.state) {
      EndedStarted(t.state, Past(t.log));
      EndedIsStuck(t.state, Past(t.log));
      forall ext ensures Run(schedule + ext) == t {
        RunSplits(schedule, ext);
        StuckLong(t, ext);
      }
    } else {
      var t' := InitCanReturn(t);
      var ext :| RunFrom(t, ext) == t';
      RunSplits(schedule, ext);
      assert Run(schedule + ext).state.user.Free?;
    }
  }

  lemma EndedStarted(s: State, h: History)
    requires LinkInv(s, h) && EndedWhileOpening(s)
    ensures s.started
  {
  }

  // A ppposInit that has created the task first waits for it to start.

  predicate InitWaits(u: UserPc) {
    u.InitAwaitTask? || u.InitAwaitConnection?
  }

  /** The wait is in vain: the task has ended before the call could see that it had started, or the link
      has ended while it was being opened. */
  predicate InVain(s: State) {
    || (s.user.InitAwaitTask? && s.client.Absent? && !s.started)
    || (EndedWhileOpening(s) && s.request == 1 && s.started)
  }

  lemma InVainStep(s: State, a: Action)
    requires InitWaits(s.user) && InVain(s)
    ensures InitWaits(Step(s, a).next.user) && InVain(Step(s, a).next)
  {
  }

  lemma {:induction false} InVainLong(t: Trace, ext: seq<Action>)
    requires InitWaits(t.state.user) && InVain(t.state)
    ensures InitWaits(RunFrom(t, ext).state.user) && InVain(RunFrom(t, ext).state)
  {
    hide Step, InVain, InitWaits;
    if ext != [] {
      var before, a := RunFrom(t, ext[..|ext| - 1]), ext[|ext| - 1];
      InVainLong(t, ext[..|ext| - 1]);
      InVainStep(before.state, a);
    }
  }

  lemma KeepsOn(t: Trace, a: Action)
    requires Inv(t.state, Past(t.log))
    ensures Inv(Extend(t, a).state, Past(Extend(t, a).log))
  {
    hide Inv, Step, Past;
    StepKeeps(t.state, Past(t.log), a);
    if Step(t.state, a).Emit? {
      PastSnoc(t.log, Step(t.state, a).event);
    }
  }

  lemma {:induction false} RunsOn(t: Trace, ext: seq<Action>, more: seq<Action>)
    ensures RunFrom(t, ext + more) == RunFrom(RunFrom(t, ext), more)
  {
    if more == [] {
      assert ext + more == ext;
    } else {
      var init := more[..|more| - 1];
      RunsOn(t, ext, init);
      assert (ext + more)[..|ext + more| - 1] == ext + init;
    }
  }

  lemma LeadsOn(t: Trace, t': Trace, t'': Trace)
    requires Leads(t, t') && Leads(t', t'')
    ensures Leads(t, t'')
  {
    var ext :| RunFrom(t, ext) == t';
    var more :| RunFrom(t', more) == t'';
    RunsOn(t, ext, more);
  }

  lemma WhileTaskAwaited(s: State, h: History)
    requires RequestInv(s, h) && LinkInv(s, h) && s.user.InitAwaitTask?
    ensures s.request == 1 && (s.started <==> !s.client.Absent? && !s.client.Starting?)
  {
  }

  /** The call sees that the task has started. */
  lemma SeesTask(t: Trace) returns (t': Trace)
    requires Inv(t.state, Past(t.log)) && t.state.user.InitAwaitTask? && !InVain(t.state)
    ensures Leads(t, t') && Inv(t'.state, Past(t'.log))
    ensures t'.state.user.InitAwaitConnection? && !EndedWhileOpening(t'.state)
  {
    hide GateInv, LinkInv, RequestInv, QuietInv, TaskInv, Past, Leads;
    NoStep(t);
    WhileTaskAwaited(t.state, Past(t.log));
    t' := t;
    if t.state.client.Starting? {
      t' := Onward(t, t', Client(true));
      KeepsOn(t, Client(true));
      assert t'.state == t.state.(client := Setup, started := true);
    }
    var s, before := t'.state, t';
    t' := Onward(t, t', User(true));
    KeepsOn(before, User(true));
    assert t'.state == s.(user := InitAwaitConnection);
  }

  /** The whole wait of `ppposInit`: it can no longer return if and only if the task has ended before the
      call could see that it had started, or the link has ended while it was being opened. */
  lemma InitWaitsInVain(schedule: seq<Action>)
    requires InitWaits(Run(schedule).state.user)
    ensures InVain(Run(schedule).state) <==> forall ext :: InitWaits(Run(schedule + ext).state.user)
  {
    hide Run, RunFrom, Step, InVain, EndedWhileOpening, GateInv, LinkInv, RequestInv, QuietInv, TaskInv, Past, Leads;
    RunKeeps(schedule);
    var t := Run(schedule);
    if InVain(t.state) {
      forall ext ensures InitWaits(Run(schedule + ext).state.user) {
        RunSplits(schedule, ext);
        InVainLong(t, ext);
      }
    } else {
      var t' := ReturnsAtLast(t);
      var ext := Path(t, t');
      RunSplits(schedule, ext);
      assert !InitWaits(Run(schedule + ext).state.user);
    }
  }

  lemma Path(t: Trace, t': Trace) returns (ext: seq<Action>)
    requires Leads(t, t')
    ensures RunFrom(t, ext) == t'
  {
    ext :| RunFrom(t, ext) == t';
  }

  lemma ReturnsAtLast(t: Trace) returns (t': Trace)
    requires Inv(t.state, Past(t.log)) && InitWaits(t.state.user) && !InVain(t.state)
    ensures Leads(t, t') && t'.state.user.Free?
  {
    hide GateInv, QuietInv, TaskInv, Past, Leads;
    if t.state.user.InitAwaitTask? {
      var seen := SeesTask(t);
      t' := InitCanReturn(seen);
      LeadsOn(t, seen, t');
    } else {
      NotInVain(t.state, Past(t.log));
      t' := InitCanReturn(t);
    }
  }

  lemma NotInVain(s: State, h: History)
    requires RequestInv(s, h) && LinkInv(s, h) && s.user.InitAwaitConnection? && !InVain(s)
    ensures !EndedWhileOpening(s)
  {
  }

  /** The task fails in its setup and ends before `ppposInit` looks: the call does not return. */
  lemma InitMissesTask()
    ensures exists schedule ::
      && Run(schedule).state.client.Absent? && Run(schedule).state.user.InitAwaitTask?
      && forall ext :: InitWaits(Run(schedule + ext).state.user)
  {
    hide Leads, Run;
    var t := TaskCreated();
    var s := t.state;
    t := Onward(BEGIN, t, Client(true));
    assert t.state == s.(client := Setup, started := true);
    t := Onward(BEGIN, t, Client(false));
    assert t.state == s.(client := Exiting, started := true);
    t := Onward(BEGIN, t, Client(true));
    assert t.state == s.(client := Terminating, started := true);
    t := Onward(BEGIN, t, Client(true));
    var schedule := Reached(t);
    InitWaitsInVain(schedule);
  }

  /** The peer is reported dead while the link is being opened: `ppposInit` does not return. */
  lemma InitHangs()
    ensures exists schedule ::
      && Run(schedule).state.user.InitAwaitConnection?
      && forall ext :: Run(schedule + ext) == Run(schedule)
  {
    hide Leads, Run;
    var t := SessionOpening();
    t := Onward(BEGIN, t, StatusCallback(OtherError));
    var schedule := Reached(t);
    assert EndedWhileOpening(t.state);
    InitWaitsForever(schedule);
  }

  // ---- ppposDisconnect -------------------------------------------------------------------------

  /** A disconnect call has posted its request and waits. */
  predicate Waits(u: UserPc) {
    u.DiscAwaitTaken? || u.DiscAwaitDone?
  }

  /** Nobody will make the request 0 that the call waits for: the task has ended or is about to, before
      it could take the request; or it has carried it out before the call could see it taken; or it
      waits itself, for a dead link to be reported down. */
  predicate Forsaken(s: State) {
    || (Leaving(s.client) && (s.user.DiscAwaitDone? ==> s.request != 0))
    || (s.client.AwaitInit? && s.request == 0 && s.user.DiscAwaitTaken?)
    || (s.client.AwaitDown? && s.request == 1 && s.phase == Dead && s.status != Disconnected)
  }

  lemma ForsakenStep(s: State, a: Action)
    requires Waits(s.user) && Forsaken(s)
    ensures Waits(Step(s, a).next.user) && Forsaken(Step(s, a).next)
  {
  }

  lemma {:induction false} ForsakenLong(t: Trace, ext: seq<Action>)
    requires Waits(t.state.user) && Forsaken(t.state)
    ensures Waits(RunFrom(t, ext).state.user) && Forsaken(RunFrom(t, ext).state)
  {
    hide Step, Forsaken, Waits;
    if ext != [] {
      var before, a := RunFrom(t, ext[..|ext| - 1]), ext[|ext| - 1];
      ForsakenLong(t, ext[..|ext| - 1]);
      ForsakenStep(before.state, a);
    }
  }

  /** What the client may be doing while a disconnect call waits that is not forsaken. */
  lemma WhileCallWaits(s: State, h: History)
    requires RequestInv(s, h) && LinkInv(s, h) && Waits(s.user) && !Forsaken(s)
    ensures ((Opens(s) || s.client.Serving?) && s.request <= 0)
            || (InShake(s.client) && s.request == 1)
            || (s.user.DiscAwaitDone? && s.request == 0)
    ensures s.client.CloseRequested? ==> s.phase == Opening || s.phase == Up || s.phase == Dead
    ensures s.client.AwaitDown? && s.request == 1 ==> s.status == Disconnected || s.phase == Closing
  {
  }

  /** A request that is 1 has been taken; the call sees it. */
  lemma SeesTaken(t0: Trace, t: Trace) returns (t': Trace)
    requires Leads(t0, t) && Waits(t.state.user) && t.state.request == 1
    ensures Leads(t0, t') && t'.state == t.state.(user := t'.state.user) && t'.state.user.DiscAwaitDone?
  {
    hide Leads;
    t' := t;
    if t.state.user.DiscAwaitTaken? {
      t' := Onward(t0, t', User(true));
    }
  }

  /** The link is reported down. */
  lemma GoesDown(t0: Trace, t: Trace) returns (t': Trace)
    requires Leads(t0, t) && t.state.user.DiscAwaitDone?
    requires (t.state.client.CloseRequested? && t.state.phase != NoBlock && t.state.phase != Closing)
             || (t.state.client.AwaitDown? && (t.state.status == Disconnected || t.state.phase == Closing))
    ensures Leads(t0, t') && t'.state.user.DiscAwaitDone? && t'.state.client.ReadRfOff?
  {
    hide Leads;
    t' := t;
    if t'.state.client.CloseRequested? {
      t' := Onward(t0, t', Client(true));
      assert t'.state.client.AwaitDown? && t'.state.user == t.state.user;
      assert t'.state.status == Disconnected || t'.state.phase == Closing;
    }
    if t'.state.status != Disconnected {
      var s := t'.state;
      t' := Onward(t0, t', StatusCallback(LinkDown));
      assert t'.state == s.(phase := Dead, status := Disconnected);
    }
    t' := Onward(t0, t', Client(true));
  }

  /** The request is carried out, and the call returns. */
  lemma CarriedOut(t0: Trace, t: Trace) returns (t': Trace)
    requires Leads(t0, t) && t.state.user.DiscAwaitDone?
    requires t.state.client.ReadRfOff? || t.state.client.HangingUp? || t.state.client.Finish?
    ensures Leads(t0, t') && t'.state.user.Free?
  {
    hide Leads;
    t' := t;
    if t'.state.client.ReadRfOff? {
      t' := Onward(t0, t', Client(true));
    }
    if t'.state.client.HangingUp? {
      t' := Onward(t0, t', Client(true));
    }
    assert t'.state.client.Finish? && t'.state.user == t.state.user;
    t' := Onward(t0, t', Client(true));
    assert t'.state.request == 0 && t'.state.user == t.state.user;
    t' := Onward(t0, t', User(true));
  }

  lemma ReturnsFromShake(t0: Trace, t: Trace) returns (t': Trace)
    requires Leads(t0, t) && Waits(t.state.user) && t.state.request == 1 && InShake(t.state.client)
    requires t.state.client.CloseRequested? ==> t.state.phase != NoBlock && t.state.phase != Closing
    requires t.state.client.AwaitDown? ==> t.state.status == Disconnected || t.state.phase == Closing
    ensures Leads(t0, t') && t'.state.user.Free?
  {
    hide Leads, Waits;
    t' := SeesTaken(t0, t);
    if t'.state.client.CloseRequested? || t'.state.client.AwaitDown? {
      t' := GoesDown(t0, t');
    }
    t' := CarriedOut(t0, t');
  }

  /** A call that is not forsaken can return. */
  lemma CallCanReturn(t: Trace) returns (t': Trace)
    requires Inv(t.state, Past(t.log)) && Waits(t.state.user) && !Forsaken(t.state)
    ensures Leads(t, t') && t'.state.user.Free?
  {
    hide GateInv, LinkInv, RequestInv, QuietInv, Leads, Past, Opens, Forsaken, Waits;
    var s := t.state;
    NoStep(t);
    WhileCallWaits(s, Past(t.log));
    if s.user.DiscAwaitDone? && s.request == 0 {
      t' := Onward(t, t, User(true));
    } else if InShake(s.client) && s.request == 1 {
      t' := ReturnsFromShake(t, t);
    } else {
      t' := t;
      if Opens(s) {
        t' := ReachesServing(t, t, Past(t.log));
      } else {
        ServingHasBlock(s, Past(t.log));
      }
      var s' := t'.state;
      t' := Onward(t, t', Client(true));
      assert t'.state == s'.(client := CloseRequested(s'.request < 0), request := 1);
      t' := ReturnsFromShake(t, t');
    }
  }

  lemma ServingHasBlock(s: State, h: History)
    requires LinkInv(s, h) && s.client.Serving?
    ensures s.phase != NoBlock && s.phase != Closing
  {
  }

  /** A disconnect call that has posted its request can no longer return, whatever happens, if and only
      if it is forsaken. */
  lemma CallWaitsForever(schedule: seq<Action>)
    requires Waits(Run(schedule).state.user)
    ensures Forsaken(Run(schedule).state) <==> forall ext :: Waits(Run(schedule + ext).state.user)
  {
    hide Run, RunFrom, Step, Forsaken, Inv, Past;
    RunKeeps(schedule);
    var t := Run(schedule);
    if Forsaken(t.state) {
      forall ext ensures Waits(Run(schedule + ext).state.user) {
        RunSplits(schedule, ext);
        ForsakenLong(t, ext);
      }
    } else {
      var t' := CallCanReturn(t);
      var ext :| RunFrom(t, ext) == t';
      RunSplits(schedule, ext);
      assert !Waits(Run(schedule + ext).state.user);
    }
  }

  /** A disconnect call after the end of the task: it finds the status FIRSTINIT, posts a request that
      nobody will take, and does not return. */
  lemma CallHangs()
    ensures exists schedule ::
      && Run(schedule).state.client.Absent? && Waits(Run(schedule).state.user)
      && forall ext :: Waits(Run(schedule + ext).state.user)
  {
    hide Leads, Run;
    var t := TaskLeaving();
    var s := t.state.(client := Absent, phase := NoBlock, status := FirstInit, started := false);
    t := Onward(BEGIN, t, Client(true));
    t := Onward(BEGIN, t, Client(true));
    assert t.state == s;
    t := Onward(BEGIN, t, CallDisconnect(false, false));
    assert t.state == s.(user := DiscRead(false, false));
    t := Onward(BEGIN, t, User(true));
    t := Onward(BEGIN, t, User(true));
    assert t.state == s.(user := DiscAwaitTaken(false, false), request := 0);
    var schedule := Reached(t);
    CallWaitsForever(schedule);
  }

  /** A disconnect call for a link that has ended with another error: if the PPP stack does not report
      the end of a dead link that is closed, the client waits for it, and the call for the client. */
  lemma CallHangsOnDeadLink()
    ensures exists schedule ::
      && Run(schedule).state.client.AwaitDown? && Waits(Run(schedule).state.user)
      && forall ext :: Waits(Run(schedule + ext).state.user)
  {
    hide Leads, Run;
    var t := SessionUp();
    var s := t.state.(phase := Dead);
    t := Onward(BEGIN, t, User(true));
    t := Onward(BEGIN, t, StatusCallback(OtherError));
    t := Onward(BEGIN, t, CallDisconnect(true, true));
    assert t.state == s.(user := DiscRead(true, true));
    t := Onward(BEGIN, t, User(true));
    t := Onward(BEGIN, t, User(true));
    assert t.state == s.(user := DiscAwaitTaken(true, true), request := -1, rfOff := true);
    t := Onward(BEGIN, t, Client(true));
    t := Onward(BEGIN, t, Client(false));
    assert t.state == s.(user := DiscAwaitTaken(true, true), client := AwaitDown(true), rfOff := true);
    var schedule := Reached(t);
    CallWaitsForever(schedule);
  }
}
