/** Runs of the connection manager from a given point on: what a disconnect call that posts nothing
    achieves, and runs that show what the design does not keep. */
module ConnectionRuns {

  import opened InitLoop
  import opened ConnectionManager
  import opened ConnectionSafety
  import opened ConnectionTheorems

  const BEGIN: Trace := Trace(Start(), [])

  function RunFrom(t: Trace, ext: seq<Action>): Trace {
    if ext == [] then t
    else Extend(RunFrom(t, ext[..|ext| - 1]), ext[|ext| - 1])
  }

  lemma {:induction false} RunSplits(schedule: seq<Action>, ext: seq<Action>)
    ensures Run(schedule + ext) == RunFrom(Run(schedule), ext)
  {
    if ext == [] {
      assert schedule + ext == schedule;
    } else {
      var init := ext[..|ext| - 1];
      RunSplits(schedule, init);
      assert (schedule + ext)[..|schedule + ext| - 1] == schedule + init;
    }
  }

  /** Some schedule leads from one trace to another. */
  ghost predicate Leads(t: Trace, t': Trace) {
    exists ext :: RunFrom(t, ext) == t'
  }

  lemma NoStep(t: Trace)
    ensures Leads(t, t)
  {
    assert RunFrom(t, []) == t;
  }

  lemma Onward(t0: Trace, t: Trace, a: Action) returns (t': Trace)
    requires Leads(t0, t)
    ensures t' == Extend(t, a) && Leads(t0, t')
  {
    var ext :| RunFrom(t0, ext) == t;
    t' := Extend(t, a);
    assert (ext + [a])[..|ext|] == ext;
    assert RunFrom(t0, ext + [a]) == t';
  }

  /** What is reached from the start is the trace of a run. */
  lemma Reached(t: Trace) returns (schedule: seq<Action>)
    requires Leads(BEGIN, t)
    ensures Run(schedule) == t
  {
    schedule :| RunFrom(BEGIN, schedule) == t;
    RunSplits([], schedule);
    assert [] + schedule == schedule && Run([]) == BEGIN;
  }

  lemma {:induction false} LogGrows(t: Trace, ext: seq<Action>)
    ensures t.log <= RunFrom(t, ext).log
  {
    if ext != [] {
      LogGrows(t, ext[..|ext| - 1]);
    }
  }

  // ---- A disconnect call that posts nothing ----------------------------------------------------

  /** The user is not about to create a task, nor waiting for one. */
  predicate AtEase(u: UserPc) {
    u.Free? || u.InitStart? || InDisconnect(u)
  }

  /** The client does not connect any more of itself: the task is over or about to be, or it awaits
      `ppposInit`, or its link has ended while it was being opened. */
  predicate Stopped(s: State) {
    || Leaving(s.client)
    || (s.client.AwaitInit? && s.request == 0)
    || (s.client.Serving? && s.phase == Dead)
  }

  /** What a stopped client and an idle status keep, as long as `ppposInit` is not called. */
  predicate Stays(s: State) {
    && AtEase(s.user)
    && (Leaving(s.client)
        || (&& s.status == Idle && s.phase == Dead && (InDisconnect(s.user) ==> s.user.DiscRead?)
            && (if s.request == 0 then s.client.AwaitInit? else s.client.Serving? && s.request == 1)))
  }

  lemma StaysStep(s: State, a: Action)
    requires Stays(s)
    ensures match Step(s, a)
            case Silent(next) => Stays(next)
            case Emit(next, e) => e.InitCalled? || (!e.Connect? && Stays(next))
  {
  }

  lemma {:induction false} StaysLong(t: Trace, ext: seq<Action>)
    requires Stays(t.state)
    ensures var t' := RunFrom(t, ext);
      && t.log <= t'.log
      && (Stays(t'.state) || !NoInitCall(t'.log, |t.log|, |t'.log|))
      && forall c :: |t.log| <= c < |t'.log| && t'.log[c].Connect? ==> !NoInitCall(t'.log, |t.log|, c)
  {
    hide Step, Stays;
    LogGrows(t, ext);
    if ext != [] {
      var before, a := RunFrom(t, ext[..|ext| - 1]), ext[|ext| - 1];
      StaysLong(t, ext[..|ext| - 1]);
      var log, log' := before.log, RunFrom(t, ext).log;
      if Stays(before.state) {
        StaysStep(before.state, a);
        if !Stays(RunFrom(t, ext).state) {
          assert log'[|log|].InitCalled?;
        }
      } else {
        var i :| |t.log| <= i < |log| && log[i].InitCalled?;
        assert log'[i].InitCalled?;
      }
      forall c | |t.log| <= c < |log'| && log'[c].Connect? ensures !NoInitCall(log', |t.log|, c) {
        if c < |log| {
          assert log[c].Connect?;
          var i :| |t.log| <= i < c && log[i].InitCalled?;
          assert log'[i].InitCalled?;
        } else if !Stays(before.state) {
          var i :| |t.log| <= i < |log| && log[i].InitCalled?;
          assert log'[i].InitCalled?;
        }
      }
    }
  }

  /** The trace has connected since `t`, and `ppposInit` has not been called in between. */
  ghost predicate Reconnected(t: Trace, t': Trace) {
    && t.log < t'.log && t'.log[|t'.log| - 1].Connect?
    && NoInitCall(t'.log, |t.log|, |t'.log|)
  }

  /** The modem can accept all commands that are left. */
  lemma {:induction false} AcceptRest(t0: Trace, t: Trace, p: nat) returns (t': Trace)
    requires Leads(t0, t) && p <= COMMAND_COUNT
    requires t.state.client.Initializing? && t.state.client.iter <= p && t.state.skip == FirstSet(p)
    ensures Leads(t0, t')
    ensures t'.state == t.state.(client := Initializing(COMMAND_COUNT, t.state.client.nfail), skip := FirstSet(COMMAND_COUNT))
    ensures t.log <= t'.log && forall i :: |t.log| <= i < |t'.log| ==> t'.log[i].Accepted?
    decreases COMMAND_COUNT - t.state.client.iter
  {
    hide Leads;
    var iter := t.state.client.iter;
    if iter == COMMAND_COUNT {
      t' := t;
    } else {
      var next := Onward(t0, t, Client(true));
      if iter == p {
        AcceptExtends(p);
      }
      t' := AcceptRest(t0, next, if iter == p then p + 1 else p);
    }
  }

  /** From setting the status on, the client connects in two steps. */
  lemma Opened(t0: Trace, t: Trace) returns (t': Trace)
    requires Leads(t0, t) && (t.state.client.SetIdle? || t.state.client.CallConnect?)
    ensures Leads(t0, t') && t'.log == t.log + [Connect]
  {
    hide Leads;
    t' := t;
    if t.state.client.SetIdle? {
      t' := Onward(t0, t, Client(true));
      assert t' == Trace(t.state.(client := CallConnect, status := Idle), t.log);
    }
    t' := Onward(t0, t', Client(true));
  }

  /** A client that is in the initialization loop, and not for the first time, connects again, whatever
      the user does. */
  lemma Reconnects(t0: Trace, t: Trace, p: nat) returns (t': Trace)
    requires Leads(t0, t) && p <= COMMAND_COUNT && t.state.status == Idle
    requires t.state.client.Initializing? && t.state.client.iter <= p && t.state.skip == FirstSet(p)
    ensures Leads(t0, t') && Reconnected(t, t')
  {
    hide Leads;
    t' := AcceptRest(t0, t, p);
    var s, log := t'.state, t'.log;
    t' := Onward(t0, t', Client(true));
    assert t' == Trace(s.(client := SetIdle), log);
    t' := Opened(t0, t');
  }

  /** The link that is being opened can get lost; then the client starts over. */
  lemma OpeningLost(t0: Trace, t: Trace) returns (t': Trace)
    requires Leads(t0, t) && t.state.client.Serving? && t.state.phase == Opening && t.state.request == 1
    ensures Leads(t0, t') && t'.log == t.log + [WentDown, Close]
    ensures t'.state == t.state.(client := Initializing(0, 0), phase := Dead, status := Idle, skip := FirstSet(0))
  {
    hide Leads;
    NothingSet();
    var s := t.state;
    t' := Onward(t0, t, StatusCallback(LinkDown));
    t' := Onward(t0, t', Client(true));
    assert t' == Trace(s.(client := CloseLost, phase := Dead, status := Disconnected), t.log + [WentDown]);
    t' := Onward(t0, t', Client(true));
    assert t' == Trace(s.(client := ResetLost, phase := Dead, status := Disconnected), t.log + [WentDown] + [Close]);
    t' := Onward(t0, t', Client(true));
    assert t.log + [WentDown] + [Close] == t.log + [WentDown, Close];
  }

  /** What a client is doing that has an idle status and is not stopped. */
  lemma NotStopped(s: State, h: History)
    requires Inv(s, h) && s.user.Free? && s.status == Idle && !Stopped(s)
    ensures match s.client
            case Initializing(iter, _) =>
              h.accepted.InOrder? && iter <= h.accepted.n <= COMMAND_COUNT && s.skip == FirstSet(h.accepted.n)
            case SetIdle | CallConnect => true
            case Serving => s.phase == Opening && s.request == 1
            case AwaitInit => s.request != 0 && s.skip == AllClear(COMMAND_COUNT)
            case _ => false
  {
  }

  /** An idle client that is not stopped can connect again, whatever the user does. */
  lemma ConnectsAgain(t: Trace) returns (t': Trace)
    requires Inv(t.state, Past(t.log)) && t.state.user.Free? && t.state.status == Idle && !Stopped(t.state)
    ensures Leads(t, t') && Reconnected(t, t')
  {
    hide Inv, Leads, Step;
    NotStopped(t.state, Past(t.log));
    NoStep(t);
    match t.state.client
    case Initializing(_, _) => t' := Reconnects(t, t, Past(t.log).accepted.n);
    case Serving =>
      var lost := OpeningLost(t, t);
      t' := Reconnects(t, lost, 0);
    case AwaitInit =>
      t' := Awakened(t);
    case _ => t' := Opened(t, t);
  }

  lemma Awakened(t: Trace) returns (t': Trace)
    requires t.state.client.AwaitInit? && t.state.request != 0 && t.state.status == Idle
    requires t.state.skip == AllClear(COMMAND_COUNT)
    ensures Leads(t, t') && Reconnected(t, t')
  {
    hide Leads;
    NothingSet();
    NoStep(t);
    var next := Onward(t, t, Client(true));
    t' := Reconnects(t, next, 0);
  }

  lemma StoppedStays(s: State, h: History)
    requires Inv(s, h) && s.user.Free? && s.status == Idle
    ensures Stopped(s) ==> Stays(s)
  {
  }

  /** After `schedule` the extension connects although `ppposInit` is not called. */
  ghost predicate ConnectsUnasked(schedule: seq<Action>, ext: seq<Action>) {
    var log, log' := Run(schedule).log, Run(schedule + ext).log;
    exists c :: |log| <= c < |log'| && log'[c].Connect? && NoInitCall(log', |log|, c)
  }

  /** Where the user is free and the status is IDLE, the client will not connect before `ppposInit` is
      called if and only if it is stopped. */
  lemma IdleExactly(schedule: seq<Action>)
    requires Run(schedule).state.user.Free? && Run(schedule).state.status == Idle
    ensures Stopped(Run(schedule).state) <==> forall ext :: !ConnectsUnasked(schedule, ext)
  {
    hide Run, RunFrom, Inv, Stopped, Stays;
    RunKeeps(schedule);
    var t := Run(schedule);
    if Stopped(t.state) {
      StoppedStays(t.state, Past(t.log));
      forall ext ensures !ConnectsUnasked(schedule, ext) {
        RunSplits(schedule, ext);
        StaysLong(t, ext);
      }
    } else {
      var t' := ConnectsAgain(t);
      var ext :| RunFrom(t, ext) == t';
      RunSplits(schedule, ext);
      var c := |t'.log| - 1;
      assert |t.log| <= c < |t'.log| && t'.log[c].Connect? && NoInitCall(t'.log, |t.log|, c);
      assert ConnectsUnasked(schedule, ext);
    }
  }

  /** The last step of the schedule is the return of a disconnect call that found the status IDLE. */
  ghost predicate JustReturned(schedule: seq<Action>) {
    schedule != [] &&
    var effect := Step(Run(schedule[..|schedule| - 1]).state, schedule[|schedule| - 1]);
    effect.Emit? && effect.event == ReturnedAtOnce
  }

  lemma ReturnsIdle(s: State, a: Action)
    requires Step(s, a).Emit? && Step(s, a).event == ReturnedAtOnce
    ensures s.status == Idle && Step(s, a).next == s.(user := UserPc.Free)
  {
  }

  /** A disconnect call that finds the status IDLE returns at once.  From then on the client will not
      connect before `ppposInit` is called if and only if it was stopped: calls that post a request
      stop the client, these do not. */
  lemma ImmediateReturnExactly(schedule: seq<Action>)
    requires JustReturned(schedule)
    ensures Stopped(Run(schedule).state) <==> forall ext :: !ConnectsUnasked(schedule, ext)
  {
    hide Step, Stopped, ConnectsUnasked;
    ReturnsIdle(Run(schedule[..|schedule| - 1]).state, schedule[|schedule| - 1]);
    IdleExactly(schedule);
  }

  /** What the caller can tell: if a disconnect has finished and `ppposInit` has not been called since,
      the client is stopped and stays so. */
  lemma FinishedStays(schedule: seq<Action>, f: nat)
    requires JustReturned(schedule)
    requires f < |Run(schedule).log| && Run(schedule).log[f].Finished? && NoInitCall(Run(schedule).log, f, |Run(schedule).log|)
    ensures forall ext :: !ConnectsUnasked(schedule, ext)
  {
    hide JustReturned, ConnectsUnasked, Run;
    RunKeeps(schedule);
    QuietMeaning(Run(schedule).log);
    ImmediateReturnExactly(schedule);
  }

  lemma OneStep(t: Trace, a: Action)
    ensures RunFrom(t, [a]) == Extend(t, a)
    ensures Step(t.state, a) != Silent(t.state) ==> Extend(t, a) != t
  {
    assert [a][..0] == [];
    assert RunFrom(t, []) == t;
  }

  // ---- Runs that show it -----------------------------------------------------------------------

  /** `ppposInit` has created the task. */
  lemma TaskCreated() returns (t: Trace)
    ensures Leads(BEGIN, t)
    ensures t.state == Start().(user := InitAwaitTask, client := Starting)
  {
    hide Leads;
    var s := Start();
    NoStep(BEGIN);
    t := Onward(BEGIN, BEGIN, CallInit);
    assert t.state == s.(user := InitStart);
    t := Onward(BEGIN, t, User(true));
    assert t.state == s.(user := InitCreate);
    t := Onward(BEGIN, t, User(true));
  }

  /** The task is about to initialize the modem for the first time. */
  lemma TaskReady() returns (t: Trace)
    ensures Leads(BEGIN, t)
    ensures t.state == State(Initializing(0, 0), InitAwaitConnection, NoBlock, false, FirstInit, 1, false, true, FirstSet(0))
  {
    hide Leads;
    NothingSet();
    t := TaskCreated();
    var s := Start();
    t := Onward(BEGIN, t, Client(true));
    assert t.state == s.(user := InitAwaitTask, client := Setup, started := true);
    t := Onward(BEGIN, t, User(true));
    assert t.state == s.(user := InitAwaitConnection, client := Setup, started := true);
    t := Onward(BEGIN, t, Client(true));
    assert t.state == s.(user := InitAwaitConnection, client := FirstReset, started := true);
    t := Onward(BEGIN, t, Client(true));
  }

  /** The first session is being opened. */
  lemma SessionOpening() returns (t: Trace)
    ensures Leads(BEGIN, t)
    ensures t.state == State(Serving, InitAwaitConnection, Opening, true, Idle, 1, false, true, FirstSet(COMMAND_COUNT))
  {
    hide Leads;
    t := TaskReady();
    t := AcceptRest(BEGIN, t, 0);
    var s := t.state;
    t := Onward(BEGIN, t, Client(true));
    assert t.state == s.(client := Create);
    t := Onward(BEGIN, t, Client(true));
    assert t.state == s.(client := SetIdle, pppSet := true, phase := Dead);
    t := Onward(BEGIN, t, Client(true));
    assert t.state == s.(client := CallConnect, pppSet := true, phase := Dead, status := Idle);
    t := Onward(BEGIN, t, Client(true));
  }

  /** It comes up. */
  lemma SessionUp() returns (t: Trace)
    ensures Leads(BEGIN, t)
    ensures t.state == State(Serving, InitAwaitConnection, Up, true, Connected, 1, false, true, FirstSet(COMMAND_COUNT))
  {
    hide Leads;
    t := SessionOpening();
    t := Onward(BEGIN, t, StatusCallback(LinkUp));
  }

  /** The peer is reported dead after the link has come up: `ppposInit` returns 1 all the same. */
  lemma InitReturnsOnDeadLink()
    ensures exists schedule, a: Action ::
      && Run(schedule).state.phase == Dead
      && Step(Run(schedule).state, a) == Emit(Run(schedule).state.(user := UserPc.Free), InitReturnedOk)
  {
    hide Leads, Run;
    var t := SessionUp();
    t := Onward(BEGIN, t, StatusCallback(OtherError));
    var schedule := Reached(t);
    assert Step(t.state, User(true)) == Emit(t.state.(user := UserPc.Free), InitReturnedOk);
  }

  /** `ppposInit` returns 1, and then the session is lost. */
  lemma SessionDown() returns (t: Trace)
    ensures Leads(BEGIN, t)
    ensures t.state == State(Serving, UserPc.Free, Dead, true, Disconnected, 1, false, true, FirstSet(COMMAND_COUNT))
  {
    hide Leads;
    t := SessionUp();
    var s := t.state.(user := UserPc.Free);
    t := Onward(BEGIN, t, User(true));
    assert t.state == s;
    t := Onward(BEGIN, t, StatusCallback(LinkDown));
  }

  /** The client notices and starts over. */
  lemma SessionLost() returns (t: Trace)
    ensures Leads(BEGIN, t)
    ensures t.state == State(Initializing(0, 0), UserPc.Free, Dead, true, Idle, 1, false, true, FirstSet(0))
  {
    hide Leads;
    NothingSet();
    t := SessionDown();
    var s := t.state;
    t := Onward(BEGIN, t, Client(true));
    assert t.state == s.(client := CloseLost);
    t := Onward(BEGIN, t, Client(true));
    assert t.state == s.(client := ResetLost);
    t := Onward(BEGIN, t, Client(true));
  }

  /** A disconnect call during the restart of a lost session returns at once, and stops nothing. */
  lemma ImmediateReturnStopsNothing()
    ensures exists schedule, ext :: JustReturned(schedule) && ConnectsUnasked(schedule, ext)
  {
    hide Leads, Run, ConnectsUnasked;
    var t := SessionLost();
    var called := Onward(BEGIN, t, CallDisconnect(true, true));
    var before := Reached(called);
    var schedule := before + [User(true)];
    assert schedule[..|schedule| - 1] == before;
    RunSplits(before, [User(true)]);
    OneStep(called, User(true));
    assert JustReturned(schedule);
    ImmediateReturnExactly(schedule);
  }

  /** A disconnect with `end_task` has the client close the link ... */
  lemma LinkClosed() returns (t: Trace)
    ensures Leads(BEGIN, t)
    ensures t.state == State(AwaitDown(true), DiscAwaitDone(true, false), Closing, true, Connected, 1, false, true, FirstSet(COMMAND_COUNT))
  {
    hide Leads;
    t := SessionUp();
    var s := t.state;
    t := Onward(BEGIN, t, User(true));
    t := Onward(BEGIN, t, CallDisconnect(true, false));
    assert t.state == s.(user := DiscRead(true, false));
    t := Onward(BEGIN, t, User(true));
    t := Onward(BEGIN, t, User(true));
    assert t.state == s.(user := DiscAwaitTaken(true, false), request := -1);
    t := Onward(BEGIN, t, Client(true));
    assert t.state == s.(user := DiscAwaitTaken(true, false), client := CloseRequested(true));
    t := Onward(BEGIN, t, User(true));
    t := Onward(BEGIN, t, Client(true));
  }

  /** ... and leave. */
  lemma TaskLeaving() returns (t: Trace)
    ensures Leads(BEGIN, t)
    ensures t.state == State(Exiting, UserPc.Free, Dead, true, Idle, 0, false, true, FirstSet(0))
  {
    hide Leads;
    NothingSet();
    t := LinkClosed();
    var s := t.state;
    t := Onward(BEGIN, t, StatusCallback(LinkDown));
    t := Onward(BEGIN, t, Client(true));
    s := s.(client := ReadRfOff(true), phase := Dead, status := Disconnected);
    assert t.state == s;
    t := Onward(BEGIN, t, Client(true));
    assert t.state == s.(client := HangingUp(true, false));
    t := Onward(BEGIN, t, Client(true));
    assert t.state == s.(client := Finish(true), skip := FirstSet(0));
    t := Onward(BEGIN, t, Client(true));
    assert t.state == s.(client := Exiting, skip := FirstSet(0), status := Idle, request := 0);
    t := Onward(BEGIN, t, User(true));
  }

  /** The task ends, and `ppposInit` starts it anew; the old pointer is still there. */
  lemma TaskStartedAnew() returns (t: Trace)
    ensures Leads(BEGIN, t)
    ensures t.state == State(Setup, InitAwaitTask, NoBlock, true, FirstInit, 1, false, true, FirstSet(0))
  {
    hide Leads;
    t := TaskLeaving();
    var s := t.state.(client := Absent, phase := NoBlock, status := FirstInit, started := false);
    t := Onward(BEGIN, t, Client(true));
    t := Onward(BEGIN, t, Client(true));
    assert t.state == s;
    t := Onward(BEGIN, t, CallInit);
    t := Onward(BEGIN, t, User(true));
    assert t.state == s.(user := InitCreate, request := 1);
    t := Onward(BEGIN, t, User(true));
    assert t.state == s.(user := InitAwaitTask, request := 1, client := Starting);
    t := Onward(BEGIN, t, Client(true));
  }

  /** The setup of the second task fails: it frees the pointer that the first one has left behind. */
  lemma StaleBlockFreed()
    ensures exists schedule, k: nat :: k < |Run(schedule).log| && Run(schedule).log[k] == Freed(false)
  {
    hide Leads, Run;
    var t := TaskStartedAnew();
    var s := t.state;
    t := Onward(BEGIN, t, Client(false));
    assert t.state == s.(client := Exiting);
    var log := t.log;
    t := Onward(BEGIN, t, Client(true));
    assert t.log == log + [Freed(false)];
    assert t.log[|log|] == Freed(false);
    var schedule := Reached(t);
  }
}
