/** The initialization loop within the runs of the connection manager: whatever the other actors do in
    between, the client leaves it after as many replies, and for the reasons, that the loop by itself
    does; and a task that has given up is over. */
module ConnectionLoop {

  import opened InitLoop
  import opened ConnectionManager
  import opened ConnectionSafety
  import opened ConnectionTheorems
  import opened ConnectionRuns
  import opened ConnectionWaits

  /** How many of some replies are as expected, and how many are not. */
  function Accepts(replies: seq<bool>): nat {
    if replies == [] then 0 else Accepts(replies[..|replies| - 1]) + if replies[|replies| - 1] then 1 else 0
  }

  function Rejects(replies: seq<bool>): nat {
    if replies == [] then 0 else Rejects(replies[..|replies| - 1]) + if replies[|replies| - 1] then 0 else 1
  }

  lemma CountsSnoc(replies: seq<bool>, ok: bool)
    ensures Accepts(replies + [ok]) == Accepts(replies) + if ok then 1 else 0
    ensures Rejects(replies + [ok]) == Rejects(replies) + if ok then 0 else 1
  {
    assert (replies + [ok])[..|replies|] == replies;
  }

  /** The client is in the loop at `t`, and has not left it on the way that `ext` leads. */
  predicate InLoop(t: Trace, ext: seq<Action>) {
    RunFrom(t, ext).state.client.Initializing? && (ext == [] || InLoop(t, ext[..|ext| - 1]))
  }

  /** An action by which the client sends a command; its choice is the verdict on the reply. */
  predicate Sends(s: State, a: Action) {
    a.Client? && s.client.Initializing? && s.client.iter < 9 && !s.skip[s.client.iter]
  }

  /** The verdicts on the replies that the client gets on the way. */
  function Replies(t: Trace, ext: seq<Action>): seq<bool> {
    if ext == [] then []
    else
      var init, a := ext[..|ext| - 1], ext[|ext| - 1];
      Replies(t, init) + if Sends(RunFrom(t, init).state, a) then [a.ok] else []
  }

  /** What the loop keeps, in terms of the replies since it was entered with the flags `skip0`. */
  predicate LoopInv(s: State, skip0: Flags, replies: seq<bool>) {
    && s.client.Initializing? && s.client.iter <= 9
    && s.client.nfail == Rejects(replies) <= 20
    && Accepts(replies) <= |Pending(skip0)|
    && Pending(s.skip) == Pending(skip0)[Accepts(replies)..]
    && forall j :: 0 <= j < s.client.iter ==> s.skip[j]
  }

  /** How the loop ends: the client gives up at the 21st rejected reply, before all that was pending has
      been accepted, or goes on to the link after exactly that has, with at most 20 rejected ones. */
  predicate LoopEnds(s: State, skip0: Flags, replies: seq<bool>) {
    || (s.client.Exiting? && Rejects(replies) == 21 && Accepts(replies) < |Pending(skip0)| && !replies[|replies| - 1])
    || ((s.client.Create? || s.client.SetIdle?) && Rejects(replies) <= 20 && Accepts(replies) == |Pending(skip0)|)
  }

  /** The other actors leave the loop alone. */
  lemma OthersApart(s: State, a: Action)
    requires !a.Client? && s.client.Initializing?
    ensures Step(s, a).next.client == s.client && Step(s, a).next.skip == s.skip
  {
  }

  /** A command that is accepted is the first that was pending. */
  lemma LoopAccepts(s: State, skip0: Flags, replies: seq<bool>)
    requires LoopInv(s, skip0, replies) && s.client.iter < 9 && !s.skip[s.client.iter]
    ensures LoopInv(InitializingStep(s, true).next, skip0, replies + [true])
  {
    hide Pending, Accepts, Rejects;
    CountsSnoc(replies, true);
    AcceptTakesFirst(s.skip, s.client.iter);
    var left, k := Pending(skip0), Accepts(replies);
    assert left[k..][0] == s.client.iter && left[k..][1..] == left[k + 1..];
  }

  lemma LoopRefused(s: State, skip0: Flags, replies: seq<bool>)
    requires LoopInv(s, skip0, replies) && s.client.iter < 9 && !s.skip[s.client.iter]
    ensures var s' := InitializingStep(s, false).next;
      if Rejects(replies) < 20 then LoopInv(s', skip0, replies + [false])
      else s'.client.Exiting? && LoopEnds(s', skip0, replies + [false])
  {
    hide Pending, Accepts, Rejects;
    CountsSnoc(replies, false);
    AcceptTakesFirst(s.skip, s.client.iter);
  }

  lemma LoopPasses(s: State, skip0: Flags, replies: seq<bool>, ok: bool)
    requires LoopInv(s, skip0, replies) && s.client.iter < 9 && s.skip[s.client.iter]
    ensures LoopInv(InitializingStep(s, ok).next, skip0, replies)
  {
    hide Pending, Accepts, Rejects;
  }

  lemma LoopDone(s: State, skip0: Flags, replies: seq<bool>, ok: bool)
    requires LoopInv(s, skip0, replies) && s.client.iter == 9
    ensures LoopEnds(InitializingStep(s, ok).next, skip0, replies)
  {
    hide Pending, Accepts, Rejects;
    AllAccepted(s.skip);
  }

  /** One action, of whichever actor. */
  lemma LoopStep(s: State, skip0: Flags, replies: seq<bool>, a: Action)
    requires LoopInv(s, skip0, replies)
    ensures var s' := Step(s, a).next;
      var replies' := replies + if Sends(s, a) then [a.ok] else [];
      LoopInv(s', skip0, replies') || (!s'.client.Initializing? && LoopEnds(s', skip0, replies'))
  {
    hide Pending, Accepts, Rejects;
    assert replies + [] == replies;
    match a
    case Client(ok) =>
      if s.client.iter == 9 {
        LoopDone(s, skip0, replies, ok);
      } else if s.skip[s.client.iter] {
        LoopPasses(s, skip0, replies, ok);
      } else if ok {
        LoopAccepts(s, skip0, replies);
      } else {
        LoopRefused(s, skip0, replies);
      }
    case _ => OthersApart(s, a);
  }

  lemma LoopStart(s: State)
    requires s.client == Initializing(0, 0)
    ensures LoopInv(s, s.skip, [])
  {
  }

  lemma {:induction false} LoopKeeps(t: Trace, ext: seq<Action>)
    requires t.state.client == Initializing(0, 0) && InLoop(t, ext)
    ensures LoopInv(RunFrom(t, ext).state, t.state.skip, Replies(t, ext))
  {
    hide LoopInv, LoopEnds, Step, Sends;
    if ext == [] {
      LoopStart(t.state);
    } else {
      var init, a := ext[..|ext| - 1], ext[|ext| - 1];
      LoopKeeps(t, init);
      LoopStep(RunFrom(t, init).state, t.state.skip, Replies(t, init), a);
    }
  }

  lemma OneMore(t: Trace, ext: seq<Action>, a: Action)
    ensures RunFrom(t, ext + [a]).state == Step(RunFrom(t, ext).state, a).next
    ensures Replies(t, ext + [a]) == Replies(t, ext) + if Sends(RunFrom(t, ext).state, a) then [a.ok] else []
  {
    hide Step, Sends;
    assert (ext + [a])[..|ext|] == ext;
  }

  /** In every run, from the client's entry into the loop on and whatever the other actors do: as long as
      it is in the loop, fewer than 21 replies have been rejected, and the commands that are left are those
      that were pending without the first ones, as many as were accepted; and with the step by which it
      leaves, it either gives up at exactly the 21st rejected reply, or goes on after exactly the commands
      that were pending have been accepted. */
  lemma LoopInRuns(t: Trace, ext: seq<Action>, a: Action)
    requires t.state.client == Initializing(0, 0) && InLoop(t, ext)
    ensures Rejects(Replies(t, ext)) <= 20 && Accepts(Replies(t, ext)) <= |Pending(t.state.skip)|
    ensures Pending(RunFrom(t, ext).state.skip) == Pending(t.state.skip)[Accepts(Replies(t, ext))..]
    ensures var s', replies := RunFrom(t, ext + [a]).state, Replies(t, ext + [a]);
      !s'.client.Initializing? ==>
        && (s'.client.Exiting? || s'.client.Create? || s'.client.SetIdle?)
        && (s'.client.Exiting? <==> Rejects(replies) == 21)
        && (s'.client.Create? || s'.client.SetIdle? <==>
              Accepts(replies) == |Pending(t.state.skip)| && Rejects(replies) <= 20)
  {
    hide Step, Sends, Accepts, Rejects, Pending, RunFrom, Replies, InLoop, Extend;
    LoopKeeps(t, ext);
    OneMore(t, ext, a);
    LoopStep(RunFrom(t, ext).state, t.state.skip, Replies(t, ext), a);
  }

  /** Whenever the client enters the loop, on the first start and on both restart paths, it starts at the
      first command, without failures, and with all nine commands pending. */
  lemma LoopEntered(schedule: seq<Action>, a: Action)
    requires !Run(schedule).state.client.Initializing? && Run(schedule + [a]).state.client.Initializing?
    ensures Run(schedule + [a]).state.client == Initializing(0, 0)
    ensures Pending(Run(schedule + [a]).state.skip) == [0, 1, 2, 3, 4, 5, 6, 7, 8]
  {
    hide Run, Step, GateInv, LinkInv, RequestInv, QuietInv, TaskInv, Past, Pending;
    RunKeeps(schedule);
    RunSplits(schedule, [a]);
    OneStep(Run(schedule), a);
    EnteredFresh(Run(schedule).state, Past(Run(schedule).log), a);
    AllPending(Run(schedule + [a]).state.skip);
  }

  lemma EnteredFresh(s: State, h: History, a: Action)
    requires GateInv(s, h) && !s.client.Initializing? && Step(s, a).next.client.Initializing?
    ensures Step(s, a).next.client == Initializing(0, 0) && Step(s, a).next.skip == AllClear(COMMAND_COUNT)
  {
    hide GateInv, ClientStep, CallbackStep, InitStep, DisconnectStep;
    match a
    case Client(ok) => ClientEnters(s, h, ok);
    case _ => OnlyClientEnters(s, a);
  }

  lemma ClientEnters(s: State, h: History, ok: bool)
    requires GateInv(s, h) && !s.client.Initializing? && ClientStep(s, ok).next.client.Initializing?
    ensures ClientStep(s, ok).next.client == Initializing(0, 0) && ClientStep(s, ok).next.skip == AllClear(COMMAND_COUNT)
  {
    hide GateInv, SetupStep, ServingStep, ShakeStep, ExitStep;
    match s.client
    case Serving | CloseLost | ResetLost | AwaitInit => ServingEnters(s, h, ok);
    case CloseRequested(_) | AwaitDown(_) | ReadRfOff(_) | HangingUp(_, _) | Finish(_) => OthersStayOut(s, ok);
    case Exiting | Terminating => OthersStayOut(s, ok);
    case _ => SetupEnters(s, ok);
  }

  lemma SetupEnters(s: State, ok: bool)
    requires !s.client.Initializing? && SetupStep(s, ok).next.client.Initializing?
    ensures SetupStep(s, ok).next.client == Initializing(0, 0) && SetupStep(s, ok).next.skip == AllClear(COMMAND_COUNT)
  {
  }

  lemma ServingEnters(s: State, h: History, ok: bool)
    requires GateInv(s, h) && !s.client.Initializing? && ServingStep(s, ok).next.client.Initializing?
    ensures ServingStep(s, ok).next.client == Initializing(0, 0) && ServingStep(s, ok).next.skip == AllClear(COMMAND_COUNT)
  {
  }

  lemma OthersStayOut(s: State, ok: bool)
    requires !s.client.Initializing?
    ensures !ShakeStep(s, ok).next.client.Initializing? && !ExitStep(s).next.client.Initializing?
  {
  }

  lemma OnlyClientEnters(s: State, a: Action)
    requires !a.Client? && !s.client.Initializing?
    ensures !Step(s, a).next.client.Initializing?
  {
  }

  lemma {:induction false} AllPendingFrom(skip: Flags, i: nat)
    requires i <= 9 && skip == AllClear(9)
    ensures PendingFrom(skip, i) == seq(9 - i, k requires 0 <= k < 9 - i => i + k)
    decreases 9 - i
  {
    if i < 9 {
      AllPendingFrom(skip, i + 1);
    }
  }

  lemma AllPending(skip: Flags)
    requires skip == AllClear(COMMAND_COUNT)
    ensures Pending(skip) == [0, 1, 2, 3, 4, 5, 6, 7, 8]
  {
    AllPendingFrom(skip, 0);
  }

  // ---- Giving up -----------------------------------------------------------------------------

  /** The modem can reject command after command, however many it has accepted before. */
  lemma {:induction false} RejectOn(t0: Trace, t: Trace, p: nat) returns (t': Trace)
    requires Leads(t0, t) && p < 9 && t.state.skip == FirstSet(p)
    requires t.state.client.Initializing? && t.state.client.iter <= p && t.state.client.nfail <= 20
    ensures Leads(t0, t') && t'.state == t.state.(client := Exiting) && t'.log == t.log
    decreases 20 - t.state.client.nfail, p - t.state.client.iter
  {
    hide Leads;
    var iter, nfail := t.state.client.iter, t.state.client.nfail;
    t' := Onward(t0, t, Client(false));
    if iter < p {
      assert t'.state == t.state.(client := Initializing(iter + 1, nfail));
      t' := RejectOn(t0, t', p);
    } else if nfail < 20 {
      assert t'.state == t.state.(client := Initializing(0, nfail + 1));
      t' := RejectOn(t0, t', p);
    }
  }

  /** The task is over, up to the start of a new one. */
  predicate Gone(s: State) {
    && (Leaving(s.client) || s.client.Starting?)
    && (s.phase == NoBlock || s.phase == Dead) && AtRest(s.status)
  }

  lemma GoneStep(s: State, a: Action)
    requires Gone(s)
    ensures match Step(s, a)
            case Silent(next) => Gone(next)
            case Emit(next, e) => e.TaskStarted? || (!e.Connect? && !e.CameUp? && !e.InitReturnedOk? && Gone(next))
  {
  }

  lemma {:induction false} GoneLong(t: Trace, ext: seq<Action>)
    requires Gone(t.state)
    ensures var t' := RunFrom(t, ext);
      && t.log <= t'.log
      && (Gone(t'.state) || !NoTaskStart(t'.log, |t.log|, |t'.log|))
      && forall c :: |t.log| <= c < |t'.log| && (t'.log[c].Connect? || t'.log[c].CameUp? || t'.log[c].InitReturnedOk?) ==>
           !NoTaskStart(t'.log, |t.log|, c)
  {
    hide Step, Gone;
    LogGrows(t, ext);
    if ext != [] {
      var before, a := RunFrom(t, ext[..|ext| - 1]), ext[|ext| - 1];
      GoneLong(t, ext[..|ext| - 1]);
      var log, log' := before.log, RunFrom(t, ext).log;
      if Gone(before.state) {
        GoneStep(before.state, a);
        if !Gone(RunFrom(t, ext).state) {
          assert log'[|log|].TaskStarted?;
        }
      } else {
        var i :| |t.log| <= i < |log| && log[i].TaskStarted?;
        assert log'[i].TaskStarted?;
      }
      forall c | |t.log| <= c < |log'| && (log'[c].Connect? || log'[c].CameUp? || log'[c].InitReturnedOk?)
        ensures !NoTaskStart(log', |t.log|, c)
      {
        if c < |log| {
          assert log[c] == log'[c];
          var i :| |t.log| <= i < c && log[i].TaskStarted?;
          assert log'[i].TaskStarted?;
        } else if !Gone(before.state) {
          var i :| |t.log| <= i < |log| && log[i].TaskStarted?;
          assert log'[i].TaskStarted?;
        }
      }
    }
  }

  lemma ExitingIsGone(s: State, h: History)
    requires LinkInv(s, h) && s.client.Exiting?
    ensures Gone(s)
  {
  }

  /** The task does no more: after it has given up, or was told to end, or has failed in its setup, no
      continuation of the run connects, comes up or has `ppposInit` return 1 before a task is started. */
  lemma GivenUp(schedule: seq<Action>, ext: seq<Action>, c: nat)
    requires Run(schedule).state.client.Exiting? && |Run(schedule).log| <= c < |Run(schedule + ext).log|
    requires var e := Run(schedule + ext).log[c]; e.Connect? || e.CameUp? || e.InitReturnedOk?
    ensures exists i :: |Run(schedule).log| <= i < c && Run(schedule + ext).log[i].TaskStarted?
  {
    hide Run, Gone, GateInv, LinkInv, RequestInv, QuietInv, TaskInv, Past;
    RunKeeps(schedule);
    ExitingIsGone(Run(schedule).state, Past(Run(schedule).log));
    RunSplits(schedule, ext);
    GoneLong(Run(schedule), ext);
  }

  /** The task ends, and a waiting `ppposInit` returns 0. */
  lemma ExitReturnsZero(t0: Trace, t: Trace) returns (t': Trace)
    requires Leads(t0, t) && t.state.client.Exiting? && t.state.user.InitAwaitConnection?
    ensures Leads(t0, t') && t'.state.user.Free? && t'.state.client.Absent?
    ensures t.log <= t'.log && t'.log[|t.log|..] == (if t.state.pppSet then [Freed(t.state.phase != NoBlock)] else []) + [TaskEnded, InitReturnedZero]
  {
    hide Leads;
    t' := Onward(t0, t, Client(true));
    assert t'.state.user == t.state.user && t'.state.client.Terminating?;
    var freed := if t.state.pppSet then [Freed(t.state.phase != NoBlock)] else [];
    assert t'.log == t.log + freed;
    t' := Onward(t0, t', Client(true));
    assert t'.state.user == t.state.user && !t'.state.started;
    t' := Onward(t0, t', User(true));
    assert t'.log == t.log + (freed + [TaskEnded, InitReturnedZero]);
  }

  /** From the 21st rejected reply on: the client is on its way out, a waiting `ppposInit` has a run to its
      return with 0, and nothing is ever opened by this task any more. */
  lemma TwentyOneRejected(schedule: seq<Action>, ext: seq<Action>, a: Action)
    requires Run(schedule).state.client == Initializing(0, 0) && InLoop(Run(schedule), ext)
    requires Rejects(Replies(Run(schedule), ext + [a])) == 21
    ensures Run(schedule + (ext + [a])).state.client.Exiting?
    ensures Run(schedule + (ext + [a])).state.user.InitAwaitConnection? ==>
      exists more :: Run(schedule + (ext + [a]) + more).state.user.Free?
        && |Run(schedule + (ext + [a])).log| < |Run(schedule + (ext + [a]) + more).log|
        && Run(schedule + (ext + [a]) + more).log[|Run(schedule + (ext + [a]) + more).log| - 1] == InitReturnedZero
  {
    hide Run, RunFrom, Step, Replies, InLoop, Rejects, Accepts, Pending;
    var t := Run(schedule);
    RunSplits(schedule, ext + [a]);
    StillInLoop(t, ext, a);
    var out := Run(schedule + (ext + [a]));
    if out.state.user.InitAwaitConnection? {
      NoStep(out);
      var back := ExitReturnsZero(out, out);
      var more :| RunFrom(out, more) == back;
      RunSplits(schedule + (ext + [a]), more);
      assert back.log[|back.log| - 1] == back.log[|out.log|..][|back.log| - 1 - |out.log|];
    }
  }

  lemma StillInLoop(t: Trace, ext: seq<Action>, a: Action)
    requires t.state.client == Initializing(0, 0) && InLoop(t, ext)
    requires Rejects(Replies(t, ext + [a])) == 21
    ensures RunFrom(t, ext + [a]).state.client.Exiting?
  {
    hide Step, Sends, Accepts, Rejects, Pending, Replies, InLoop;
    LoopInRuns(t, ext, a);
    InLoopNext(t, ext, a);
    if RunFrom(t, ext + [a]).state.client.Initializing? {
      LoopInRuns(t, ext + [a], a);
    }
  }

  lemma InLoopNext(t: Trace, ext: seq<Action>, a: Action)
    requires InLoop(t, ext)
    ensures RunFrom(t, ext + [a]).state.client.Initializing? ==> InLoop(t, ext + [a])
  {
    assert (ext + [a])[..|ext|] == ext;
  }

  /** A modem that rejects everything: `ppposInit` returns 0, and nothing was opened. */
  lemma ModemSilent()
    ensures exists schedule ::
      Run(schedule).log == [InitCalled, TaskStarted, HungUp(true), TaskEnded, InitReturnedZero]
  {
    hide Leads, Run;
    NothingSet();
    var t := TaskReadyLog();
    t := RejectOn(BEGIN, t, 0);
    t := ExitReturnsZero(BEGIN, t);
    var log := [InitCalled, TaskStarted, HungUp(true)];
    assert t.log == log + t.log[3..] == log + ([] + [TaskEnded, InitReturnedZero]);
    assert log + ([] + [TaskEnded, InitReturnedZero]) == [InitCalled, TaskStarted, HungUp(true), TaskEnded, InitReturnedZero];
    var schedule := Reached(t);
  }

  /** The task at the entry of the loop, with what has happened so far. */
  lemma TaskReadyLog() returns (t: Trace)
    ensures Leads(BEGIN, t)
    ensures t.state == State(Initializing(0, 0), InitAwaitConnection, NoBlock, false, FirstInit, 1, false, true, FirstSet(0))
    ensures t.log == [InitCalled, TaskStarted, HungUp(true)]
  {
    hide Leads;
    NothingSet();
    var s := Start();
    NoStep(BEGIN);
    t := Onward(BEGIN, BEGIN, CallInit);
    t := Onward(BEGIN, t, User(true));
    assert t == Trace(s.(user := InitCreate), [InitCalled]);
    t := Onward(BEGIN, t, User(true));
    t := Onward(BEGIN, t, Client(true));
    assert t == Trace(s.(user := InitAwaitTask, client := Setup, started := true), [InitCalled, TaskStarted]);
    t := Onward(BEGIN, t, User(true));
    t := Onward(BEGIN, t, Client(true));
    assert t == Trace(s.(user := InitAwaitConnection, client := FirstReset, started := true), [InitCalled, TaskStarted, HungUp(true)]);
    t := Onward(BEGIN, t, Client(true));
  }

  /** The control block cannot be created: `ppposInit` returns 0, and nothing was opened or freed. */
  lemma CreationFails()
    ensures exists schedule ::
      var log := Run(schedule).log;
      && |log| > 2 && log[|log| - 2] == TaskEnded && log[|log| - 1] == InitReturnedZero
      && forall i :: 0 <= i < |log| ==> !log[i].Created? && !log[i].Connect? && !log[i].Freed?
  {
    hide Leads, Run;
    var ready := TaskReadyLog();
    var t := AcceptRest(BEGIN, ready, 0);
    var s, log := t.state, t.log;
    t := Onward(BEGIN, t, Client(true));
    assert t == Trace(s.(client := Create), log);
    t := Onward(BEGIN, t, Client(false));
    assert t == Trace(s.(client := Exiting), log);
    t := ExitReturnsZero(BEGIN, t);
    assert t.log == log + t.log[|log|..] == log + ([] + [TaskEnded, InitReturnedZero]);
    var schedule := Reached(t);
  }

  /** The mutex cannot be created: `ppposInit` returns 0 without having started a task. */
  lemma MutexFails()
    ensures exists schedule :: Run(schedule).log == [InitCalled, InitReturnedZero]
  {
    hide Leads, Run;
    var s := Start();
    NoStep(BEGIN);
    var t := Onward(BEGIN, BEGIN, CallInit);
    t := Onward(BEGIN, t, User(true));
    assert t == Trace(s.(user := InitCreate), [InitCalled]);
    t := Onward(BEGIN, t, User(false));
    var schedule := Reached(t);
  }
}
