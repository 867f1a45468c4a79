/** What every run of the connection manager keeps, stated on the log of events. */
module ConnectionTheorems {

  import opened InitLoop
  import opened ConnectionManager
  import opened ConnectionSafety

  function Range(n: nat): (r: seq<nat>)
    ensures |r| == n && forall i :: 0 <= i < n ==> r[i] == i
  {
    seq(n, i => i)
  }

  /** The commands that a stretch of the log accepts, in order. */
  function Commands(log: seq<Event>): seq<nat> {
    if log == [] then []
    else
      var last := log[|log| - 1];
      Commands(log[..|log| - 1]) + if last.Accepted? then [last.cmd] else []
  }

  /** The client's own events in a stretch of the log, in order. */
  function ClientEvents(log: seq<Event>): seq<Event> {
    if log == [] then []
    else
      var last := log[|log| - 1];
      ClientEvents(log[..|log| - 1]) + if IsClientEvent(last) then [last] else []
  }

  // No event of a kind between two points of the log.

  ghost predicate NoTaskEnd(log: seq<Event>, lo: nat, hi: nat)
    requires hi <= |log|
  {
    forall i :: lo <= i < hi ==> !log[i].TaskEnded?
  }

  ghost predicate NoReset(log: seq<Event>, lo: nat, hi: nat)
    requires hi <= |log|
  {
    forall i :: lo <= i < hi ==> !IsReset(log[i])
  }

  ghost predicate NoConnect(log: seq<Event>, lo: nat, hi: nat)
    requires hi <= |log|
  {
    forall i :: lo <= i < hi ==> !log[i].Connect?
  }

  ghost predicate NoInitCall(log: seq<Event>, lo: nat, hi: nat)
    requires hi <= |log|
  {
    forall i :: lo <= i < hi ==> !log[i].InitCalled?
  }

  ghost predicate NoTaskStart(log: seq<Event>, lo: nat, hi: nat)
    requires hi <= |log|
  {
    forall i :: lo <= i < hi ==> !log[i].TaskStarted?
  }

  ghost predicate NoPost(log: seq<Event>, lo: nat, hi: nat)
    requires hi <= |log|
  {
    forall i :: lo <= i < hi ==> !log[i].Posted?
  }

  ghost predicate NoLoss(log: seq<Event>, lo: nat, hi: nat)
    requires hi <= |log|
  {
    forall i :: lo <= i < hi ==> !log[i].WentDown?
  }

  ghost predicate NoFailure(log: seq<Event>, lo: nat, hi: nat)
    requires hi <= |log|
  {
    forall i :: lo <= i < hi ==> !log[i].LinkFailed?
  }

  ghost predicate NoRise(log: seq<Event>, lo: nat, hi: nat)
    requires hi <= |log|
  {
    forall i :: lo <= i < hi ==> !log[i].CameUp?
  }

  ghost predicate NoLinkEnd(log: seq<Event>, lo: nat, hi: nat)
    requires hi <= |log|
  {
    forall i :: lo <= i < hi ==> !EndsLink(log[i])
  }

  // ---- What the summary of the past means ------------------------------------------------------

  /** `accepted == InOrder(n)`: since the last start of the task or closing of the link, exactly
      the first `n` commands were accepted, in table order. */
  lemma {:induction false} AcceptedMeaning(log: seq<Event>) returns (from: nat)
    requires Past(log).accepted.InOrder?
    ensures from <= |log|
    ensures from == 0 || IsReset(log[from - 1])
    ensures NoReset(log, from, |log|)
    ensures Commands(log[from..]) == Range(Past(log).accepted.n)
  {
    if log == [] {
      return 0;
    }
    var init, last := log[..|log| - 1], log[|log| - 1];
    if IsReset(last) {
      return |log|;
    }
    from := AcceptedMeaning(init);
    assert log[from..][..|log| - 1 - from] == init[from..];
    assert forall i :: from <= i < |init| ==> log[i] == init[i];
  }

  /** A finished disconnect is forgotten only by a call of `ppposInit`, the intention to end only
      by the start of a task, a created control block likewise. */
  lemma {:induction false} Forgetting(log: seq<Event>, lo: nat, hi: nat)
    requires lo <= hi <= |log|
    ensures Past(log[..lo]).quiet && !Past(log[..hi]).quiet ==> !NoInitCall(log, lo, hi)
    ensures Past(log[..lo]).ending && !Past(log[..hi]).ending ==> !NoTaskStart(log, lo, hi)
    ensures Past(log[..lo]).created && !Past(log[..hi]).created ==> !NoTaskStart(log, lo, hi)
    decreases hi
  {
    if lo < hi {
      Forgetting(log, lo, hi - 1);
      assert log[..hi] == log[..hi - 1] + [log[hi - 1]];
      PastSnoc(log[..hi - 1], log[hi - 1]);
    }
  }

  /** `quiet`: a disconnect has finished, and `ppposInit` has not been called since. */
  lemma {:induction false} QuietMeaning(log: seq<Event>)
    ensures Past(log).quiet <==> exists f: nat :: f < |log| && log[f].Finished? && NoInitCall(log, f, |log|)
  {
    if log != [] {
      var init, last := log[..|log| - 1], log[|log| - 1];
      QuietMeaning(init);
      assert forall i :: 0 <= i < |init| ==> log[i] == init[i];
      forall f: nat | f < |log| && log[f].Finished? && NoInitCall(log, f, |log|) ensures Past(log).quiet {
        if f < |init| {
          assert NoInitCall(init, f, |init|);
        }
      }
      if last.Finished? {
        assert NoInitCall(log, |log| - 1, |log|);
      } else if Past(log).quiet {
        var f: nat :| f < |init| && init[f].Finished? && NoInitCall(init, f, |init|);
        assert NoInitCall(log, f, |log|);
      }
    }
  }

  /** `alive`: a link has come up, and nothing has ended it since. */
  lemma {:induction false} AliveMeaning(log: seq<Event>)
    ensures Past(log).alive <==> exists u: nat :: u < |log| && log[u].CameUp? && NoLinkEnd(log, u, |log|)
  {
    if log != [] {
      var init, last := log[..|log| - 1], log[|log| - 1];
      AliveMeaning(init);
      assert forall i :: 0 <= i < |init| ==> log[i] == init[i];
      forall u: nat | u < |log| && log[u].CameUp? && NoLinkEnd(log, u, |log|) ensures Past(log).alive {
        if u < |init| {
          assert NoLinkEnd(init, u, |init|);
        }
      }
      if last.CameUp? {
        assert NoLinkEnd(log, |log| - 1, |log|);
      } else if Past(log).alive {
        var u: nat :| u < |init| && init[u].CameUp? && NoLinkEnd(init, u, |init|);
        assert NoLinkEnd(log, u, |log|);
      }
    }
  }

  /** `post`: the last request that was posted. */
  lemma {:induction false} PostMeaning(log: seq<Event>) returns (p: nat)
    requires Past(log).post.Post?
    ensures p < |log| && log[p] == Posted(Past(log).post.endTask, Past(log).post.rf)
    ensures NoPost(log, p + 1, |log|)
  {
    var init, last := log[..|log| - 1], log[|log| - 1];
    if last.Posted? {
      return |log| - 1;
    }
    p := PostMeaning(init);
    assert forall i :: 0 <= i < |init| ==> log[i] == init[i];
  }

  /** `shake`: what the client has done from taking the last posted request on. */
  lemma {:induction false} ShakeMeaning(log: seq<Event>) returns (t: nat, f: nat)
    requires Past(log).shake.Taken?
    ensures t < f <= |log| && (!Past(log).shake.finished ==> f == |log|)
    ensures log[t].Take? && ClientEvents(log[t..f]) == Past(log).shake.events
    ensures NoPost(log, t, |log|)
    ensures NoConnect(log, f, |log|)
  {
    hide Past, Observe, ClientEvents;
    PastShake(log);
    var init, last := log[..|log| - 1], log[|log| - 1];
    assert forall i :: 0 <= i < |init| ==> log[i] == init[i];
    if Past(init).shake.NotTaken? {
      t, f := |log| - 1, |log|;
      ClientEventsLast(log, t);
      ClientEventsNil();
    } else {
      t, f := ShakeMeaning(init);
      assert log[t..f] == init[t..f];
      if !Past(init).shake.finished {
        f := |log|;
        ClientEventsLast(log, t);
      }
    }
  }

  /** The client's events in the last stretch of a log, and in that stretch without its last event. */
  lemma ClientEventsLast(log: seq<Event>, t: nat)
    requires t < |log|
    ensures var n := |log| - 1;
      && ClientEvents(log[t..|log|]) == ClientEvents(log[..n][t..n]) + (if IsClientEvent(log[n]) then [log[n]] else [])
      && (t == n ==> log[..n][t..n] == [])
  {
    hide ClientEvents;
    var n := |log| - 1;
    assert log[t..|log|] == log[..n][t..n] + [log[n]];
    ClientEventsSnoc(log[..n][t..n], log[n]);
  }

  lemma PastShake(log: seq<Event>)
    ensures log == [] ==> Past(log).shake.NotTaken?
    ensures log != [] ==> Past(log).shake == NextShake(Past(log[..|log| - 1]).shake, log[|log| - 1])
  {
  }

  lemma ClientEventsNil()
    ensures ClientEvents([]) == []
  {
  }

  lemma ClientEventsSnoc(log: seq<Event>, e: Event)
    ensures ClientEvents(log + [e]) == ClientEvents(log) + if IsClientEvent(e) then [e] else []
  {
    assert (log + [e])[..|log|] == log;
  }

  // ---- Theorems ------------------------------------------------------------------------------

  /** Any event of any run is justified by its past. */
  lemma EventJustified(schedule: seq<Action>, k: nat)
    requires k < |Run(schedule).log|
    ensures Justified(Past(Run(schedule).log[..k]), Run(schedule).log[k])
  {
    RunKeeps(schedule);
  }

  /** The link is opened only after all commands were accepted, each once and in table order,
      since the task started or the link was last closed. */
  lemma ConnectGated(schedule: seq<Action>, k: nat)
    requires k < |Run(schedule).log| && Run(schedule).log[k].Connect?
    ensures var log := Run(schedule).log;
      exists from: nat :: from <= k
        && (from == 0 || IsReset(log[from - 1])) && NoReset(log, from, k)
        && Commands(log[from..k]) == [0, 1, 2, 3, 4, 5, 6, 7, 8]
  {
    EventJustified(schedule, k);
    var log := Run(schedule).log;
    var from := AcceptedMeaning(log[..k]);
    assert Range(COMMAND_COUNT) == [0, 1, 2, 3, 4, 5, 6, 7, 8];
    assert log[..k][from..] == log[from..k];
    assert forall i :: 0 <= i < k ==> log[..k][i] == log[i];
  }

  /** A disconnect call that posted a request and returned has had the client take that request,
      close the link, see it down, hang up the modem with the `rfoff` of the call and finish, in
      this order and with nothing else in between; the client has not connected since. */
  lemma DisconnectHandshake(schedule: seq<Action>, r: nat)
    requires r < |Run(schedule).log| && Run(schedule).log[r].Returned?
    ensures var log := Run(schedule).log;
      exists p: nat, t: nat, f: nat :: p < t < f <= r
        && log[p].Posted? && NoPost(log, p + 1, r)
        && ClientEvents(log[t..f]) == FullShake(log[p].endTask, log[p].rf)
        && NoConnect(log, t, r)
  {
    hide Past, Observe, Run, Extend, ClientEvents;
    EventJustified(schedule, r);
    var log := Run(schedule).log;
    var p := PostMeaning(log[..r]);
    var t, f := ShakeMeaning(log[..r]);
    assert forall i :: 0 <= i < r ==> log[..r][i] == log[i];
    assert log[..r][t..f] == log[t..f];
    assert p < t by {
      assert log[..r][p].Posted?;
    }
    NoConnectAmong(log, t, f, log[p].endTask, log[p].rf);
    assert NoConnect(log, t, r);
  }

  lemma NoConnectAmong(log: seq<Event>, t: nat, f: nat, endTask: bool, rf: bool)
    requires t <= f <= |log| && ClientEvents(log[t..f]) == FullShake(endTask, rf)
    ensures NoConnect(log, t, f)
  {
    forall i | t <= i < f ensures !log[i].Connect? {
      if IsClientEvent(log[i]) {
        FilterHas(log[t..f], i - t);
      }
    }
  }

  lemma {:induction false} FilterHas(log: seq<Event>, i: nat)
    requires i < |log| && IsClientEvent(log[i])
    ensures log[i] in ClientEvents(log)
  {
    if i < |log| - 1 {
      FilterHas(log[..|log| - 1], i);
    }
  }

  /** After such a return the client does not connect before `ppposInit` is called again, and not
      before a new task is started if the request was to end the task. */
  lemma QuietAfterDisconnect(schedule: seq<Action>, p: nat, r: nat, c: nat)
    requires var log := Run(schedule).log;
      && p < r < c < |log| && log[r].Returned? && log[c].Connect?
      && log[p].Posted? && NoPost(log, p + 1, r)
    ensures var log := Run(schedule).log;
      && (exists i :: r < i < c && log[i].InitCalled?)
      && (log[p].endTask ==> exists i :: r < i < c && log[i].TaskStarted?)
  {
    hide Past, Observe, Run, Extend;
    EventJustified(schedule, r);
    EventJustified(schedule, c);
    var log := Run(schedule).log;
    Forgetting(log, r, c);
    var q := PostMeaning(log[..r]);
    assert forall i :: 0 <= i < r ==> log[..r][i] == log[i];
    assert q == p by {
      assert log[q].Posted? && log[..r][p].Posted?;
    }
  }

  /** All commands were accepted from `from` to `c`, where the link was opened; it came up last at `u`,
      and up to `r` it has neither been closed by the client nor reported down. */
  ghost predicate GatedSession(log: seq<Event>, from: nat, c: nat, u: nat, r: nat) {
    && from <= c < u < r <= |log|
    && (from == 0 || IsReset(log[from - 1])) && NoReset(log, from, r)
    && log[c].Connect? && Commands(log[from..c]) == [0, 1, 2, 3, 4, 5, 6, 7, 8]
    && log[u].CameUp? && NoRise(log, u + 1, r) && NoLoss(log, u, r)
  }

  lemma SessionGated(schedule: seq<Action>, r: nat) returns (from: nat, c: nat, u: nat)
    requires r <= |Run(schedule).log| && Past(Run(schedule).log[..r]).up
    ensures GatedSession(Run(schedule).log, from, c, u, r)
  {
    hide Run, Past, Commands;
    var log := Run(schedule).log;
    u := UpMeaning(log[..r]);
    assert forall i :: 0 <= i < r ==> log[..r][i] == log[i];
    c := UpAfterConnect(schedule, u);
    ConnectGated(schedule, c);
    from :| from <= c
      && (from == 0 || IsReset(log[from - 1])) && NoReset(log, from, c)
      && Commands(log[from..c]) == [0, 1, 2, 3, 4, 5, 6, 7, 8];
  }

  /** When `ppposInit` returns 1, the session it saw was opened after a complete initialization,
      on the first start and on both restart paths. */
  lemma InitObservesGatedSession(schedule: seq<Action>, r: nat)
    requires r < |Run(schedule).log| && Run(schedule).log[r].InitReturnedOk?
    ensures exists from: nat, c: nat, u: nat :: GatedSession(Run(schedule).log, from, c, u, r)
  {
    EventJustified(schedule, r);
    var from, c, u := SessionGated(schedule, r);
  }

  /** The link is up exactly if it has come up and since then nothing has ended it: no start of the
      task, no closing, no report of its end, and no other error. */
  lemma LinkUpExactly(schedule: seq<Action>)
    ensures var t := Run(schedule);
      t.state.phase == Up <==> exists u: nat :: u < |t.log| && t.log[u].CameUp? && NoLinkEnd(t.log, u, |t.log|)
  {
    hide GateInv, LinkInv, RequestInv, QuietInv, Run, Past;
    RunKeeps(schedule);
    LinkHistory(Run(schedule).state, Past(Run(schedule).log));
    AliveMeaning(Run(schedule).log);
  }

  /** In a session that the client has not closed, the status CONNECTED is true of the link if and only
      if no error other than PPPERR_USER and PPPERR_CONNECT has been reported since it came up: such an
      error ends the link but not the status. */
  lemma ConnectedExactly(schedule: seq<Action>)
    requires Run(schedule).state.status == Connected && !Run(schedule).state.client.AwaitDown?
    ensures var t := Run(schedule); exists from: nat, c: nat, u: nat ::
      GatedSession(t.log, from, c, u, |t.log|) && (t.state.phase == Up <==> NoFailure(t.log, u, |t.log|))
  {
    var t := Run(schedule);
    var r := |t.log|;
    assert t.log[..r] == t.log;
    ConnectedIsUp(schedule);
    var from, c, u := SessionGated(schedule, r);
    LinkUpExactly(schedule);
    if NoFailure(t.log, u, r) {
      assert NoLinkEnd(t.log, u, r);
    }
    if t.state.phase == Up {
      var v: nat :| v < r && t.log[v].CameUp? && NoLinkEnd(t.log, v, r);
      assert v <= u;
    }
  }

  lemma ConnectedIsUp(schedule: seq<Action>)
    requires Run(schedule).state.status == Connected && !Run(schedule).state.client.AwaitDown?
    ensures Past(Run(schedule).log).up
  {
    hide GateInv, LinkInv, RequestInv, QuietInv, Run, Past;
    RunKeeps(schedule);
    LinkHistory(Run(schedule).state, Past(Run(schedule).log));
  }

  /** What the invariant says of the link's history. */
  lemma LinkHistory(s: State, h: History)
    requires LinkInv(s, h)
    ensures s.status == Connected && !s.client.AwaitDown? ==> h.up
    ensures s.phase == Up <==> h.alive
  {
  }

  /** So it is when `ppposInit` returns 1. */
  lemma InitReturnsExactly(schedule: seq<Action>, a: Action)
    requires Step(Run(schedule).state, a).Emit? && Step(Run(schedule).state, a).event == InitReturnedOk
    ensures var t := Run(schedule); exists from: nat, c: nat, u: nat ::
      GatedSession(t.log, from, c, u, |t.log|) && (t.state.phase == Up <==> NoFailure(t.log, u, |t.log|))
  {
    RunKeeps(schedule);
    InitReturns(Run(schedule).state, Past(Run(schedule).log), a);
    ConnectedExactly(schedule);
  }

  lemma InitReturns(s: State, h: History, a: Action)
    requires RequestInv(s, h) && Step(s, a).Emit? && Step(s, a).event == InitReturnedOk
    ensures s.status == Connected && !s.client.AwaitDown?
  {
  }

  /** A link comes up only after it was opened. */
  lemma UpAfterConnect(schedule: seq<Action>, u: nat) returns (c: nat)
    requires u < |Run(schedule).log| && Run(schedule).log[u].CameUp?
    ensures c < u && Run(schedule).log[c].Connect? && NoReset(Run(schedule).log, c, u)
  {
    EventJustified(schedule, u);
    var log := Run(schedule).log;
    c := ConnectMeaning(log[..u]);
    assert forall i :: 0 <= i < u ==> log[..u][i] == log[i];
  }

  lemma {:induction false} UpMeaning(log: seq<Event>) returns (u: nat)
    requires Past(log).up
    ensures u < |log| && log[u].CameUp? && NoRise(log, u + 1, |log|)
    ensures NoReset(log, u, |log|) && NoLoss(log, u, |log|)
  {
    var init, last := log[..|log| - 1], log[|log| - 1];
    if last.CameUp? {
      return |log| - 1;
    }
    u := UpMeaning(init);
    assert forall i :: 0 <= i < |init| ==> log[i] == init[i];
  }

  lemma {:induction false} ConnectMeaning(log: seq<Event>) returns (c: nat)
    requires Past(log).connecting
    ensures c < |log| && log[c].Connect? && NoReset(log, c, |log|)
  {
    var init, last := log[..|log| - 1], log[|log| - 1];
    if last.Connect? {
      return |log| - 1;
    }
    c := ConnectMeaning(init);
    assert forall i :: 0 <= i < |init| ==> log[i] == init[i];
  }

  /** The changes of `gsm_status` that the design allows, and who makes them: the callback may also
      run within the client's closing of a dead link. */
  predicate Allowed(s: State, to: Status, a: Action) {
    match (s.status, to)
    case (FirstInit, Idle) => a.Client? && s.client.SetIdle?
    case (Idle, Connected) => a.StatusCallback? && s.phase == Opening
    case (Idle, Disconnected) => ReportsEnd(s, a)
    case (Connected, Disconnected) => ReportsEnd(s, a)
    case (Disconnected, Idle) => a.Client? && (s.client.Finish? || s.client.ResetLost?)
    case (Idle, FirstInit) => a.Client? && s.client.Terminating?
    case _ => false
  }

  predicate ReportsEnd(s: State, a: Action) {
    || (a == StatusCallback(LinkDown) && s.phase != NoBlock && s.phase != Dead)
    || (a.Client? && s.client.CloseRequested? && s.phase == Dead)
  }

  lemma ClientStatus(s: State, h: History, ok: bool)
    requires LinkInv(s, h)
    ensures var s' := ClientStep(s, ok).next;
      s'.status != s.status ==> Allowed(s, s'.status, Client(ok))
  {
  }

  lemma CallbackStatus(s: State, h: History, kind: Callback)
    requires LinkInv(s, h)
    ensures var s' := CallbackStep(s, kind).next;
      s'.status != s.status ==> Allowed(s, s'.status, StatusCallback(kind))
  {
  }

  lemma StepStatus(s: State, h: History, a: Action)
    requires LinkInv(s, h)
    ensures var s' := Step(s, a).next;
      s'.status != s.status ==> Allowed(s, s'.status, a)
  {
    hide LinkInv, Allowed, ClientStep, CallbackStep;
    match a
    case Client(ok) => ClientStatus(s, h, ok);
    case StatusCallback(kind) => CallbackStatus(s, h, kind);
    case _ =>
  }

  lemma ConnectedHasBlock(s: State, h: History)
    requires LinkInv(s, h) && s.status == Connected
    ensures s.phase != NoBlock && s.pppSet && s.started
  {
  }

  /** Every change of the status, in any interleaving, is an allowed one, and the control block
      exists whenever the status is CONNECTED. */
  lemma StatusSafety(schedule: seq<Action>, a: Action)
    ensures var s, s' := Run(schedule).state, Run(schedule + [a]).state;
      && (s'.status != s.status ==> Allowed(s, s'.status, a))
      && (s.status == Connected ==> s.phase != NoBlock && s.pppSet && s.started)
  {
    hide GateInv, LinkInv, RequestInv, QuietInv, Allowed, Step;
    RunKeeps(schedule);
    assert (schedule + [a])[..|schedule|] == schedule;
    var t := Run(schedule);
    StepStatus(t.state, Past(t.log), a);
    if t.state.status == Connected {
      ConnectedHasBlock(t.state, Past(t.log));
    }
  }

  /** A task run creates at most one control block, and frees a live one if and only if it has
      created it. */
  lemma OneBlockPerRun(schedule: seq<Action>, i: nat, j: nat)
    requires i < j < |Run(schedule).log| && Run(schedule).log[i].Created? && Run(schedule).log[j].Created?
    ensures !NoTaskStart(Run(schedule).log, i, j)
  {
    EventJustified(schedule, j);
    var log := Run(schedule).log;
    assert log[..i + 1] == log[..i] + [log[i]];
    PastSnoc(log[..i], log[i]);
    Forgetting(log, i + 1, j);
  }

  lemma {:induction false} CreatedMeaning(log: seq<Event>)
    ensures Past(log).created <==> exists i: nat :: i < |log| && log[i].Created? && NoTaskStart(log, i, |log|)
  {
    if log != [] {
      var init, last := log[..|log| - 1], log[|log| - 1];
      CreatedMeaning(init);
      assert forall i :: 0 <= i < |init| ==> log[i] == init[i];
      forall i: nat | i < |log| && log[i].Created? && NoTaskStart(log, i, |log|) ensures Past(log).created {
        if i < |init| {
          assert NoTaskStart(init, i, |init|);
        }
      }
      if last.Created? {
        assert NoTaskStart(log, |log| - 1, |log|);
      } else if Past(log).created {
        var i: nat :| i < |init| && init[i].Created? && NoTaskStart(init, i, |init|);
        assert NoTaskStart(log, i, |log|);
      }
    }
  }

  lemma {:induction false} FreedMeaning(log: seq<Event>)
    ensures Past(log).freed <==> exists i: nat :: i < |log| && log[i].Freed? && NoTaskStart(log, i, |log|)
  {
    if log != [] {
      var init, last := log[..|log| - 1], log[|log| - 1];
      FreedMeaning(init);
      assert forall i :: 0 <= i < |init| ==> log[i] == init[i];
      forall i: nat | i < |log| && log[i].Freed? && NoTaskStart(log, i, |log|) ensures Past(log).freed {
        if i < |init| {
          assert NoTaskStart(init, i, |init|);
        }
      }
      if last.Freed? {
        assert NoTaskStart(log, |log| - 1, |log|);
      } else if Past(log).freed {
        var i: nat :| i < |init| && init[i].Freed? && NoTaskStart(init, i, |init|);
        assert NoTaskStart(log, i, |log|);
      }
    }
  }

  lemma {:induction false} ClearedMeaning(log: seq<Event>)
    ensures Past(log).cleared <==> exists i: nat :: i < |log| && log[i] == HungUp(true) && NoTaskStart(log, i, |log|)
  {
    if log != [] {
      var init, last := log[..|log| - 1], log[|log| - 1];
      ClearedMeaning(init);
      assert forall i :: 0 <= i < |init| ==> log[i] == init[i];
      forall i: nat | i < |log| && log[i] == HungUp(true) && NoTaskStart(log, i, |log|) ensures Past(log).cleared {
        if i < |init| {
          assert NoTaskStart(init, i, |init|);
        }
      }
      if last == HungUp(true) {
        assert NoTaskStart(log, |log| - 1, |log|);
      } else if Past(log).cleared {
        var i: nat :| i < |init| && init[i] == HungUp(true) && NoTaskStart(init, i, |init|);
        assert NoTaskStart(log, i, |log|);
      }
    }
  }

  lemma {:induction false} RunningMeaning(log: seq<Event>)
    ensures Past(log).running <==> exists i: nat :: i < |log| && log[i].TaskStarted? && NoTaskEnd(log, i, |log|)
  {
    if log != [] {
      var init, last := log[..|log| - 1], log[|log| - 1];
      RunningMeaning(init);
      assert forall i :: 0 <= i < |init| ==> log[i] == init[i];
      forall i: nat | i < |log| && log[i].TaskStarted? && NoTaskEnd(log, i, |log|) ensures Past(log).running {
        if i < |init| {
          assert NoTaskEnd(init, i, |init|);
        }
      }
      if last.TaskStarted? {
        assert NoTaskEnd(log, |log| - 1, |log|);
      } else if Past(log).running {
        var i: nat :| i < |init| && init[i].TaskStarted? && NoTaskEnd(init, i, |init|);
        assert NoTaskEnd(log, i, |log|);
      }
    }
  }

  /** No command is accepted in a run of the task before the modem was hung up and its radio switched
      off in that run. */
  lemma HungUpFirst(schedule: seq<Action>, k: nat)
    requires k < |Run(schedule).log| && Run(schedule).log[k].Accepted?
    ensures var log := Run(schedule).log;
      exists u: nat :: u < k && log[u] == HungUp(true) && NoTaskStart(log, u, k)
  {
    hide Past, Observe, Run;
    EventJustified(schedule, k);
    var log := Run(schedule).log;
    ClearedMeaning(log[..k]);
    var u: nat :| u < k && log[..k][u] == HungUp(true) && NoTaskStart(log[..k], u, k);
    assert forall i :: 0 <= i < k ==> log[..k][i] == log[i];
    assert NoTaskStart(log, u, k);
  }

  /** A task frees at most one pointer, ... */
  lemma OneFreePerRun(schedule: seq<Action>, i: nat, j: nat)
    requires i < j < |Run(schedule).log| && Run(schedule).log[i].Freed? && Run(schedule).log[j].Freed?
    ensures !NoTaskStart(Run(schedule).log, i, j)
  {
    hide Past, Observe, Run;
    EventJustified(schedule, j);
    var log := Run(schedule).log;
    FreedMeaning(log[..j]);
    assert forall i :: 0 <= i < j ==> log[..j][i] == log[i];
    assert NoTaskStart(log[..j], i, j) <==> NoTaskStart(log, i, j);
  }

  /** ... and every control block that it creates is freed, as a live block, before it ends. */
  lemma BlockIsFreed(schedule: seq<Action>, i: nat, k: nat)
    requires i < k < |Run(schedule).log| && Run(schedule).log[i].Created? && Run(schedule).log[k].TaskEnded?
    requires NoTaskStart(Run(schedule).log, i, k)
    ensures exists f: nat :: i < f < k && Run(schedule).log[f] == Freed(true)
  {
    hide Past, Observe, Run;
    var log := Run(schedule).log;
    EventJustified(schedule, k);
    EventJustified(schedule, i);
    assert forall j :: 0 <= j < k ==> log[..k][j] == log[j];
    assert forall j :: 0 <= j < i ==> log[..i][j] == log[j];
    CreatedMeaning(log[..k]);
    assert NoTaskStart(log[..k], i, k);
    FreedMeaning(log[..k]);
    var f: nat :| f < k && log[..k][f].Freed? && NoTaskStart(log[..k], f, k);
    FreedMeaning(log[..i]);
    assert f < i ==> NoTaskStart(log[..i], f, i);
    assert i < f;
    EventJustified(schedule, f);
    CreatedMeaning(log[..f]);
    assert forall j :: 0 <= j < f ==> log[..f][j] == log[j];
    assert NoTaskStart(log[..f], i, f);
  }

  /** `ppposInit` returns 0 only where no task runs: none has started, or the last one has ended. */
  lemma InitReturnsZero(schedule: seq<Action>, k: nat)
    requires k < |Run(schedule).log| && Run(schedule).log[k].InitReturnedZero?
    ensures var log := Run(schedule).log;
      forall i: nat :: i < k && log[i].TaskStarted? ==> !NoTaskEnd(log, i, k)
  {
    hide Past, Observe, Run;
    EventJustified(schedule, k);
    var log := Run(schedule).log;
    RunningMeaning(log[..k]);
    assert forall i :: 0 <= i < k ==> log[..k][i] == log[i];
    forall i: nat | i < k && log[i].TaskStarted? ensures !NoTaskEnd(log, i, k) {
      assert NoTaskEnd(log[..k], i, k) <==> NoTaskEnd(log, i, k);
    }
  }

  /** What a `ppposInit` that waits for the connection does next: it returns 0 if and only if no task
      runs, 1 if and only if one runs and the status is CONNECTED, and else goes on waiting. */
  lemma InitReturnsWhat(schedule: seq<Action>, ok: bool)
    requires Run(schedule).state.user.InitAwaitConnection?
    ensures var t := Run(schedule); var effect := Step(t.state, User(ok)); var free := t.state.(user := UserPc.Free);
      && (effect == Emit(free, InitReturnedZero) <==> !Past(t.log).running)
      && (effect == Emit(free, InitReturnedOk) <==> Past(t.log).running && t.state.status == Connected)
      && (effect == Silent(t.state) <==> Past(t.log).running && t.state.status != Connected)
  {
    hide GateInv, LinkInv, RequestInv, QuietInv, Past, Run;
    RunKeeps(schedule);
  }

  /** A request is taken at the client's next look at it, whatever has become of the link. */
  lemma RequestFirst(schedule: seq<Action>, ok: bool)
    requires Run(schedule).state.client.Serving? && Run(schedule).state.request <= 0
    ensures var s := Run(schedule).state;
      Step(s, Client(ok)) == Emit(s.(client := CloseRequested(s.request == -1), request := 1), Take(s.request == -1))
  {
    hide GateInv, LinkInv, QuietInv, TaskInv, Past, Run;
    RunKeeps(schedule);
    PendingRequest(Run(schedule).state, Past(Run(schedule).log));
  }

  lemma PendingRequest(s: State, h: History)
    requires RequestInv(s, h) && s.client.Serving?
    ensures -1 <= s.request <= 1
  {
  }

  /** The pointer that a task hands to `ppp_free` when it exits is that of a live block if and only
      if this very task run created it: the pointer is not cleared between task runs. */
  lemma FreedBlockIsLive(schedule: seq<Action>, k: nat)
    requires k < |Run(schedule).log| && Run(schedule).log[k].Freed?
    ensures var log := Run(schedule).log;
      log[k].live <==> exists i: nat :: i < k && log[i].Created? && NoTaskStart(log, i, k)
  {
    EventJustified(schedule, k);
    var log := Run(schedule).log;
    CreatedMeaning(log[..k]);
    assert forall i :: 0 <= i < k ==> log[..k][i] == log[i];
    if log[k].live {
      var i: nat :| i < k && log[..k][i].Created? && NoTaskStart(log[..k], i, k);
      assert NoTaskStart(log, i, k);
    } else {
      forall i: nat | i < k && log[i].Created? ensures !NoTaskStart(log, i, k) {
        assert !NoTaskStart(log[..k], i, k);
      }
    }
  }
}
