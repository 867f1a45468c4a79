/** The loop that sends the table of initialization commands to the modem.

    A command whose skip flag is set has been accepted already and is passed over.  A reply that
    is not the expected one sends the loop back to the first command; the 21st such reply makes
    the task give up. */
module InitLoop {

  /** The failures that the loop tolerates. */
  const MAX_FAILURES: nat := 20

  /** The variables of the loop: the position in the table, the failures so far, the flags. */
  datatype Progress = Progress(iter: nat, nfail: nat, skip: seq<bool>)

  datatype Outcome = Continue(next: Progress) | GaveUp

  /** One iteration, where `ok` is the verdict on the reply if a command is sent. */
  function Advance(p: Progress, ok: bool): (o: Outcome)
    requires p.iter < |p.skip|
    ensures o.Continue? ==> o.next.iter <= |o.next.skip| == |p.skip|
  {
    if p.skip[p.iter] then Continue(p.(iter := p.iter + 1))
    else if ok then Continue(Progress(p.iter + 1, p.nfail, p.skip[p.iter := true]))
    else if MAX_FAILURES < p.nfail + 1 then GaveUp
    else Continue(Progress(0, p.nfail + 1, p.skip))
  }

  function AllClear(n: nat): (skip: seq<bool>)
    ensures |skip| == n && forall i :: 0 <= i < n ==> !skip[i]
  {
    seq(n, i => false)
  }

  /** The commands from `i` on that still have to be accepted, in table order. */
  function PendingFrom(skip: seq<bool>, i: nat): seq<nat>
    decreases |skip| - i
  {
    if |skip| <= i then []
    else (if skip[i] then [] else [i]) + PendingFrom(skip, i + 1)
  }

  function Pending(skip: seq<bool>): seq<nat> {
    PendingFrom(skip, 0)
  }

  /** How many of the first `t` replies are as expected, and how many are not. */
  function Oks(reply: nat -> bool, t: nat): nat {
    if t == 0 then 0 else Oks(reply, t - 1) + if reply(t - 1) then 1 else 0
  }

  function Fails(reply: nat -> bool, t: nat): nat {
    if t == 0 then 0 else Fails(reply, t - 1) + if reply(t - 1) then 0 else 1
  }

  lemma CountNext(reply: nat -> bool, t: nat)
    ensures Oks(reply, 0) == Fails(reply, 0) == 0
    ensures Oks(reply, t + 1) == Oks(reply, t) + if reply(t) then 1 else 0
    ensures Fails(reply, t + 1) == Fails(reply, t) + if reply(t) then 0 else 1
  {
  }

  lemma {:induction false} CountsAdd(reply: nat -> bool, t: nat)
    ensures Oks(reply, t) + Fails(reply, t) == t
  {
    if t != 0 {
      CountsAdd(reply, t - 1);
    }
  }

  lemma {:induction false} CountsGrow(reply: nat -> bool, t: nat, u: nat)
    requires t <= u
    ensures Oks(reply, t) <= Oks(reply, u) && Fails(reply, t) <= Fails(reply, u)
  {
    if t < u {
      CountsGrow(reply, t, u - 1);
    }
  }

  /** Only the flags from `i` on matter to what is pending from `i` on. */
  lemma {:induction false} PendingAgrees(a: seq<bool>, b: seq<bool>, i: nat)
    requires |a| == |b| && forall j :: i <= j < |a| ==> a[j] == b[j]
    ensures PendingFrom(a, i) == PendingFrom(b, i)
    decreases |a| - i
  {
    if i < |a| {
      PendingAgrees(a, b, i + 1);
    }
  }

  /** Flags that are set contribute nothing. */
  lemma {:induction false} PendingSkips(skip: seq<bool>, i: nat)
    requires i <= |skip| && forall j :: 0 <= j < i ==> skip[j]
    ensures Pending(skip) == PendingFrom(skip, i)
  {
    if i != 0 {
      PendingSkips(skip, i - 1);
    }
  }

  /** Accepting the first pending command takes exactly that command off the list. */
  lemma AcceptTakesFirst(skip: seq<bool>, i: nat)
    requires i < |skip| && !skip[i] && forall j :: 0 <= j < i ==> skip[j]
    ensures Pending(skip) == [i] + Pending(skip[i := true])
  {
    PendingSkips(skip, i);
    PendingSkips(skip[i := true], i + 1);
    PendingAgrees(skip, skip[i := true], i + 1);
  }

  lemma {:induction false} NothingPending(skip: seq<bool>, i: nat)
    ensures PendingFrom(skip, i) == [] <==> forall j :: i <= j < |skip| ==> skip[j]
    decreases |skip| - i
  {
    if i < |skip| {
      NothingPending(skip, i + 1);
    }
  }

  lemma Regroup(a: seq<nat>, b: seq<nat>, c: seq<nat>)
    ensures a + (b + c) == a + b + c
  {
  }

  lemma AllAccepted(skip: seq<bool>)
    requires forall j :: 0 <= j < |skip| ==> skip[j]
    ensures Pending(skip) == []
  {
    NothingPending(skip, 0);
  }

  lemma PendingSome(skip: seq<bool>, i: nat)
    requires i < |skip| && !skip[i]
    ensures Pending(skip) != []
  {
    NothingPending(skip, 0);
  }

  /** Succeeding before the 21st failure is a matter of the replies alone. */
  lemma SuccessDecided(reply: nat -> bool, n: nat, t: nat, ok: bool)
    requires if ok then Oks(reply, t) == n && Fails(reply, t) <= MAX_FAILURES
             else Oks(reply, t) < n && MAX_FAILURES < Fails(reply, t)
    ensures ok <==> exists u: nat :: n <= Oks(reply, u) && Fails(reply, u) <= MAX_FAILURES
  {
    if !ok {
      forall u: nat ensures Oks(reply, u) < n || MAX_FAILURES < Fails(reply, u) {
        if u <= t {
          CountsGrow(reply, u, t);
        } else {
          CountsGrow(reply, t, u);
        }
      }
    }
  }

  /** The loop, against any modem: `reply(t)` tells whether the reply to the t-th command that is
      sent is the expected one.

      The accepted commands are the first ones that were pending, each once and in table order,
      and exactly their flags have been set.  The loop succeeds if and only if the modem accepts
      that many commands before its 21st failure, and gives up at exactly that failure. */
  method Initialize(skip: array<bool>, reply: nat -> bool)
    returns (ok: bool, sends: nat, accepted: seq<nat>)
    modifies skip
    ensures accepted + Pending(skip[..]) == Pending(old(skip[..]))
    ensures |accepted| == Oks(reply, sends)
    ensures ok ==> Pending(skip[..]) == [] && Fails(reply, sends) <= MAX_FAILURES
    ensures ok ==> sends <= |Pending(old(skip[..]))| + MAX_FAILURES
    ensures !ok ==> Fails(reply, sends) == MAX_FAILURES + 1 && 0 < sends && !reply(sends - 1)
    ensures ok <==> exists t: nat :: |Pending(old(skip[..]))| <= Oks(reply, t) && Fails(reply, t) <= MAX_FAILURES
  {
    hide Oks, Fails, Pending, PendingFrom;
    var iter, nfail := 0, 0;
    CountNext(reply, 0);
    sends, accepted := 0, [];
    while iter < skip.Length
      invariant iter <= skip.Length && nfail <= MAX_FAILURES
      invariant forall j :: 0 <= j < iter ==> skip[j]
      invariant accepted + Pending(skip[..]) == Pending(old(skip[..]))
      invariant |accepted| == Oks(reply, sends) && nfail == Fails(reply, sends)
      decreases MAX_FAILURES + 1 - nfail, skip.Length - iter
    {
      ghost var before := Progress(iter, nfail, skip[..]);
      if skip[iter] {
        iter := iter + 1;
        assert Advance(before, true) == Continue(Progress(iter, nfail, skip[..]));
        continue;
      }
      CountNext(reply, sends);
      sends := sends + 1;
      if !reply(sends - 1) {
        nfail := nfail + 1;
        if nfail > MAX_FAILURES {
          assert Advance(before, false) == GaveUp;
          PendingSome(skip[..], iter);
          SuccessDecided(reply, |Pending(old(skip[..]))|, sends, false);
          return false, sends, accepted;
        }
        iter := 0;
        assert Advance(before, false) == Continue(Progress(iter, nfail, skip[..]));
        continue;
      }
      AcceptTakesFirst(before.skip, iter);
      Regroup(accepted, [iter], Pending(before.skip[iter := true]));
      accepted := accepted + [iter];
      skip[iter] := true;
      assert skip[..] == before.skip[iter := true];
      iter := iter + 1;
      assert Advance(before, true) == Continue(Progress(iter, nfail, skip[..]));
    }
    AllAccepted(skip[..]);
    CountsAdd(reply, sends);
    SuccessDecided(reply, |Pending(old(skip[..]))|, sends, true);
    return true, sends, accepted;
  }

  /** `enableAllInitCmd`. */
  method EnableAll(skip: array<bool>)
    modifies skip
    ensures skip[..] == AllClear(skip.Length)
  {
    for idx := 0 to skip.Length
      invariant forall j :: 0 <= j < idx ==> !skip[j]
    {
      skip[idx] := false;
    }
  }
}
