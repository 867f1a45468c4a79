/** When the name decoder ends.  Its loop moves from place to place: a position in the packet together
    with the amount of text so far.  There are finitely many places, and where it goes from a place is
    determined by the place; so it ends unless it comes to a place twice. */
module DnsTermination {

  import opened Counting
  import opened DnsNames
  import opened DnsNameLaws

  /** What one round of the decoder's loop leads to. */
  datatype Round = Over | More(pos: nat, res: seq<Byte>, end: int)

  function Goes(mem: seq<Byte>, sz: nat, pos: nat, res: seq<Byte>, end: int): Round {
    if sz < pos || |mem| <= pos || mem[pos] == 0 then Over else More(pos, res, end)
  }

  function Once(mem: seq<Byte>, sz: nat, pos: nat, res: seq<Byte>, end: int, max: nat): Round {
    if |mem| <= pos then Over
    else if mem[pos] < 64 then
      match CopyLabel(mem, sz, pos + 1, WithDot(res, max), max, mem[pos])
      case Copied(pos', res') => Goes(mem, sz, pos', res', end)
      case _ => Over
    else if mem[pos] < 192 then Goes(mem, sz, pos, res, end)
    else if |mem| <= pos + 1 || sz < Target(mem, pos) then Over
    else Goes(mem, sz, Target(mem, pos), res, pos + 2)
  }

  /** Where the loop is after `k` rounds. */
  function Visit(mem: seq<Byte>, sz: nat, pos: nat, res: seq<Byte>, end: int, max: nat, k: nat): Round {
    if k == 0 then More(pos, res, end)
    else
      match Visit(mem, sz, pos, res, end, max, k - 1)
      case Over => Over
      case More(p, r, e) => Once(mem, sz, p, r, e, max)
  }

  lemma OnceIsRound(mem: seq<Byte>, sz: nat, pos: nat, res: seq<Byte>, end: int, max: nat, fuel: nat)
    requires 0 < fuel
    ensures var o := Once(mem, sz, pos, res, end, max);
      WalkName(mem, sz, pos, res, end, max, fuel).Spin?
      <==> o.More? && WalkName(mem, sz, o.pos, o.res, o.end, max, fuel - 1).Spin?
  {
  }

  lemma NoRounds(mem: seq<Byte>, sz: nat, pos: nat, res: seq<Byte>, end: int, max: nat)
    ensures Visit(mem, sz, pos, res, end, max, 0) == More(pos, res, end)
    ensures WalkName(mem, sz, pos, res, end, max, 0) == Spin
  {
  }

  lemma VisitNext(mem: seq<Byte>, sz: nat, pos: nat, res: seq<Byte>, end: int, max: nat, k: nat)
    ensures var v := Visit(mem, sz, pos, res, end, max, k);
      Visit(mem, sz, pos, res, end, max, k + 1) == if v.Over? then Over else Once(mem, sz, v.pos, v.res, v.end, max)
  {
  }

  lemma {:induction false} VisitFirst(mem: seq<Byte>, sz: nat, pos: nat, res: seq<Byte>, end: int, max: nat, k: nat)
    requires 0 < k
    ensures var o := Once(mem, sz, pos, res, end, max);
      Visit(mem, sz, pos, res, end, max, k)
      == if o.Over? then Over else Visit(mem, sz, o.pos, o.res, o.end, max, k - 1)
  {
    hide Once, Visit;
    VisitNext(mem, sz, pos, res, end, max, k - 1);
    var o := Once(mem, sz, pos, res, end, max);
    if k == 1 {
      NoRounds(mem, sz, pos, res, end, max);
      if o.More? {
        NoRounds(mem, sz, o.pos, o.res, o.end, max);
      }
    } else {
      VisitFirst(mem, sz, pos, res, end, max, k - 1);
      if o.More? {
        VisitNext(mem, sz, o.pos, o.res, o.end, max, k - 2);
      }
    }
  }

  /** The decoder is still running after the rounds that it has been given if and only if there is a
      place that it has come to. */
  lemma {:induction false} SpinsOn(mem: seq<Byte>, sz: nat, pos: nat, res: seq<Byte>, end: int, max: nat, fuel: nat)
    ensures WalkName(mem, sz, pos, res, end, max, fuel).Spin? <==> Visit(mem, sz, pos, res, end, max, fuel).More?
    decreases fuel
  {
    hide WalkName, Once, Visit;
    if fuel == 0 {
      NoRounds(mem, sz, pos, res, end, max);
    } else {
      OnceIsRound(mem, sz, pos, res, end, max, fuel);
      VisitFirst(mem, sz, pos, res, end, max, fuel);
      var o := Once(mem, sz, pos, res, end, max);
      if o.More? {
        SpinsOn(mem, sz, o.pos, o.res, o.end, max, fuel - 1);
      }
    }
  }

  /** The same place, or none. */
  predicate Same(a: Round, b: Round) {
    (a.Over? && b.Over?) || (a.More? && b.More? && a.pos == b.pos && |a.res| == |b.res|)
  }

  lemma {:induction false} SameCopy(mem: seq<Byte>, sz: nat, pos: nat, a: seq<Byte>, b: seq<Byte>, max: nat, k: nat)
    requires |a| == |b|
    ensures var c, d := CopyLabel(mem, sz, pos, a, max, k), CopyLabel(mem, sz, pos, b, max, k);
      && (c.Copied? <==> d.Copied?)
      && (c.Copied? ==> c.pos == d.pos && |c.res| == |d.res|)
    decreases k
  {
    if k != 0 {
      if max <= |a| {
        SameCopy(mem, sz, pos, a, b, max, k - 1);
      } else if pos <= sz && pos < |mem| {
        SameCopy(mem, sz, pos + 1, a + [mem[pos]], b + [mem[pos]], max, k - 1);
      }
    }
  }

  lemma SameOnce(mem: seq<Byte>, sz: nat, a: Round, b: Round, max: nat)
    requires Same(a, b) && a.More?
    ensures Same(Once(mem, sz, a.pos, a.res, a.end, max), Once(mem, sz, b.pos, b.res, b.end, max))
  {
    if a.pos < |mem| && mem[a.pos] < 64 {
      SameCopy(mem, sz, a.pos + 1, WithDot(a.res, max), WithDot(b.res, max), max, mem[a.pos]);
    }
  }

  /** From the same place the loop goes the same way. */
  lemma {:induction false} SameWay(mem: seq<Byte>, sz: nat, pos: nat, res: seq<Byte>, end: int, max: nat, i: nat, j: nat, k: nat)
    requires Same(Visit(mem, sz, pos, res, end, max, i), Visit(mem, sz, pos, res, end, max, j))
    ensures Same(Visit(mem, sz, pos, res, end, max, i + k), Visit(mem, sz, pos, res, end, max, j + k))
    decreases k
  {
    hide Once, Visit;
    if k != 0 {
      SameWay(mem, sz, pos, res, end, max, i, j, k - 1);
      VisitNext(mem, sz, pos, res, end, max, i + k - 1);
      VisitNext(mem, sz, pos, res, end, max, j + k - 1);
      var a, b := Visit(mem, sz, pos, res, end, max, i + k - 1), Visit(mem, sz, pos, res, end, max, j + k - 1);
      if a.More? {
        SameOnce(mem, sz, a, b, max);
      }
    }
  }

  lemma {:induction false} VisitedBefore(mem: seq<Byte>, sz: nat, pos: nat, res: seq<Byte>, end: int, max: nat, i: nat, j: nat)
    requires i <= j && Visit(mem, sz, pos, res, end, max, j).More?
    ensures Visit(mem, sz, pos, res, end, max, i).More?
    decreases j
  {
    hide Once, Visit;
    if i < j {
      VisitNext(mem, sz, pos, res, end, max, j - 1);
      VisitedBefore(mem, sz, pos, res, end, max, i, j - 1);
    }
  }

  /** The loop comes to a place twice. */
  ghost predicate Repeats(mem: seq<Byte>, sz: nat, pos: nat, res: seq<Byte>, end: int, max: nat) {
    exists i: nat, j: nat :: i < j
      && Visit(mem, sz, pos, res, end, max, j).More?
      && Same(Visit(mem, sz, pos, res, end, max, i), Visit(mem, sz, pos, res, end, max, j))
  }

  lemma {:induction false} RepeatsOn(mem: seq<Byte>, sz: nat, pos: nat, res: seq<Byte>, end: int, max: nat, i: nat, j: nat, k: nat)
    requires i < j && Visit(mem, sz, pos, res, end, max, j).More?
    requires Same(Visit(mem, sz, pos, res, end, max, i), Visit(mem, sz, pos, res, end, max, j))
    ensures Visit(mem, sz, pos, res, end, max, k).More?
    decreases k
  {
    hide Visit, Once;
    if k <= j {
      VisitedBefore(mem, sz, pos, res, end, max, k, j);
    } else {
      RepeatsOn(mem, sz, pos, res, end, max, i, j, k - (j - i));
      SameWay(mem, sz, pos, res, end, max, i, j, k - j);
    }
  }

  // ---- The number of places --------------------------------------------------------------------

  lemma {:induction false} CopyBounded(mem: seq<Byte>, sz: nat, pos: nat, res: seq<Byte>, max: nat, k: nat)
    requires |res| <= max && CopyLabel(mem, sz, pos, res, max, k).Copied?
    ensures |CopyLabel(mem, sz, pos, res, max, k).res| <= max
    decreases k
  {
    if k != 0 {
      if max <= |res| {
        CopyBounded(mem, sz, pos, res, max, k - 1);
      } else {
        CopyBounded(mem, sz, pos + 1, res + [mem[pos]], max, k - 1);
      }
    }
  }

  lemma OnceBounded(mem: seq<Byte>, sz: nat, pos: nat, res: seq<Byte>, end: int, max: nat)
    requires |res| <= max && Once(mem, sz, pos, res, end, max).More?
    ensures pos < |mem| && |Once(mem, sz, pos, res, end, max).res| <= max
  {
    if mem[pos] < 64 {
      CopyBounded(mem, sz, pos + 1, WithDot(res, max), max, mem[pos]);
    }
  }

  lemma {:induction false} VisitBounded(mem: seq<Byte>, sz: nat, pos: nat, res: seq<Byte>, end: int, max: nat, k: nat)
    requires |res| <= max && Visit(mem, sz, pos, res, end, max, k + 1).More?
    ensures var v := Visit(mem, sz, pos, res, end, max, k); v.More? && v.pos < |mem| && |v.res| <= max
    decreases k
  {
    hide Once, Visit;
    VisitNext(mem, sz, pos, res, end, max, k);
    var v := Visit(mem, sz, pos, res, end, max, k);
    if k == 0 {
      NoRounds(mem, sz, pos, res, end, max);
    } else {
      VisitNext(mem, sz, pos, res, end, max, k - 1);
      VisitBounded(mem, sz, pos, res, end, max, k - 1);
      var u := Visit(mem, sz, pos, res, end, max, k - 1);
      OnceBounded(mem, sz, u.pos, u.res, u.end, max);
    }
    OnceBounded(mem, sz, v.pos, v.res, v.end, max);
  }

  /** A place as a number. */
  function Code(v: Round, max: nat): nat {
    if v.Over? then 0 else v.pos * (max + 1) + |v.res|
  }

  lemma CodeBelow(p: nat, l: nat, n: nat, m: nat)
    requires p < n && l < m
    ensures p * m + l < n * m
  {
    assert p * m + m == (p + 1) * m <= n * m;
  }

  lemma CodeTells(p: nat, l: nat, q: nat, r: nat, m: nat)
    requires l < m && r < m && p * m + l == q * m + r
    ensures p == q && l == r
  {
    if p < q {
      CodeBelow(p, l, q, m);
    } else if q < p {
      CodeBelow(q, r, p, m);
    }
  }

  /** The number of places in a packet's buffer and a text buffer. */
  function Places(mem: seq<Byte>, max: nat): nat {
    |mem| * (max + 1)
  }

  /** A loop that goes on for more rounds than there are places has come to one of them twice. */
  lemma ManyRoundsRepeat(mem: seq<Byte>, sz: nat, pos: nat, res: seq<Byte>, end: int, max: nat)
    requires |res| <= max && Visit(mem, sz, pos, res, end, max, Places(mem, max) + 1).More?
    ensures Repeats(mem, sz, pos, res, end, max)
  {
    hide Visit, Once, Places;
    var n := Places(mem, max);
    var codes := seq(n + 1, k requires 0 <= k < n + 1 => Code(Visit(mem, sz, pos, res, end, max, k), max));
    forall k | 0 <= k < n + 1 ensures codes[k] < n {
      PlaceBounded(mem, sz, pos, res, end, max, k);
    }
    var i, j := Pigeonhole(codes, n);
    PlaceBounded(mem, sz, pos, res, end, max, i);
    PlaceBounded(mem, sz, pos, res, end, max, j);
    var u, v := Visit(mem, sz, pos, res, end, max, i), Visit(mem, sz, pos, res, end, max, j);
    CodeTells(u.pos, |u.res|, v.pos, |v.res|, max + 1);
  }

  lemma PlaceBounded(mem: seq<Byte>, sz: nat, pos: nat, res: seq<Byte>, end: int, max: nat, k: nat)
    requires |res| <= max && Visit(mem, sz, pos, res, end, max, Places(mem, max) + 1).More? && k <= Places(mem, max)
    ensures var v := Visit(mem, sz, pos, res, end, max, k);
      v.More? && |v.res| <= max && Code(v, max) < Places(mem, max)
  {
    hide Visit, Once;
    VisitedBefore(mem, sz, pos, res, end, max, k + 1, Places(mem, max) + 1);
    VisitBounded(mem, sz, pos, res, end, max, k);
    var v := Visit(mem, sz, pos, res, end, max, k);
    CodeBelow(v.pos, |v.res|, |mem|, max + 1);
  }

  // ---- Theorems --------------------------------------------------------------------------------

  /** Exactly when the decoder does not end: when its loop comes to the same position with the same
      amount of text twice. */
  lemma SpinsExactly(mem: seq<Byte>, sz: nat, pos: nat, res: seq<Byte>, end: int, max: nat)
    requires |res| <= max
    ensures (forall fuel: nat :: WalkName(mem, sz, pos, res, end, max, fuel).Spin?) <==> Repeats(mem, sz, pos, res, end, max)
  {
    hide WalkName, Visit, Places;
    if Repeats(mem, sz, pos, res, end, max) {
      var i: nat, j: nat :| i < j
        && Visit(mem, sz, pos, res, end, max, j).More?
        && Same(Visit(mem, sz, pos, res, end, max, i), Visit(mem, sz, pos, res, end, max, j));
      forall fuel: nat ensures WalkName(mem, sz, pos, res, end, max, fuel).Spin? {
        RepeatsOn(mem, sz, pos, res, end, max, i, j, fuel);
        SpinsOn(mem, sz, pos, res, end, max, fuel);
      }
    } else {
      var fuel := Places(mem, max) + 1;
      SpinsOn(mem, sz, pos, res, end, max, fuel);
      if WalkName(mem, sz, pos, res, end, max, fuel).Spin? {
        ManyRoundsRepeat(mem, sz, pos, res, end, max);
      }
    }
  }

  /** A decoder that ends has ended after as many rounds as there are places, and one. */
  lemma EndsInTime(mem: seq<Byte>, sz: nat, pos: nat, res: seq<Byte>, end: int, max: nat, fuel: nat)
    requires |res| <= max && !WalkName(mem, sz, pos, res, end, max, fuel).Spin?
    ensures !WalkName(mem, sz, pos, res, end, max, Places(mem, max) + 1).Spin?
  {
    hide WalkName, Visit, Places, Repeats;
    SpinsOn(mem, sz, pos, res, end, max, Places(mem, max) + 1);
    if WalkName(mem, sz, pos, res, end, max, Places(mem, max) + 1).Spin? {
      ManyRoundsRepeat(mem, sz, pos, res, end, max);
      SpinsExactly(mem, sz, pos, res, end, max);
    }
  }

  /** Two pointers that lead to each other. */
  lemma TwoPointersSpin(mem: seq<Byte>, sz: nat, p: nat, q: nat, max: nat, fuel: nat)
    requires sz < |mem| && p + 1 < |mem| && q + 1 < |mem| && p <= sz && q <= sz
    requires 192 <= mem[p] && 192 <= mem[q] && Target(mem, p) == q && Target(mem, q) == p
    ensures WalkName(mem, sz, p, [], -1, max, fuel) == Spin
  {
    hide WalkName, Target;
    var one, two := Visit(mem, sz, p, [], -1, max, 1), Visit(mem, sz, p, [], -1, max, 2);
    assert Visit(mem, sz, p, [], -1, max, 0) == More(p, [], -1);
    assert one == More(q, [], p + 2);
    assert two == More(p, [], q + 2);
    assert Same(Visit(mem, sz, p, [], -1, max, 0), two);
    SpinsExactly(mem, sz, p, [], -1, max);
  }
}
