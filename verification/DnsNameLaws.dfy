/** What the name decoder and encoder mean in terms of the wire format of RFC 1035. */
module DnsNameLaws {

  import opened DnsNames

  // ---- Decoding ------------------------------------------------------------------------------

  /** A label within the packet is copied whole if it fits. */
  lemma {:induction false} CopiesLabel(mem: seq<Byte>, sz: nat, pos: nat, res: seq<Byte>, max: nat, k: nat)
    requires pos + k <= sz && pos + k <= |mem| && |res| + k <= max
    ensures CopyLabel(mem, sz, pos, res, max, k) == Copied(pos + k, res + mem[pos..pos + k])
    decreases k
  {
    if k == 0 {
      assert res + mem[pos..pos] == res;
    } else {
      CopiesLabel(mem, sz, pos + 1, res + [mem[pos]], max, k - 1);
      assert res + [mem[pos]] + mem[pos + 1..pos + k] == res + mem[pos..pos + k];
    }
  }

  /** The text after further labels have been added to it. */
  function Extended(res: seq<Byte>, labels: seq<seq<Byte>>): seq<Byte> {
    if labels == [] then res
    else if res == [] then Dotted(labels)
    else res + [DOT] + Dotted(labels)
  }

  lemma ExtendByOne(res: seq<Byte>, labels: seq<seq<Byte>>)
    requires labels != [] && labels[0] != []
    ensures Extended(res, labels) == Extended((if res == [] then [] else res + [DOT]) + labels[0], labels[1..])
  {
    if |labels| > 1 && res != [] {
      assert res + [DOT] + (labels[0] + [DOT] + Dotted(labels[1..])) == res + [DOT] + labels[0] + [DOT] + Dotted(labels[1..]);
    }
  }

  /** The position that the decoder returns: after the last pointer that it followed. */
  function LastEnd(msg: seq<Byte>, run: nat, p: nat, end: int): nat
    requires Expand(msg, run, p).Name?
    decreases run, |msg| - p
  {
    if msg[p] == 0 then if end < 0 then p + 1 else end
    else if msg[p] < 64 then LastEnd(msg, run, p + 1 + msg[p], end)
    else LastEnd(msg, Target(msg, p), Target(msg, p), p + 2)
  }

  /** One round of the decoder's loop over a label that fits. */
  lemma WalkLabel(mem: seq<Byte>, sz: nat, p: nat, res: seq<Byte>, end: int, max: nat, fuel: nat)
    requires 0 < fuel && p < |mem| && mem[p] < 64 && p + 1 + mem[p] <= sz <= |mem|
    requires |res| + 1 + mem[p] <= max
    ensures WalkName(mem, sz, p, res, end, max, fuel)
            == WalkOn(mem, sz, p + 1 + mem[p],
                 (if res == [] then [] else res + [DOT]) + mem[p + 1..p + 1 + mem[p]], end, max, fuel)
  {
    CopiesLabel(mem, sz, p + 1, WithDot(res, max), max, mem[p]);
  }

  /** ... over a pointer ... */
  lemma WalkPointer(mem: seq<Byte>, sz: nat, p: nat, res: seq<Byte>, end: int, max: nat, fuel: nat)
    requires 0 < fuel && p + 1 < |mem| && 192 <= mem[p] && Target(mem, p) <= sz
    ensures WalkName(mem, sz, p, res, end, max, fuel) == WalkOn(mem, sz, Target(mem, p), res, p + 2, max, fuel)
  {
  }

  /** ... and what follows either. */
  lemma WalkAfter(mem: seq<Byte>, sz: nat, p: nat, res: seq<Byte>, end: int, max: nat, fuel: nat)
    requires 0 < fuel && p < |mem| && p <= sz && |res| < max
    ensures WalkOn(mem, sz, p, res, end, max, fuel)
            == if mem[p] == 0 then Decoded(res, if end < 0 then p + 1 else end)
               else WalkName(mem, sz, p, res, end, max, fuel - 1)
  {
  }

  /** An expansion that is not the root starts with a label or a pointer. */
  lemma ExpandStep(msg: seq<Byte>, run: nat, p: nat)
    requires Expand(msg, run, p).Name?
    ensures p < |msg| && (msg[p] < 64 || 192 <= msg[p])
    ensures 0 < msg[p] < 64 ==> var p' := p + 1 + msg[p];
      && p' < |msg| && Expand(msg, run, p').Name?
      && Expand(msg, run, p).labels == [msg[p + 1..p']] + Expand(msg, run, p').labels
    ensures 192 <= msg[p] ==> p + 1 < |msg| && var t := Target(msg, p);
      t < run && t < |msg| && Expand(msg, run, p) == Expand(msg, t, t)
  {
  }

  lemma ExpandRoot(msg: seq<Byte>, run: nat, p: nat)
    requires p < |msg| && msg[p] == 0
    ensures Expand(msg, run, p) == Name([]) && Extended([], []) == []
  {
  }

  lemma ExtendedByNone(res: seq<Byte>)
    ensures Extended(res, []) == res
  {
  }

  lemma LastEndStep(msg: seq<Byte>, run: nat, p: nat, end: int)
    requires Expand(msg, run, p).Name?
    ensures LastEnd(msg, run, p, end)
            == if msg[p] == 0 then if end < 0 then p + 1 else end
               else if msg[p] < 64 then LastEnd(msg, run, p + 1 + msg[p], end)
               else LastEnd(msg, Target(msg, p), Target(msg, p), p + 2)
  {
  }

  /** Compressed-name decoding: where the name at `p` has an expansion whose text fits, and does not
      start with the root, the decoder terminates with the dotted form of the expansion. */
  lemma {:induction false} Decodes(mem: seq<Byte>, sz: nat, run: nat, p: nat, res: seq<Byte>, end: int, max: nat)
    returns (fuel: nat)
    requires sz <= |mem|
    requires Expand(mem[..sz], run, p).Name? && mem[p] != 0
    requires |Extended(res, Expand(mem[..sz], run, p).labels)| < max
    ensures WalkName(mem, sz, p, res, end, max, fuel)
            == Decoded(Extended(res, Expand(mem[..sz], run, p).labels), LastEnd(mem[..sz], run, p, end))
    decreases run, sz - p
  {
    hide WalkName, WalkOn, Expand, Extended, LastEnd;
    var msg := mem[..sz];
    ExpandStep(msg, run, p);
    LastEndStep(msg, run, p, end);
    var labels := Expand(msg, run, p).labels;
    if msg[p] < 64 {
      var p' := p + 1 + msg[p];
      var rest := Expand(msg, run, p').labels;
      assert labels[1..] == rest && labels[0] == mem[p + 1..p'];
      ExtendByOne(res, labels);
      var res' := (if res == [] then [] else res + [DOT]) + labels[0];
      ExtendedGrows(res', rest);
      if mem[p'] == 0 {
        fuel := 1;
        ExpandRoot(msg, run, p');
        ExtendedByNone(res');
        LastEndStep(msg, run, p', end);
      } else {
        fuel := Decodes(mem, sz, run, p', res', end, max);
        fuel := fuel + 1;
      }
      WalkLabel(mem, sz, p, res, end, max, fuel);
      WalkAfter(mem, sz, p', res', end, max, fuel);
    } else {
      var t := Target(msg, p);
      if mem[t] == 0 {
        fuel := 1;
        ExpandRoot(msg, t, t);
        ExtendedByNone(res);
        LastEndStep(msg, t, t, p + 2);
      } else {
        fuel := Decodes(mem, sz, t, t, res, p + 2, max);
        fuel := fuel + 1;
        ExtendedGrows(res, labels);
      }
      WalkPointer(mem, sz, p, res, end, max, fuel);
      WalkAfter(mem, sz, t, res, p + 2, max, fuel);
    }
  }

  lemma ExtendedGrows(res: seq<Byte>, labels: seq<seq<Byte>>)
    ensures |res| <= |Extended(res, labels)|
  {
  }

  /** A walk that has ended is not changed by waiting longer. */
  lemma {:induction false} WalkSettled(mem: seq<Byte>, sz: nat, pos: nat, res: seq<Byte>, end: int, max: nat, f: nat, g: nat)
    requires f <= g && !WalkName(mem, sz, pos, res, end, max, f).Spin?
    ensures WalkName(mem, sz, pos, res, end, max, g) == WalkName(mem, sz, pos, res, end, max, f)
    decreases f
  {
    if pos < |mem| {
      if mem[pos] < 64 {
        var c := CopyLabel(mem, sz, pos + 1, WithDot(res, max), max, mem[pos]);
        if c.Copied? && c.pos <= sz && c.pos < |mem| && mem[c.pos] != 0 {
          WalkSettled(mem, sz, c.pos, c.res, end, max, f - 1, g - 1);
        }
      } else if 192 <= mem[pos] {
        if pos + 1 < |mem| {
          var t := Target(mem, pos);
          if t <= sz && t < |mem| && mem[t] != 0 {
            WalkSettled(mem, sz, t, res, pos + 2, max, f - 1, g - 1);
          }
        }
      } else if pos <= sz {
        WalkSettled(mem, sz, pos, res, end, max, f - 1, g - 1);
      }
    }
  }

  // ---- The end position ------------------------------------------------------------------------

  lemma {:induction false} NoHopEnd(msg: seq<Byte>, run: nat, p: nat, end: int)
    requires Expand(msg, run, p).Name? && Hops(msg, run, p) == 0
    ensures LastEnd(msg, run, p, end) == if end < 0 then NameEnd(msg, p) else end
    decreases run, |msg| - p
  {
    if msg[p] != 0 {
      NoHopEnd(msg, run, p + 1 + msg[p], end);
    }
  }

  lemma HopsStep(msg: seq<Byte>, run: nat, p: nat)
    requires Expand(msg, run, p).Name?
    ensures Hops(msg, run, p)
            == if msg[p] == 0 then 0
               else if msg[p] < 64 then Hops(msg, run, p + 1 + msg[p])
               else 1 + Hops(msg, Target(msg, p), Target(msg, p))
  {
  }

  /** The last pointer of an expansion leads to before the run at which the expansion starts. */
  lemma {:induction false} LastHopLeadsBack(msg: seq<Byte>, run: nat, p: nat, end: int)
    requires Expand(msg, run, p).Name? && Hops(msg, run, p) > 0
    ensures var last := LastEnd(msg, run, p, end) - 2; 0 <= last && last + 1 < |msg| && Target(msg, last) < run
    decreases run, |msg| - p
  {
    hide Expand, Hops, LastEnd, NameEnd, Target, Word;
    ExpandStep(msg, run, p);
    HopsStep(msg, run, p);
    LastEndStep(msg, run, p, end);
    if msg[p] < 64 {
      LastHopLeadsBack(msg, run, p + 1 + msg[p], end);
    } else {
      var t := Target(msg, p);
      if Hops(msg, t, t) == 0 {
        NoHopEnd(msg, t, t, p + 2);
      } else {
        LastHopLeadsBack(msg, t, t, p + 2);
      }
    }
  }

  /** The decoder returns the position after the name if and only if the name has at most one
      pointer in its expansion: each pointer overwrites the position noted at the one before. */
  lemma {:induction false} EndRightIffOneHop(msg: seq<Byte>, run: nat, p: nat)
    requires Expand(msg, run, p).Name?
    ensures LastEnd(msg, run, p, -1) == NameEnd(msg, p) <==> Hops(msg, run, p) <= 1
    decreases run, |msg| - p
  {
    if msg[p] != 0 {
      if msg[p] < 64 {
        EndRightIffOneHop(msg, run, p + 1 + msg[p]);
      } else {
        var t := Target(msg, p);
        if Hops(msg, t, t) == 0 {
          NoHopEnd(msg, t, t, p + 2);
        } else {
          LastHopLeadsBack(msg, t, t, p + 2);
        }
      }
    }
  }

  /** A name that is a pointer to a pointer to a name: the decoder takes the end of the pointer that it
      followed last, here before the name, for the name's own. */
  lemma TwoHopsMisplace()
    ensures var msg: seq<Byte> := [0, 0, 0, 0, 0, 0, 0, 0, 0, 0, 0, 0, 1, 97, 0, 192, 12, 192, 15];
      && Expand(msg, 17, 17) == Name([[97]]) && Hops(msg, 17, 17) == 2
      && WalkName(msg, 19, 17, [], -1, 512, 3) == Decoded([97], 17) && NameEnd(msg, 17) == 19
  {
    var msg: seq<Byte> := [0, 0, 0, 0, 0, 0, 0, 0, 0, 0, 0, 0, 1, 97, 0, 192, 12, 192, 15];
    assert Target(msg, 17) == 15 && Target(msg, 15) == 12;
    assert Expand(msg, 12, 14) == Name([]);
    assert msg[13..14] == [97];
    assert Expand(msg, 12, 12) == Name([[97]]) && Expand(msg, 15, 15) == Name([[97]]);
    WalkPointer(msg, 19, 17, [], -1, 512, 3);
    WalkPointer(msg, 19, 15, [], 19, 512, 2);
    WalkLabel(msg, 19, 12, [], 17, 512, 1);
  }

  // ---- The bounds ----------------------------------------------------------------------------

  /** A pointer holds a position of 14 bits. */
  lemma TargetMeaning(msg: seq<Byte>, p: nat)
    requires p + 1 < |msg| && 192 <= msg[p]
    ensures var hi: int := msg[p]; Target(msg, p) == (hi - 192) * 256 + msg[p + 1]
  {
  }

  lemma {:induction false} CopyBeyond(mem: seq<Byte>, sz: nat, pos: nat, res: seq<Byte>, max: nat, k: nat)
    requires sz < pos + k <= |mem| && |res| + k <= max
    ensures var c := CopyLabel(mem, sz, pos, res, max, k); c.CopyNull? || (c.Copied? && sz < c.pos)
    decreases k
  {
    if k != 0 && pos <= sz {
      CopyBeyond(mem, sz, pos + 1, res + [mem[pos]], max, k - 1);
    }
  }

  /** A label that ends beyond the packet is refused, and so is a pointer that leads beyond it; any other
      label that fits, and any other pointer, is followed. */
  lemma RefusedExactly(mem: seq<Byte>, sz: nat, p: nat, res: seq<Byte>, end: int, max: nat, fuel: nat)
    requires 0 < fuel && p + 1 < |mem| && |res| < max
    ensures mem[p] < 64 && p + 1 + mem[p] <= |mem| && |res| + 1 + mem[p] <= max ==>
      var next := p + 1 + mem[p];
      WalkName(mem, sz, p, res, end, max, fuel)
      == if sz < next then Null
         else WalkOn(mem, sz, next, (if res == [] then [] else res + [DOT]) + mem[p + 1..next], end, max, fuel)
    ensures 192 <= mem[p] ==>
      var hi: int := mem[p]; var next := (hi - 192) * 256 + mem[p + 1];
      WalkName(mem, sz, p, res, end, max, fuel) == if sz < next then Null else WalkOn(mem, sz, next, res, p + 2, max, fuel)
  {
    if mem[p] < 64 && p + 1 + mem[p] <= |mem| && |res| + 1 + mem[p] <= max {
      if sz < p + 1 + mem[p] {
        CopyBeyond(mem, sz, p + 1, WithDot(res, max), max, mem[p]);
      } else {
        CopiesWithin(mem, sz, p, res, max);
      }
    }
    if 192 <= mem[p] {
      TargetMeaning(mem, p);
    }
  }

  lemma CopiesWithin(mem: seq<Byte>, sz: nat, p: nat, res: seq<Byte>, max: nat)
    requires p < |mem| && p + 1 + mem[p] <= sz && p + 1 + mem[p] <= |mem| && |res| + 1 + mem[p] <= max
    ensures var next := p + 1 + mem[p];
      CopyLabel(mem, sz, p + 1, WithDot(res, max), max, mem[p])
      == Copied(next, (if res == [] then [] else res + [DOT]) + mem[p + 1..next])
  {
    var n := p + 1 + mem[p];
    CopiesLabel(mem, sz, p + 1, WithDot(res, max), max, mem[p]);
    assert mem[p + 1..n] == mem[p + 1..p + 1 + mem[p]];
  }

  /** The byte behind the packet belongs to it, for the decoder: a name that runs up to the end of the
      packet is ended by that byte. */
  lemma EndsBehind(mem: seq<Byte>, sz: nat, p: nat, max: nat)
    requires p < sz < |mem| && p + 1 + mem[p] == sz && 0 < mem[p] < 64 && mem[p] < max && mem[sz] == 0
    ensures WalkName(mem, sz, p, [], -1, max, 1) == Decoded(mem[p + 1..sz], sz + 1)
  {
    CopiesLabel(mem, sz, p + 1, WithDot([], max), max, mem[p]);
  }

  /** Once the text fills its buffer, the decoder does not move through the label any more, and then
      takes the byte where it stands for a length byte. */
  lemma {:induction false} FullStays(mem: seq<Byte>, sz: nat, pos: nat, res: seq<Byte>, max: nat, k: nat)
    requires max <= |res|
    ensures CopyLabel(mem, sz, pos, res, max, k) == if 0 < k && sz < pos then CopyNull else Copied(pos, res)
    decreases k
  {
    if k != 0 && pos <= sz {
      FullStays(mem, sz, pos, res, max, k - 1);
    }
  }

  // ---- The root ------------------------------------------------------------------------------

  lemma {:induction false} CopyGrows(mem: seq<Byte>, sz: nat, pos: nat, res: seq<Byte>, max: nat, k: nat)
    requires CopyLabel(mem, sz, pos, res, max, k).Copied?
    ensures |res| <= |CopyLabel(mem, sz, pos, res, max, k).res|
    ensures 0 < k && |res| < max ==> |res| < |CopyLabel(mem, sz, pos, res, max, k).res|
    decreases k
  {
    if k != 0 {
      if max <= |res| {
        CopyGrows(mem, sz, pos, res, max, k - 1);
      } else {
        CopyGrows(mem, sz, pos + 1, res + [mem[pos]], max, k - 1);
      }
    }
  }

  /** The text never shrinks. */
  lemma {:induction false} WalkGrows(mem: seq<Byte>, sz: nat, pos: nat, res: seq<Byte>, end: int, max: nat, fuel: nat)
    requires WalkName(mem, sz, pos, res, end, max, fuel).Decoded?
    ensures |res| <= |WalkName(mem, sz, pos, res, end, max, fuel).text|
    decreases fuel
  {
    var pos', res', end' := pos, res, end;
    if mem[pos] < 64 {
      var c := CopyLabel(mem, sz, pos + 1, WithDot(res, max), max, mem[pos]);
      CopyGrows(mem, sz, pos + 1, WithDot(res, max), max, mem[pos]);
      pos', res' := c.pos, c.res;
    } else if 192 <= mem[pos] {
      pos', end' := Target(mem, pos), pos + 2;
    }
    if mem[pos'] != 0 {
      WalkGrows(mem, sz, pos', res', end', max, fuel - 1);
    }
  }

  /** A length byte of a reserved form is never passed: the decoder does not end, or gives up. */
  lemma {:induction false} ReservedNotPassed(mem: seq<Byte>, sz: nat, pos: nat, res: seq<Byte>, end: int, max: nat, fuel: nat)
    requires pos < |mem| && 64 <= mem[pos] < 192
    ensures WalkName(mem, sz, pos, res, end, max, fuel) == if sz < pos && 0 < fuel then Null else Spin
    decreases fuel
  {
    if fuel != 0 && pos <= sz {
      ReservedNotPassed(mem, sz, pos, res, end, max, fuel - 1);
    }
  }

  /** Nor does the decoder end at a pointer that leads to itself. */
  lemma {:induction false} SelfPointerSpins(mem: seq<Byte>, sz: nat, pos: nat, res: seq<Byte>, end: int, max: nat, fuel: nat)
    requires pos + 1 < |mem| && 192 <= mem[pos] && Target(mem, pos) == pos <= sz
    ensures WalkName(mem, sz, pos, res, end, max, fuel) == Spin
    decreases fuel
  {
    if fuel != 0 {
      SelfPointerSpins(mem, sz, pos, res, pos + 2, max, fuel - 1);
    }
  }

  /** The root name is never decoded for what it is: its length byte is taken for an empty label, and
      the byte after it for the next length byte.  That byte is the high byte of the question's type,
      or of a record's, and no pointer. */
  lemma RootMisread(mem: seq<Byte>, sz: nat, p: nat, max: nat, fuel: nat)
    requires p + 1 < |mem| && mem[p] == 0 && mem[p + 1] < 192 && 0 < max
    ensures WalkName(mem, sz, p, [], -1, max, fuel) != Decoded([], p + 1)
  {
    if 0 < fuel {
      assert CopyLabel(mem, sz, p + 1, WithDot([], max), max, 0) == Copied(p + 1, []);
      assert WalkName(mem, sz, p, [], -1, max, fuel) == WalkOn(mem, sz, p + 1, [], -1, max, fuel);
      if p + 1 <= sz && 0 < mem[p + 1] {
        if fuel == 1 {
          assert WalkName(mem, sz, p + 1, [], -1, max, 0) == Spin;
        } else if mem[p + 1] < 64 {
          RootThenLabel(mem, sz, p + 1, max, fuel - 1);
        } else {
          ReservedNotPassed(mem, sz, p + 1, [], -1, max, fuel - 1);
        }
      }
    }
  }

  /** A label that is not empty shows in the text. */
  lemma RootThenLabel(mem: seq<Byte>, sz: nat, p: nat, max: nat, fuel: nat)
    requires p < |mem| && 0 < mem[p] < 64 && 0 < max && 0 < fuel
    ensures WalkName(mem, sz, p, [], -1, max, fuel).Decoded? ==> WalkName(mem, sz, p, [], -1, max, fuel).text != []
  {
    if WalkName(mem, sz, p, [], -1, max, fuel).Decoded? {
      var c := CopyLabel(mem, sz, p + 1, WithDot([], max), max, mem[p]);
      assert WalkName(mem, sz, p, [], -1, max, fuel) == WalkOn(mem, sz, c.pos, c.res, -1, max, fuel);
      CopyGrows(mem, sz, p + 1, [], max, mem[p]);
      if mem[c.pos] != 0 {
        WalkGrows(mem, sz, c.pos, c.res, -1, max, fuel - 1);
      }
    }
  }

  /** Exactly which names of a question the decoder gets right, text and end: those that are not the
      root and have at most one pointer in their expansion. */
  lemma DecodedExactly(mem: seq<Byte>, sz: nat, p: nat, max: nat)
    requires sz <= |mem| && Expand(mem[..sz], p, p).Name?
    requires |Dotted(Expand(mem[..sz], p, p).labels)| < max
    requires mem[p] == 0 ==> p + 1 < |mem| && mem[p + 1] < 192
    ensures var name, end := Expand(mem[..sz], p, p).labels, NameEnd(mem[..sz], p);
      (exists fuel: nat :: WalkName(mem, sz, p, [], -1, max, fuel) == Decoded(Dotted(name), end))
      <==> mem[p] != 0 && Hops(mem[..sz], p, p) <= 1
  {
    hide WalkName, Dotted;
    var msg := mem[..sz];
    var name, end := Expand(msg, p, p).labels, NameEnd(msg, p);
    if mem[p] == 0 {
      RootIsEmpty();
      forall fuel: nat ensures WalkName(mem, sz, p, [], -1, max, fuel) != Decoded(Dotted(name), end) {
        RootMisread(mem, sz, p, max, fuel);
      }
    } else {
      ExtendedFromNone(name);
      var f := Decodes(mem, sz, p, p, [], -1, max);
      EndRightIffOneHop(msg, p, p);
      forall fuel: nat ensures WalkName(mem, sz, p, [], -1, max, fuel) == Decoded(Dotted(name), end)
        ==> LastEnd(msg, p, p, -1) == end
      {
        if f <= fuel {
          WalkSettled(mem, sz, p, [], -1, max, f, fuel);
        } else if !WalkName(mem, sz, p, [], -1, max, fuel).Spin? {
          WalkSettled(mem, sz, p, [], -1, max, fuel, f);
        }
      }
    }
  }

  lemma RootIsEmpty()
    ensures Dotted([]) == []
  {
  }

  lemma ExtendedFromNone(labels: seq<seq<Byte>>)
    ensures Extended([], labels) == Dotted(labels)
  {
  }

  // ---- Encoding ------------------------------------------------------------------------------

  /** Text without dots is read into the current label. */
  lemma {:induction false} EncodePlain(part: seq<Byte>, a: seq<Byte>, rest: seq<Byte>)
    requires DOT !in a
    ensures EncodeFrom(part, a + rest) == EncodeFrom(part + a, rest)
    decreases |a|
  {
    if a == [] {
      assert a + rest == rest && part + a == part;
    } else {
      assert (a + rest)[1..] == a[1..] + rest;
      EncodePlain(part + [a[0]], a[1..], rest);
      assert part + [a[0]] + a[1..] == part + a;
    }
  }

  /** The labels contain neither dots nor NULs. */
  predicate Clean(labels: seq<seq<Byte>>) {
    forall i :: 0 <= i < |labels| ==> DOT !in labels[i] && 0 !in labels[i]
  }

  /** Text without NULs is kept by the C string functions. */
  lemma {:induction false} CStringPlain(a: seq<Byte>, rest: seq<Byte>)
    requires 0 !in a
    ensures CString(a + rest) == a + CString(rest)
    decreases |a|
  {
    if a == [] {
      assert a + rest == rest;
    } else {
      assert (a + rest)[1..] == a[1..] + rest;
      CStringPlain(a[1..], rest);
    }
  }

  /** The end of a label, at the end of the text or at a dot. */
  lemma EncodeEnd(part: seq<Byte>, rest: seq<Byte>)
    ensures EncodeFrom(part, []) == [|part| % 256] + part + [0]
    ensures EncodeFrom(part, [DOT] + rest) == [|part| % 256] + part + EncodeFrom([], rest)
  {
    assert ([DOT] + rest)[1..] == rest;
  }

  lemma EncodesHead(first: seq<Byte>, rest: seq<Byte>)
    requires DOT !in first && |first| < 256
    ensures Encode(first) == [|first|] + first + [0]
    ensures Encode(first + [DOT] + rest) == [|first|] + first + Encode(rest)
  {
    hide EncodeFrom;
    EncodePlain([], first, []);
    assert first + [] == first && [] + first == first;
    EncodePlain([], first, [DOT] + rest);
    assert first + [DOT] + rest == first + ([DOT] + rest);
    EncodeEnd(first, rest);
  }

  lemma CStringStop(rest: seq<Byte>)
    ensures rest == [] || rest[0] == 0 ==> CString(rest) == []
    ensures rest != [] && rest[0] != 0 ==> CString(rest) == [rest[0]] + CString(rest[1..])
  {
  }

  /** The encoder splits any text at its dots: whatever the parts, empty or long, the result is each of
      them with its length, modulo 256, before it, and a zero at the end. */
  lemma {:induction false} EncodeSplits(parts: seq<seq<Byte>>)
    requires parts != [] && forall i :: 0 <= i < |parts| ==> DOT !in parts[i]
    ensures Encode(Dotted(parts)) == Wire(parts)
  {
    hide EncodeFrom;
    var first, rest := parts[0], parts[1..];
    assert [] + first == first && first + [] == first;
    if rest == [] {
      EncodePlain([], first, []);
      EncodeEnd(first, []);
      assert Wire(parts) == [|first| % 256] + first + [0];
    } else {
      EncodeSplits(rest);
      EncodePlain([], first, [DOT] + Dotted(rest));
      assert Dotted(parts) == first + ([DOT] + Dotted(rest));
      EncodeEnd(first, Dotted(rest));
    }
  }

  /** The name "a.b", on the wire and as text. */
  lemma PlainExample()
    ensures WalkName([1, 97, 1, 98, 0], 5, 0, [], -1, 512, 2) == Decoded([97, 46, 98], 5)
    ensures Encode([97, 46, 98]) == [1, 97, 1, 98, 0]
  {
    var mem: seq<Byte> := [1, 97, 1, 98, 0];
    RefusedExactly(mem, 5, 0, [], -1, 512, 2);
    assert mem[1..2] == [97] && mem[3..4] == [98];
    RefusedExactly(mem, 5, 2, [97], -1, 512, 1);
    assert [97] + [DOT] + [98] == [97, 46, 98];
    var parts: seq<seq<Byte>> := [[97], [98]];
    assert parts[1..] == [[98]];
    assert Dotted(parts) == [97, 46, 98];
    EncodeSplits(parts);
    assert Wire(parts[1..]) == [1, 98] + Wire([]);
  }

  /** Where the first dot, NUL or end of the text comes determines the first byte that is encoded. */
  lemma EncodeFirst(a: seq<Byte>, rest: seq<Byte>)
    requires |a| < 256 && DOT !in a && 0 !in a
    requires rest == [] || rest[0] == DOT || rest[0] == 0
    ensures Encode(CString(a + rest))[0] == |a|
  {
    hide EncodeFrom, CString;
    CStringPlain(a, rest);
    CStringStop(rest);
    EncodePlain([], a, CString(rest));
    assert [] + a == a;
    EncodeEnd(a, if rest == [] then [] else CString(rest[1..]));
    assert a + [] == a;
  }

  /** A position in a label before which it is free of dots and NULs. */
  lemma {:induction false} FirstStop(a: seq<Byte>) returns (k: nat)
    ensures k <= |a| && DOT !in a[..k] && 0 !in a[..k]
    ensures k == |a| || a[k] == DOT || a[k] == 0
    ensures k == |a| <==> DOT !in a && 0 !in a
  {
    if a == [] || a[0] == DOT || a[0] == 0 {
      k := 0;
    } else {
      var j := FirstStop(a[1..]);
      k := j + 1;
      assert a[..k] == [a[0]] + a[1..][..j];
      assert a == [a[0]] + a[1..];
    }
  }

  lemma DottedStarts(labels: seq<seq<Byte>>)
    requires labels != []
    ensures labels[0] <= Dotted(labels)
  {
  }

  /** A label with a dot or a NUL shows in the first byte that is encoded. */
  lemma DirtyFirst(labels: seq<seq<Byte>>, k: nat)
    requires labels != [] && k < |labels[0]| <= 63
    requires DOT !in labels[0][..k] && 0 !in labels[0][..k] && (labels[0][k] == DOT || labels[0][k] == 0)
    ensures Encode(CString(Dotted(labels))) != Wire(labels)
  {
    hide EncodeFrom, CString, Dotted, Wire;
    var first, text := labels[0], Dotted(labels);
    DottedStarts(labels);
    var a, rest := first[..k], text[k..];
    assert text == a + rest;
    assert rest[0] == first[k];
    EncodeFirst(a, rest);
    WireParts(labels);
  }

  /** A label without dots and NULs is encoded as it is, and the rest after it. */
  lemma CleanFirst(first: seq<Byte>, rest: seq<seq<Byte>>)
    requires 1 <= |first| <= 63 && DOT !in first && 0 !in first
    ensures Encode(CString(Dotted([first] + rest)))
            == [|first|] + first + if rest == [] then [0] else Encode(CString(Dotted(rest)))
  {
    hide EncodeFrom, CString;
    assert ([first] + rest)[1..] == rest;
    if rest == [] {
      CStringPlain(first, []);
      CStringStop([]);
      assert first + [] == first;
      EncodesHead(first, []);
    } else {
      CStringPlain(first + [DOT], Dotted(rest));
      EncodesHead(first, CString(Dotted(rest)));
    }
  }

  /** Label codec inverse, exactly: encoding the decoded text reproduces the wire bytes of a
      non-empty name if and only if no label contains a dot or a NUL. */
  lemma {:induction false} RoundTripIffClean(labels: seq<seq<Byte>>)
    requires labels != [] && WellFormed(labels)
    ensures Encode(CString(Dotted(labels))) == Wire(labels) <==> Clean(labels)
  {
    hide EncodeFrom, CString, Dotted, Wire;
    var first, rest := labels[0], labels[1..];
    WireParts(labels);
    WireParts(rest);
    var k := FirstStop(first);
    if k < |first| {
      DirtyFirst(labels, k);
    } else {
      CleanFirst(first, rest);
      if rest != [] {
        RoundTripIffClean(rest);
        SameAfter([|first|] + first, Encode(CString(Dotted(rest))), Wire(rest));
        assert forall i :: 0 <= i < |rest| ==> rest[i] == labels[i + 1];
      }
    }
  }

  lemma SameAfter(head: seq<Byte>, a: seq<Byte>, b: seq<Byte>)
    ensures head + a == head + b <==> a == b
  {
    assert (head + a)[|head|..] == a && (head + b)[|head|..] == b;
  }

  /** A label that is a dot is encoded as two empty labels. */
  lemma DotSplits()
    ensures Wire([[DOT]]) == [1, DOT, 0] && Encode(CString(Dotted([[DOT]]))) == [0, 0, 0]
  {
    assert CString([DOT]) == [DOT] + CString([]);
    assert [DOT] + [] == [DOT];
    EncodeEnd([], []);
  }

  /** The encoded size is that of the dotted string plus 2. */
  lemma {:induction false} WireSize(labels: seq<seq<Byte>>)
    ensures labels != [] ==> |Wire(labels)| == |Dotted(labels)| + 2
  {
    if |labels| > 1 {
      WireSize(labels[1..]);
    }
  }

  /** A part of what is written at position `p` of a message. */
  lemma Within(msg: seq<Byte>, p: nat, w: seq<Byte>, i: nat, j: nat)
    requires p + |w| <= |msg| && msg[p..p + |w|] == w && i <= j <= |w|
    ensures msg[p + i..p + j] == w[i..j]
    ensures i < |w| ==> msg[p + i] == w[i]
  {
    forall k | 0 <= k < |w| ensures msg[p + k] == w[k] {
      assert msg[p..p + |w|][k] == msg[p + k];
    }
  }

  /** The first label of a name that is written out. */
  lemma WireFirst(msg: seq<Byte>, p: nat, first: seq<Byte>, rest: seq<Byte>)
    requires |first| < 256 && p + 1 + |first| + |rest| <= |msg|
    requires msg[p..p + 1 + |first| + |rest|] == [|first|] + first + rest
    ensures msg[p] == |first| && msg[p + 1..p + 1 + |first|] == first
    ensures msg[p + 1 + |first|..p + 1 + |first| + |rest|] == rest
  {
    var w := [|first|] + first + rest;
    Within(msg, p, w, 0, 0);
    Within(msg, p, w, 1, 1 + |first|);
    Within(msg, p, w, 1 + |first|, |w|);
    assert w[1..1 + |first|] == first && w[1 + |first|..] == rest;
  }

  /** A label in front of a name that is written out. */
  lemma LabelExpands(msg: seq<Byte>, run: nat, p: nat, first: seq<Byte>, rest: seq<seq<Byte>>)
    requires 1 <= |first| <= 63 && p + 1 + |first| <= |msg|
    requires msg[p] == |first| && msg[p + 1..p + 1 + |first|] == first
    requires Expand(msg, run, p + 1 + |first|) == Name(rest) && Hops(msg, run, p + 1 + |first|) == 0
    ensures Expand(msg, run, p) == Name([first] + rest) && Hops(msg, run, p) == 0
    ensures NameEnd(msg, p) == NameEnd(msg, p + 1 + |first|)
  {
  }

  lemma RootExpands(msg: seq<Byte>, run: nat, p: nat)
    requires p < |msg| && msg[p] == 0
    ensures Expand(msg, run, p) == Name([]) && Hops(msg, run, p) == 0 && NameEnd(msg, p) == p + 1
  {
  }

  lemma WireParts(labels: seq<seq<Byte>>)
    ensures Wire([]) == [0]
    ensures labels != [] && |labels[0]| < 256 ==>
      Wire(labels) == [|labels[0]|] + labels[0] + Wire(labels[1..]) && labels == [labels[0]] + labels[1..]
  {
  }

  /** A name that is written out at position `p` of a message expands to itself. */
  lemma {:induction false} WireExpands(msg: seq<Byte>, run: nat, p: nat, labels: seq<seq<Byte>>)
    requires WellFormed(labels)
    requires p + |Wire(labels)| <= |msg| && msg[p..p + |Wire(labels)|] == Wire(labels)
    ensures Expand(msg, run, p) == Name(labels) && Hops(msg, run, p) == 0
    ensures NameEnd(msg, p) == p + |Wire(labels)|
    decreases |labels|
  {
    hide Expand, Hops, NameEnd, Wire;
    WireParts(labels);
    if labels == [] {
      Within(msg, p, [0], 0, 1);
      RootExpands(msg, run, p);
    } else {
      WireFirst(msg, p, labels[0], Wire(labels[1..]));
      WireExpands(msg, run, p + 1 + |labels[0]|, labels[1..]);
      LabelExpands(msg, run, p, labels[0], labels[1..]);
    }
  }

  /** Encoding a dotted string and decoding the result gives the string back. */
  lemma DecodeEncoded(mem: seq<Byte>, p: nat, labels: seq<seq<Byte>>, max: nat) returns (fuel: nat)
    requires labels != [] && WellFormed(labels) && Clean(labels) && |Dotted(labels)| < max
    requires var w := Encode(CString(Dotted(labels)));
      p + |w| <= |mem| && mem[p..p + |w|] == w
    ensures WalkName(mem, |mem|, p, [], -1, max, fuel) == Decoded(Dotted(labels), p + |Dotted(labels)| + 2)
  {
    RoundTripIffClean(labels);
    WireSize(labels);
    var w := Wire(labels);
    assert mem[..|mem|] == mem;
    WireExpands(mem, p, p, labels);
    assert mem[p] == w[0];
    fuel := Decodes(mem, |mem|, p, p, [], -1, max);
    NoHopEnd(mem, p, p, -1);
  }
}
