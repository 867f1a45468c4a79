/** Domain names of the captive DNS server: the name decoder `labelToStr`, the encoder
    `strToLabel`, and the wire format of sections 3.1 and 4.1.4 of RFC 1035 to compare them with. */
module DnsNames {

  type Byte = b: int | 0 <= b < 256

  const DOT: Byte := 0x2E

  /** Where the names of a message may start: after the header. */
  const HEADER_SIZE: nat := 12

  // ---- The wire format -------------------------------------------------------------------------

  datatype Expansion = Malformed | Name(labels: seq<seq<Byte>>)

  /** A 16-bit number in network order. */
  function Word(hi: Byte, lo: Byte): nat {
    var h: int := hi;
    h * 256 + lo
  }

  /** Where the two bytes of a pointer lead. */
  function Target(msg: seq<Byte>, p: nat): nat
    requires p + 1 < |msg|
  {
    Word(msg[p], msg[p + 1]) % 0x4000
  }

  /** The name at `p`, in a run of labels that starts at `run`.  A pointer refers to a prior
      occurrence of a name: its target lies after the header and before the run that it ends. */
  function Expand(msg: seq<Byte>, run: nat, p: nat): Expansion
    decreases run, |msg| - p
  {
    if |msg| <= p then Malformed
    else if msg[p] == 0 then Name([])
    else if msg[p] < 64 then
      if |msg| < p + 1 + msg[p] then Malformed
      else
        match Expand(msg, run, p + 1 + msg[p])
        case Malformed => Malformed
        case Name(rest) => Name([msg[p + 1..p + 1 + msg[p]]] + rest)
    else if msg[p] < 192 || |msg| <= p + 1 then Malformed
    else
      var t := Target(msg, p);
      if HEADER_SIZE <= t < run then Expand(msg, t, t) else Malformed
  }

  /** The position just after the name at `p`. */
  function NameEnd(msg: seq<Byte>, p: nat): nat
    decreases |msg| - p
  {
    if |msg| <= p || msg[p] == 0 then p + 1
    else if msg[p] < 64 then NameEnd(msg, p + 1 + msg[p])
    else p + 2
  }

  /** The number of pointers in the expansion of the name at `p`. */
  function Hops(msg: seq<Byte>, run: nat, p: nat): nat
    requires Expand(msg, run, p).Name?
    decreases run, |msg| - p
  {
    if msg[p] == 0 then 0
    else if msg[p] < 64 then Hops(msg, run, p + 1 + msg[p])
    else 1 + Hops(msg, Target(msg, p), Target(msg, p))
  }

  /** A name as a sequence of labels, written out. */
  function Wire(labels: seq<seq<Byte>>): seq<Byte> {
    if labels == [] then [0]
    else [|labels[0]| % 256] + labels[0] + Wire(labels[1..])
  }

  predicate WellFormed(labels: seq<seq<Byte>>) {
    forall i :: 0 <= i < |labels| ==> 1 <= |labels[i]| <= 63
  }

  function Dotted(labels: seq<seq<Byte>>): seq<Byte> {
    if labels == [] then []
    else if |labels| == 1 then labels[0]
    else labels[0] + [DOT] + Dotted(labels[1..])
  }

  // ---- The decoder -----------------------------------------------------------------------------

  /** What `labelToStr` does on given memory.  `Fault`: it leaves the arrays it was handed.
      `Spin`: it is still running. */
  datatype Walk = Fault | Spin | Null | Decoded(text: seq<Byte>, end: nat)

  datatype Copy = CopyFault | CopyNull | Copied(pos: nat, res: seq<Byte>)

  /** The inner loop, with `k` bytes of the label to go. */
  function CopyLabel(mem: seq<Byte>, sz: nat, pos: nat, res: seq<Byte>, max: nat, k: nat): Copy
    decreases k
  {
    if k == 0 then Copied(pos, res)
    else if sz < pos then CopyNull
    else if max <= |res| then CopyLabel(mem, sz, pos, res, max, k - 1)
    else if |mem| <= pos then CopyFault
    else CopyLabel(mem, sz, pos + 1, res + [mem[pos]], max, k - 1)
  }

  function WithDot(res: seq<Byte>, max: nat): seq<Byte> {
    if |res| < max && res != [] then res + [DOT] else res
  }

  /** The outer loop, from the top of its body; `end` is negative until a pointer was seen. */
  function WalkName(mem: seq<Byte>, sz: nat, pos: nat, res: seq<Byte>, end: int, max: nat, fuel: nat): Walk
    decreases fuel, 1
  {
    if fuel == 0 then Spin
    else if |mem| <= pos then Fault
    else if mem[pos] < 64 then
      match CopyLabel(mem, sz, pos + 1, WithDot(res, max), max, mem[pos])
      case CopyFault => Fault
      case CopyNull => Null
      case Copied(pos', res') => WalkOn(mem, sz, pos', res', end, max, fuel)
    else if 192 <= mem[pos] then
      if |mem| <= pos + 1 then Fault
      else if sz < Target(mem, pos) then Null
      else WalkOn(mem, sz, Target(mem, pos), res, pos + 2, max, fuel)
    else WalkOn(mem, sz, pos, res, end, max, fuel)
  }

  /** The end of the outer loop's body, its condition, and what follows it. */
  function WalkOn(mem: seq<Byte>, sz: nat, pos: nat, res: seq<Byte>, end: int, max: nat, fuel: nat): Walk
    requires 0 < fuel
    decreases fuel, 0
  {
    if sz < pos then Null
    else if |mem| <= pos then Fault
    else if mem[pos] != 0 then WalkName(mem, sz, pos, res, end, max, fuel - 1)
    else if max <= |res| then Fault
    else Decoded(res, if end < 0 then pos + 1 else end)
  }

  predicate Defined(w: Walk) {
    w.Null? || w.Decoded?
  }

  /** The inner loop of `labelToStr`: copies a label of `j` bytes from `start` on behind the `shown`
      bytes of text. */
  method CopyBytes(packet: array<Byte>, start: nat, packetSz: nat, res: array<Byte>, shown: nat, j: nat)
    returns (ok: bool, p: nat, i: nat)
    requires packet != res && shown <= res.Length
    requires !CopyLabel(packet[..], packetSz, start, res[..shown], res.Length, j).CopyFault?
    modifies res
    ensures i <= res.Length
    ensures CopyLabel(packet[..], packetSz, start, old(res[..shown]), res.Length, j)
            == if ok then Copied(p, res[..i]) else CopyNull
  {
    ok, p, i := true, start, shown;
    ghost var mem := packet[..];
    ghost var copy := CopyLabel(mem, packetSz, start, res[..shown], res.Length, j);
    for k := 0 to j
      invariant i <= res.Length && packet[..] == mem
      invariant copy == CopyLabel(mem, packetSz, p, res[..i], res.Length, j - k)
    {
      if p > packetSz {
        return false, p, i;
      }
      if i < res.Length {
        ghost var before := res[..i];
        res[i] := packet[p];
        i, p := i + 1, p + 1;
        assert res[..i] == before + [mem[p - 1]];
      }
    }
  }

  /** `labelToStr`: decodes the name at `labelPtr` into `res` and returns the position after it, or
      -1 for NULL.  It is called only where the walk over the memory at hand ends without leaving
      the arrays; the bytes of `packet` from `packetSz` on are whatever the buffer holds. */
  method LabelToStr(packet: array<Byte>, labelPtr: nat, packetSz: nat, res: array<Byte>, ghost fuel: nat)
    returns (end: int)
    requires packet != res
    requires Defined(WalkName(packet[..], packetSz, labelPtr, [], -1, res.Length, fuel))
    modifies res
    ensures match WalkName(packet[..], packetSz, labelPtr, [], -1, res.Length, fuel)
            case Decoded(text, e) => end == e && |text| < res.Length && res[..|text|] == text && res[|text|] == 0
            case _ => end == -1
  {
    hide CopyLabel;
    var p: nat, i: nat, endPtr := labelPtr, 0, -1;
    ghost var mem, left := packet[..], fuel;
    ghost var outcome := WalkName(mem, packetSz, labelPtr, [], -1, res.Length, fuel);
    while true
      invariant i <= res.Length && endPtr >= -1
      invariant packet[..] == mem
      invariant outcome == WalkName(mem, packetSz, p, res[..i], endPtr, res.Length, left)
      decreases left
    {
      if packet[p] < 64 {
        var j := packet[p];
        p := p + 1;
        ghost var shown := res[..i];
        if i < res.Length && i != 0 {
          res[i] := DOT;
          i := i + 1;
        }
        assert res[..i] == WithDot(shown, res.Length);
        var ok;
        ok, p, i := CopyBytes(packet, p, packetSz, res, i, j);
        if !ok {
          return -1;
        }
      } else if packet[p] >= 192 {
        endPtr := p + 2;
        var offset := Word(packet[p], packet[p + 1]) % 0x4000;
        if offset > packetSz {
          return -1;
        }
        p := offset;
      }
      if p > packetSz {
        return -1;
      }
      if packet[p] == 0 {
        break;
      }
      left := left - 1;
    }
    res[i] := 0;
    if endPtr == -1 {
      endPtr := p + 1;
    }
    return endPtr;
  }

  // ---- The encoder -----------------------------------------------------------------------------

  /** The text of a C string: what precedes its first NUL. */
  function CString(s: seq<Byte>): seq<Byte> {
    if s == [] || s[0] == 0 then [] else [s[0]] + CString(s[1..])
  }

  /** What is written from the length byte of the current label on, `part` of which has been read. */
  function EncodeFrom(part: seq<Byte>, str: seq<Byte>): (wire: seq<Byte>)
    ensures |wire| == |part| + |str| + 2
    decreases |str|
  {
    if str == [] then [|part| % 256] + part + [0]
    else if str[0] == DOT then [|part| % 256] + part + EncodeFrom([], str[1..])
    else EncodeFrom(part + [str[0]], str[1..])
  }

  function Encode(str: seq<Byte>): seq<Byte> {
    EncodeFrom([], str)
  }

  lemma {:induction false} CStringPrefix(s: seq<Byte>, k: nat)
    requires k < |s| && s[k] == 0 && forall i :: 0 <= i < k ==> s[i] != 0
    ensures CString(s) == s[..k]
  {
    if k != 0 {
      CStringPrefix(s[1..], k - 1);
      assert s[..k] == [s[0]] + s[1..][..k - 1];
    }
  }

  lemma {:induction false} CStringAt(s: seq<Byte>, k: nat)
    requires k <= |CString(s)| < |s|
    ensures if k < |CString(s)| then s[k] == CString(s)[k] && s[k] != 0 else s[k] == 0
    decreases k
  {
    if k != 0 {
      CStringAt(s[1..], k - 1);
    }
  }

  /** What the rest of the output, from `len` on, says byte by byte. */
  lemma SplitWire(wire: seq<Byte>, len: nat, v: Byte, part: seq<Byte>, rest: seq<Byte>)
    requires len <= |wire| && wire[len..] == [v] + part + rest
    ensures len + 1 + |part| <= |wire| && wire[len] == v
    ensures forall k :: 0 <= k < |part| ==> wire[len + 1 + k] == part[k]
    ensures wire[len + 1 + |part|..] == rest
  {
    assert wire == wire[..len] + ([v] + part + rest);
  }

  /** The output has replaced a stretch of what was there before. */
  lemma Spliced(a: seq<Byte>, wire: seq<Byte>, before: seq<Byte>)
    requires |wire| <= |a| == |before|
    requires forall k :: 0 <= k < |wire| ==> a[k] == wire[k]
    requires forall k :: |wire| <= k < |a| ==> a[k] == before[k]
    ensures a == wire + before[|wire|..]
  {
  }

  /** One step of the encoder, at character `s` of a terminated string. */
  lemma EncodeStep(chars: seq<Byte>, s: nat, part: seq<Byte>)
    requires s < |chars|
    ensures chars[s] == 0 ==> CString(chars[s..]) == [] && EncodeFrom(part, []) == [|part| % 256] + part + [0]
    ensures chars[s] != 0 ==> CString(chars[s..]) == [chars[s]] + CString(chars[s + 1..])
    ensures chars[s] == DOT ==>
      EncodeFrom(part, CString(chars[s..])) == [|part| % 256] + part + EncodeFrom([], CString(chars[s + 1..]))
    ensures chars[s] != 0 && chars[s] != DOT ==>
      EncodeFrom(part, CString(chars[s..])) == EncodeFrom(part + [chars[s]], CString(chars[s + 1..]))
  {
    assert chars[s..][1..] == chars[s + 1..];
    if chars[s] != 0 {
      var text := [chars[s]] + CString(chars[s + 1..]);
      assert CString(chars[s..]) == text;
      assert text[1..] == CString(chars[s + 1..]);
    }
  }

  /** `strToLabel`: writes the C string in `str` to `dest`, from position `at` on, and returns the
      position after it.  The string must be terminated and the room suffice: the source has no
      check of its own. */
  method StrToLabel(str: array<Byte>, dest: array<Byte>, at: nat) returns (p: nat)
    requires str != dest
    requires |CString(str[..])| < str.Length
    requires at + |CString(str[..])| + 2 <= dest.Length
    modifies dest
    ensures p == at + |CString(str[..])| + 2
    ensures dest[..] == old(dest[..at]) + Encode(CString(str[..])) + old(dest[p..])
  {
    hide CString, EncodeFrom;
    ghost var chars, before := str[..], dest[..];
    ghost var wire := before[..at] + Encode(CString(chars));
    ghost var part: seq<Byte> := [];
    var len: nat, s: nat := at, 0;
    p := at + 1;
    assert chars[0..] == chars;
    while true
      invariant forall k :: 0 <= k < str.Length ==> str[k] == chars[k]
      invariant s < |chars| && s + |CString(chars[s..])| == |CString(chars)|
      invariant at <= len <= |wire| && p == len + 1 + |part| && p == at + 1 + s
      invariant wire[len..] == EncodeFrom(part, CString(chars[s..]))
      invariant forall k :: 0 <= k < len ==> dest[k] == wire[k]
      invariant forall k :: 0 <= k < |part| ==> dest[len + 1 + k] == part[k]
      invariant forall k :: p <= k < dest.Length ==> dest[k] == before[k]
      decreases |chars| - s
    {
      EncodeStep(chars, s, part);
      if str[s] == DOT || str[s] == 0 {
        var v: Byte := (p - len - 1) % 256;
        SplitWire(wire, len, v, part, if str[s] == 0 then [0] else EncodeFrom([], CString(chars[s + 1..])));
        dest[len] := v;
        forall k | len + 1 <= k < p ensures dest[k] == wire[k] {
          assert dest[len + 1 + (k - len - 1)] == part[k - len - 1];
        }
        len := p;
        p := p + 1;
        if str[s] == 0 {
          break;
        }
        part := [];
        s := s + 1;
      } else {
        dest[p] := str[s];
        part := part + [str[s]];
        p, s := p + 1, s + 1;
      }
    }
    assert wire[len..] == [0] && wire[len] == wire[len..][0];
    dest[len] := 0;
    Spliced(dest[..], wire, before);
  }
}
