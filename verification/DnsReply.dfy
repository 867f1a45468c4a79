/** The request handler of the captive DNS server, `captdnsRecv`: it walks all questions of a
    request and appends a resource record for each A, NS and URI question. */
module DnsReply {

  import opened DnsNames

  /** The size of both message buffers. */
  const DNS_LEN: nat := 512

  const QTYPE_A: nat := 1
  const QTYPE_NS: nat := 2
  const QTYPE_URI: nat := 256
  const QCLASS_IN: nat := 1
  const QCLASS_URI: nat := 256

  /** "http://esp.nonet" */
  const PORTAL: seq<Byte> := [104, 116, 116, 112, 58, 47, 47, 101, 115, 112, 46, 110, 111, 110, 101, 116]

  /** The name server that is given out: the label "ns". */
  const SERVER: seq<Byte> := [2, 110, 115, 0]

  type Address = ip: seq<Byte> | |ip| == 4 witness [0, 0, 0, 0]

  function N16(n: nat): (b: seq<Byte>)
    ensures |b| == 2
  {
    [n / 256 % 256, n % 256]
  }

  predicate Answerable(qtype: nat) {
    qtype == QTYPE_A || qtype == QTYPE_NS || qtype == QTYPE_URI
  }

  function RecordData(qtype: nat, ip: Address): seq<Byte> {
    if qtype == QTYPE_A then ip
    else if qtype == QTYPE_NS then SERVER
    else N16(10) + N16(1) + PORTAL
  }

  function RecordClass(qtype: nat): nat {
    if qtype == QTYPE_URI then QCLASS_URI else QCLASS_IN
  }

  /** The TTL field of a record whose fixed part starts at `at`: for NS and URI records only the two
      high bytes are written, the others are what the reply buffer held before. */
  function RecordTtl(qtype: nat, stack: seq<Byte>, at: nat): seq<Byte>
    requires at + 8 <= |stack|
  {
    if qtype == QTYPE_A then [0, 0, 0, 0] else [0, 0] + stack[at + 6..at + 8]
  }

  function RecordTail(qtype: nat, ip: Address, stack: seq<Byte>, at: nat): (r: seq<Byte>)
    requires Answerable(qtype) && at + 8 <= |stack|
    ensures |r| == 10 + |RecordData(qtype, ip)|
  {
    N16(qtype) + N16(RecordClass(qtype)) + RecordTtl(qtype, stack, at)
    + N16(|RecordData(qtype, ip)|) + RecordData(qtype, ip)
  }

  /** `Stuck`: the handler leaves its buffers or does not end. */
  datatype Service = Stuck | Dropped | Answered(answers: seq<Byte>, count: nat)

  /** The question loop, with `n` questions to go, the next one at `p`. `stack` is what the reply
      buffer held when the handler was entered. */
  function Serve(mem: seq<Byte>, len: nat, stack: seq<Byte>, ip: Address, fuel: nat,
                 n: nat, p: nat, answers: seq<Byte>, count: nat): Service
    requires |stack| == DNS_LEN
    decreases n
  {
    if n == 0 then Answered(answers, count)
    else
      match WalkName(mem, len, p, [], -1, DNS_LEN, fuel)
      case Fault => Stuck
      case Spin => Stuck
      case Null => Dropped
      case Decoded(text, q) =>
        if |mem| < q + 4 then Stuck
        else
          var qtype := Word(mem[q], mem[q + 1]);
          if !Answerable(qtype) then Serve(mem, len, stack, ip, fuel, n - 1, q + 4, answers, count)
          else
            var name := Encode(CString(text));
            var at := len + |answers| + |name|;
            if DNS_LEN < at + 10 + |RecordData(qtype, ip)| then Stuck
            else
              Serve(mem, len, stack, ip, fuel, n - 1, q + 4,
                    answers + name + RecordTail(qtype, ip, stack, at), (count + 1) % 0x10000)
  }

  datatype Handling = Undefined | Silence | Reply(message: seq<Byte>)

  predicate Truncated(flags: Byte) {
    flags / 2 % 2 == 1
  }

  function WithQr(flags: Byte): Byte {
    if flags < 128 then flags + 128 else flags
  }

  /** The request with the QR bit and the number of answers put in. */
  function Head(request: seq<Byte>, count: nat): (h: seq<Byte>)
    requires HEADER_SIZE <= |request|
    ensures |h| == |request|
  {
    request[2 := WithQr(request[2])][6 := count / 256 % 256][7 := count % 256]
  }

  predicate Refused(mem: seq<Byte>, len: nat)
    requires len <= |mem|
  {
    || DNS_LEN < len
    || len < HEADER_SIZE
    || (exists i :: 6 <= i < 12 && mem[i] != 0)
    || Truncated(mem[2])
  }

  function Handle(mem: seq<Byte>, len: nat, stack: seq<Byte>, ip: Address, fuel: nat): Handling
    requires len <= |mem| && |stack| == DNS_LEN
  {
    if Refused(mem, len) then Silence
    else
      match Serve(mem, len, stack, ip, fuel, Word(mem[4], mem[5]), HEADER_SIZE, [], 0)
      case Answered(answers, count) => Reply(Head(mem[..len], count) + answers)
      case Dropped => Silence
      case Stuck => Undefined
  }

  /** Which requests are not looked at any further, in full. */
  lemma RefusedMeaning(mem: seq<Byte>, len: nat)
    requires len <= |mem|
    ensures Refused(mem, len) <==>
      || len < 12 || 512 < len
      || !(mem[6] == 0 && mem[7] == 0)       // answers
      || !(mem[8] == 0 && mem[9] == 0)       // name servers
      || !(mem[10] == 0 && mem[11] == 0)     // additional records
      || 2 <= mem[2] % 4                     // truncated
  {
  }

  /** Every reply, whatever the request, has QR set and is otherwise the request, but for the number of
      answers and what is appended. */
  lemma ReplyFrame(mem: seq<Byte>, len: nat, stack: seq<Byte>, ip: Address, fuel: nat)
    requires len <= |mem| && |stack| == DNS_LEN && Handle(mem, len, stack, ip, fuel).Reply?
    ensures var m := Handle(mem, len, stack, ip, fuel).message;
      && 12 <= len <= |m| && m[2] / 128 == 1 && m[2] % 128 == mem[2] % 128
      && forall i :: 0 <= i < len && i != 2 && i != 6 && i != 7 ==> m[i] == mem[i]
  {
    hide Serve;
  }

  /** A request is not answered if it is refused, or if the first of its names is. */
  lemma NotAnswered(mem: seq<Byte>, len: nat, stack: seq<Byte>, ip: Address, fuel: nat)
    requires len <= |mem| && |stack| == DNS_LEN
    ensures Refused(mem, len) ==> Handle(mem, len, stack, ip, fuel) == Silence
    ensures !Refused(mem, len) && 0 < Word(mem[4], mem[5]) && WalkName(mem, len, 12, [], -1, 512, fuel) == Null ==>
      Handle(mem, len, stack, ip, fuel) == Silence
  {
    hide WalkName, Word;
  }

  // ---- The handler -----------------------------------------------------------------------------

  method SetN16(a: array<Byte>, at: nat, n: nat)
    requires at + 2 <= a.Length
    modifies a
    ensures a[at] == N16(n)[0] && a[at + 1] == N16(n)[1]
    ensures forall k :: 0 <= k < a.Length && k != at && k != at + 1 ==> a[k] == old(a[k])
  {
    a[at] := n / 256 % 256;
    a[at + 1] := n % 256;
  }

  method SetN32(a: array<Byte>, at: nat, n: nat)
    requires at + 4 <= a.Length
    modifies a
    ensures a[at] == n / 0x100_0000 % 256 && a[at + 1] == n / 0x1_0000 % 256
    ensures a[at + 2] == n / 256 % 256 && a[at + 3] == n % 256
    ensures forall k :: 0 <= k < a.Length && !(at <= k < at + 4) ==> a[k] == old(a[k])
  {
    a[at] := n / 0x100_0000 % 256;
    a[at + 1] := n / 0x1_0000 % 256;
    a[at + 2] := n / 256 % 256;
    a[at + 3] := n % 256;
  }

  /** `memcpy` */
  method Put(a: array<Byte>, at: nat, bytes: seq<Byte>)
    requires at + |bytes| <= a.Length
    modifies a
    ensures forall k :: 0 <= k < |bytes| ==> a[at + k] == bytes[k]
    ensures forall k :: 0 <= k < a.Length && !(at <= k < at + |bytes|) ==> a[k] == old(a[k])
  {
    for i := 0 to |bytes|
      invariant forall k :: 0 <= k < i ==> a[at + k] == bytes[k]
      invariant forall k :: 0 <= k < a.Length && !(at <= k < at + i) ==> a[k] == old(a[k])
    {
      a[at + i] := bytes[i];
    }
  }

  /** The bytes from `at` to `at + |r|` are those of `r`. */
  ghost predicate Holds(a: seq<Byte>, at: nat, r: seq<Byte>) {
    at + |r| <= |a| && forall k :: 0 <= k < |r| ==> a[at + k] == r[k]
  }

  lemma HoldsBoth(a: seq<Byte>, b: seq<Byte>, at: nat, r: seq<Byte>, s: seq<Byte>)
    requires Holds(a, at, r) && |a| == |b| && Holds(b, at + |r|, s)
    requires forall k :: at <= k < at + |r| ==> b[k] == a[k]
    ensures Holds(b, at, r + s)
  {
    forall k | 0 <= k < |r + s| ensures b[at + k] == (r + s)[k] {
      if |r| <= k {
        assert b[at + |r| + (k - |r|)] == s[k - |r|];
      }
    }
  }

  /** Nothing but the bytes from `lo` to `hi` differs. */
  twostate predicate Framed(a: array<Byte>, lo: nat, hi: nat)
    reads a
  {
    forall k :: 0 <= k < a.Length && !(lo <= k < hi) ==> a[k] == old(a[k])
  }

  /** Adds a field to what is held from `start` on. */
  method Field(a: array<Byte>, at: nat, n: nat, ghost start: nat, ghost done: seq<Byte>)
    requires at == start + |done| && at + 2 <= a.Length && Holds(a[..], start, done)
    modifies a
    ensures Holds(a[..], start, done + N16(n)) && Framed(a, at, at + 2)
  {
    ghost var before := a[..];
    SetN16(a, at, n);
    HoldsBoth(before, a[..], start, done, N16(n));
  }

  lemma HoldsNothing(a: seq<Byte>, at: nat)
    requires at <= |a|
    ensures Holds(a, at, [])
  {
  }

  lemma HoldsAll(a: seq<Byte>, end: nat, r: seq<Byte>)
    requires |r| <= end <= |a| && forall k :: 0 <= k < |r| ==> a[end - |r| + k] == r[k]
    ensures Holds(a, end - |r|, r)
  {
  }

  /** The three records after their names, field by field. */
  lemma Tails(ip: Address, stack: seq<Byte>, rend: nat)
    requires rend + 8 <= |stack|
    ensures RecordTail(QTYPE_A, ip, stack, rend) == N16(QTYPE_A) + N16(QCLASS_IN) + [0, 0, 0, 0] + N16(4) + ip
    ensures RecordTail(QTYPE_NS, ip, stack, rend)
            == N16(QTYPE_NS) + N16(QCLASS_IN) + RecordTtl(QTYPE_NS, stack, rend) + N16(4) + SERVER
    ensures RecordTail(QTYPE_URI, ip, stack, rend)
            == N16(QTYPE_URI) + N16(QCLASS_URI) + RecordTtl(QTYPE_URI, stack, rend) + N16(20) + N16(10) + N16(1) + PORTAL
  {
  }

  /** The bytes of a TTL field that were left alone are held as well. */
  lemma LeftAlone(a: seq<Byte>, stack: seq<Byte>, rend: nat, done: seq<Byte>)
    requires Holds(a, rend, done + N16(0)) && |done| == 4 && rend + 8 <= |a| == |stack|
    requires a[rend + 6] == stack[rend + 6] && a[rend + 7] == stack[rend + 7]
    ensures Holds(a, rend, done + ([0, 0] + stack[rend + 6..rend + 8]))
  {
    HoldsBoth(a, a, rend, done + N16(0), stack[rend + 6..rend + 8]);
    assert done + ([0, 0] + stack[rend + 6..rend + 8]) == done + N16(0) + stack[rend + 6..rend + 8];
  }

  /** Four bytes of data, one after the other. */
  method PutFour(reply: array<Byte>, rend: nat, a: Byte, b: Byte, c: Byte, d: Byte) returns (rend': nat)
    requires rend + 4 <= reply.Length
    modifies reply
    ensures rend' == rend + 4 && Holds(reply[..], rend, [a, b, c, d]) && Framed(reply, rend, rend')
  {
    rend' := rend;
    reply[rend'], rend' := a, rend' + 1;
    reply[rend'], rend' := b, rend' + 1;
    reply[rend'], rend' := c, rend' + 1;
    reply[rend'], rend' := d, rend' + 1;
  }

  /** The A record: its fixed part, all of it written, and the address. */
  method PutA(reply: array<Byte>, rend: nat, ip: Address, ghost stack: seq<Byte>) returns (rend': nat)
    requires rend + 14 <= reply.Length == |stack|
    modifies reply
    ensures rend' == rend + 14 && Holds(reply[..], rend, RecordTail(QTYPE_A, ip, stack, rend))
    ensures Framed(reply, rend, rend')
  {
    hide Holds, RecordTail;
    HoldsNothing(reply[..], rend);
    rend' := rend + 10;
    Field(reply, rend, QTYPE_A, rend, []);
    assert [] + N16(QTYPE_A) == N16(QTYPE_A);
    Field(reply, rend + 2, QCLASS_IN, rend, N16(QTYPE_A));
    ghost var done, held := N16(QTYPE_A) + N16(QCLASS_IN), reply[..];
    SetN32(reply, rend + 4, 0);
    HoldsAll(reply[..], rend + 8, [0, 0, 0, 0]);
    HoldsBoth(held, reply[..], rend, done, [0, 0, 0, 0]);
    Field(reply, rend + 8, 4, rend, done + [0, 0, 0, 0]);
    done, held := done + [0, 0, 0, 0] + N16(4), reply[..];
    rend' := PutFour(reply, rend', ip[0], ip[1], ip[2], ip[3]);
    assert ip == [ip[0], ip[1], ip[2], ip[3]];
    HoldsBoth(held, reply[..], rend, done, ip);
    Tails(ip, stack, rend);
  }

  /** The NS record: half of its TTL is not written. */
  method PutNs(reply: array<Byte>, rend: nat, ip: Address, ghost stack: seq<Byte>) returns (rend': nat)
    requires rend + 14 <= reply.Length == |stack|
    requires forall k :: rend <= k < reply.Length ==> reply[k] == stack[k]
    modifies reply
    ensures rend' == rend + 14 && Holds(reply[..], rend, RecordTail(QTYPE_NS, ip, stack, rend))
    ensures Framed(reply, rend, rend')
  {
    hide Holds, RecordTail;
    HoldsNothing(reply[..], rend);
    rend' := rend + 10;
    Field(reply, rend, QTYPE_NS, rend, []);
    assert [] + N16(QTYPE_NS) == N16(QTYPE_NS);
    Field(reply, rend + 2, QCLASS_IN, rend, N16(QTYPE_NS));
    ghost var done := N16(QTYPE_NS) + N16(QCLASS_IN);
    Field(reply, rend + 4, 0, rend, done);
    LeftAlone(reply[..], stack, rend, done);
    done := done + RecordTtl(QTYPE_NS, stack, rend);
    Field(reply, rend + 8, 4, rend, done);
    done := done + N16(4);
    ghost var held := reply[..];
    rend' := PutFour(reply, rend', 2, 110, 115, 0);
    HoldsBoth(held, reply[..], rend, done, SERVER);
    Tails(ip, stack, rend);
  }

  /** The URI record (section 4.5 of RFC 7553): priority, weight and target. */
  method PutUri(reply: array<Byte>, rend: nat, ip: Address, ghost stack: seq<Byte>) returns (rend': nat)
    requires rend + 30 <= reply.Length == |stack|
    requires forall k :: rend <= k < reply.Length ==> reply[k] == stack[k]
    modifies reply
    ensures rend' == rend + 30 && Holds(reply[..], rend, RecordTail(QTYPE_URI, ip, stack, rend))
    ensures Framed(reply, rend, rend')
  {
    hide Holds, RecordTail;
    HoldsNothing(reply[..], rend);
    rend' := rend + 10;
    var uh := rend';
    rend' := rend' + 4;
    Field(reply, rend, QTYPE_URI, rend, []);
    assert [] + N16(QTYPE_URI) == N16(QTYPE_URI);
    Field(reply, rend + 2, QCLASS_URI, rend, N16(QTYPE_URI));
    ghost var done := N16(QTYPE_URI) + N16(QCLASS_URI);
    Field(reply, rend + 4, 0, rend, done);
    LeftAlone(reply[..], stack, rend, done);
    done := done + RecordTtl(QTYPE_URI, stack, rend);
    Field(reply, rend + 8, 4 + 16, rend, done);
    Field(reply, uh, 10, rend, done + N16(20));
    Field(reply, uh + 2, 1, rend, done + N16(20) + N16(10));
    ghost var held := reply[..];
    Put(reply, rend', PORTAL);
    rend' := rend' + 16;
    HoldsAll(reply[..], rend', PORTAL);
    HoldsBoth(held, reply[..], rend, done + N16(20) + N16(10) + N16(1), PORTAL);
    Tails(ip, stack, rend);
  }

  lemma CStringOfBuffer(buff: seq<Byte>, text: seq<Byte>)
    requires |text| < |buff| && buff[..|text|] == text && buff[|text|] == 0
    ensures CString(buff) == CString(text) && |CString(text)| < |buff|
    decreases |text|
  {
    if text != [] && text[0] != 0 {
      assert buff[0] == text[0];
      assert buff[1..][..|text| - 1] == text[1..];
      CStringOfBuffer(buff[1..], text[1..]);
    }
  }

  lemma DataSizes(ip: Address)
    ensures |RecordData(QTYPE_A, ip)| == |RecordData(QTYPE_NS, ip)| == 4 && |RecordData(QTYPE_URI, ip)| == 20
  {
  }

  /** The branch of the question loop for a question that is answered: the decoded name is in
      `buff`, and the record is put at `rend`. */
  method Answer(reply: array<Byte>, buff: array<Byte>, rend: nat, qtype: nat, ip: Address, ghost stack: seq<Byte>)
    returns (rend': nat)
    requires reply != buff && Answerable(qtype) && |stack| == reply.Length
    requires |CString(buff[..])| < buff.Length
    requires rend + |Encode(CString(buff[..]))| + 10 + |RecordData(qtype, ip)| <= reply.Length
    requires HEADER_SIZE <= rend && forall k :: rend <= k < reply.Length ==> reply[k] == stack[k]
    modifies reply
    ensures var name := Encode(CString(old(buff[..])));
      && rend' == rend + |name| + 10 + |RecordData(qtype, ip)| <= reply.Length
      && Holds(reply[..], rend, name + RecordTail(qtype, ip, stack, rend + |name|))
    ensures Framed(reply, rend, rend')
  {
    hide Holds, RecordTail, RecordData, EncodeFrom, CString;
    ghost var name := Encode(CString(buff[..]));
    ghost var before := reply[..];
    rend' := StrToLabel(buff, reply, rend);
    ghost var named := reply[..];
    assert forall k :: 0 <= k < rend ==> named[k] == before[k];
    assert forall k :: rend' <= k < reply.Length ==> named[k] == before[k];
    assert forall k :: 0 <= k < |name| ==> named[rend' - |name| + k] == name[k];
    HoldsAll(named, rend', name);
    ghost var at := rend';
    DataSizes(ip);
    if qtype == QTYPE_A {
      rend' := PutA(reply, rend', ip, stack);
    } else if qtype == QTYPE_NS {
      rend' := PutNs(reply, rend', ip, stack);
    } else {
      rend' := PutUri(reply, rend', ip, stack);
    }
    HoldsBoth(named, reply[..], rend, name, RecordTail(qtype, ip, stack, at));
  }

  /** The reply so far: the patched request, the records, and what the buffer held before. */
  ghost predicate Built(reply: seq<Byte>, request: seq<Byte>, stack: seq<Byte>, answers: seq<Byte>, count: nat) {
    && HEADER_SIZE <= |request| && |request| + |answers| <= |reply| == |stack| == DNS_LEN
    && count < 0x10000
    && Holds(reply, 0, Head(request, count))
    && Holds(reply, |request|, answers)
    && forall k :: |request| + |answers| <= k < DNS_LEN ==> reply[k] == stack[k]
  }

  /** What is appended for an answered question whose record starts at `at`. */
  function Record(name: seq<Byte>, qtype: nat, ip: Address, stack: seq<Byte>, at: nat): seq<Byte>
    requires Answerable(qtype) && at + |name| + 8 <= |stack|
  {
    name + RecordTail(qtype, ip, stack, at + |name|)
  }

  /** One more record is counted in the header. */
  method CountAnswer(reply: array<Byte>, ghost request: seq<Byte>, ghost stack: seq<Byte>,
                     ghost answers: seq<Byte>, ghost more: seq<Byte>, ghost count: nat, ghost before: seq<Byte>)
    requires Built(before, request, stack, answers, count)
    requires reply.Length == DNS_LEN && |request| + |answers| + |more| <= DNS_LEN
    requires forall k :: 0 <= k < |request| + |answers| ==> reply[k] == before[k]
    requires Holds(reply[..], |request| + |answers|, more)
    requires forall k :: |request| + |answers| + |more| <= k < DNS_LEN ==> reply[k] == stack[k]
    modifies reply
    ensures Built(reply[..], request, stack, answers + more, (count + 1) % 0x10000)
  {
    ghost var head := Head(request, count);
    assert reply[6] == head[6] && reply[7] == head[7];
    assert Word(reply[6], reply[7]) == count;
    HoldsBoth(before, reply[..], |request|, answers, more);
    SetN16(reply, 6, (Word(reply[6], reply[7]) + 1) % 0x10000);
    assert Head(request, (count + 1) % 0x10000) == head[6 := reply[6]][7 := reply[7]];
  }

  /** Answers a question and counts the record. */
  method AnswerAndCount(reply: array<Byte>, buff: array<Byte>, rend: nat, qtype: nat, ip: Address, ghost request: seq<Byte>,
                        ghost stack: seq<Byte>, ghost answers: seq<Byte>, ghost count: nat, ghost text: seq<Byte>)
    returns (rend': nat)
    requires reply != buff && reply.Length == DNS_LEN && Answerable(qtype)
    requires |text| < buff.Length && buff[..|text|] == text && buff[|text|] == 0
    requires Built(reply[..], request, stack, answers, count) && rend == |request| + |answers|
    requires rend + |Encode(CString(text))| + 10 + |RecordData(qtype, ip)| <= DNS_LEN
    modifies reply
    ensures var record := Record(Encode(CString(text)), qtype, ip, stack, rend);
      rend' == rend + |record| && Built(reply[..], request, stack, answers + record, (count + 1) % 0x10000)
  {
    hide EncodeFrom, CString, RecordTail, RecordData, Head;
    ghost var before := reply[..];
    CStringOfBuffer(buff[..], text);
    rend' := Answer(reply, buff, rend, qtype, ip, stack);
    CountAnswer(reply, request, stack, answers, Record(Encode(CString(text)), qtype, ip, stack, rend), count, before);
  }

  lemma ServeStep(mem: seq<Byte>, len: nat, stack: seq<Byte>, ip: Address, fuel: nat,
                  n: nat, p: nat, answers: seq<Byte>, count: nat)
    requires |stack| == DNS_LEN && 0 < n
    requires !Serve(mem, len, stack, ip, fuel, n, p, answers, count).Stuck?
    ensures var w := WalkName(mem, len, p, [], -1, DNS_LEN, fuel);
      && Defined(w)
      && (w.Null? ==> Serve(mem, len, stack, ip, fuel, n, p, answers, count).Dropped?)
      && (w.Decoded? ==>
            && w.end + 4 <= |mem|
            && var qtype, name := Word(mem[w.end], mem[w.end + 1]), Encode(CString(w.text));
            if Answerable(qtype) then
              && len + |answers| + |name| + 10 + |RecordData(qtype, ip)| <= DNS_LEN
              && Serve(mem, len, stack, ip, fuel, n, p, answers, count)
                 == Serve(mem, len, stack, ip, fuel, n - 1, w.end + 4,
                          answers + Record(name, qtype, ip, stack, len + |answers|), (count + 1) % 0x10000)
            else
              Serve(mem, len, stack, ip, fuel, n, p, answers, count)
              == Serve(mem, len, stack, ip, fuel, n - 1, w.end + 4, answers, count))
  {
    hide WalkName, EncodeFrom, CString, RecordTail;
    var w := WalkName(mem, len, p, [], -1, DNS_LEN, fuel);
    if w.Decoded? && Answerable(Word(mem[w.end], mem[w.end + 1])) {
      var qtype, name := Word(mem[w.end], mem[w.end + 1]), Encode(CString(w.text));
      assert answers + name + RecordTail(qtype, ip, stack, len + |answers| + |name|)
          == answers + Record(name, qtype, ip, stack, len + |answers|);
    }
  }

  /** One round of the question loop: decodes the name at `p` and answers the question if it is one
      of the three kinds.  Returns the position of the next question, or -1 for a name that is
      refused. */
  method Question(usrdata: array<Byte>, p: nat, length: nat, reply: array<Byte>, buff: array<Byte>, rend: nat,
                  ip: Address, ghost stack: seq<Byte>, ghost fuel: nat, ghost n: nat, ghost answers: seq<Byte>, ghost count: nat)
    returns (p': int, rend': nat, ghost answers': seq<Byte>, ghost count': nat)
    requires usrdata != reply && usrdata != buff && reply != buff
    requires length <= usrdata.Length && reply.Length == buff.Length == DNS_LEN == |stack|
    requires Built(reply[..], usrdata[..length], stack, answers, count) && rend == length + |answers|
    requires 0 < n && !Serve(usrdata[..], length, stack, ip, fuel, n, p, answers, count).Stuck?
    modifies reply, buff
    ensures p' < 0 ==> Serve(usrdata[..], length, stack, ip, fuel, n, p, answers, count).Dropped?
    ensures p' >= 0 ==>
      && Built(reply[..], usrdata[..length], stack, answers', count') && rend' == length + |answers'|
      && Serve(usrdata[..], length, stack, ip, fuel, n, p, answers, count)
         == Serve(usrdata[..], length, stack, ip, fuel, n - 1, p', answers', count')
  {
    hide Serve, WalkName, Built, CString, EncodeFrom, Record;
    ghost var mem := usrdata[..];
    ServeStep(mem, length, stack, ip, fuel, n, p, answers, count);
    var end := LabelToStr(usrdata, p, length, buff, fuel);
    if end == -1 {
      return -1, rend, answers, count;
    }
    ghost var text := WalkName(mem, length, p, [], -1, DNS_LEN, fuel).text;
    p', rend', answers', count' := end + 4, rend, answers, count;
    var qtype := Word(usrdata[end], usrdata[end + 1]);
    if Answerable(qtype) {
      rend' := AnswerAndCount(reply, buff, rend, qtype, ip, mem[..length], stack, answers, count, text);
      answers' := answers + Record(Encode(CString(text)), qtype, ip, stack, rend);
      count' := (count + 1) % 0x10000;
    }
  }

  lemma ServeDone(mem: seq<Byte>, len: nat, stack: seq<Byte>, ip: Address, fuel: nat,
                  p: nat, answers: seq<Byte>, count: nat)
    requires |stack| == DNS_LEN
    ensures Serve(mem, len, stack, ip, fuel, 0, p, answers, count) == Answered(answers, count)
  {
  }

  lemma BuiltMessage(reply: seq<Byte>, request: seq<Byte>, stack: seq<Byte>, answers: seq<Byte>, count: nat)
    requires Built(reply, request, stack, answers, count)
    ensures reply[..|request| + |answers|] == Head(request, count) + answers
  {
    var head := Head(request, count);
    HoldsBoth(reply, reply, 0, head, answers);
    var message := head + answers;
    assert forall k :: 0 <= k < |message| ==> reply[0 + k] == message[k];
  }

  /** The reply starts as the request with the QR bit set. */
  method StartReply(usrdata: array<Byte>, length: nat, reply: array<Byte>)
    requires usrdata != reply && HEADER_SIZE <= length <= usrdata.Length && length <= reply.Length == DNS_LEN
    requires usrdata[6] == 0 && usrdata[7] == 0
    modifies reply
    ensures Built(reply[..], usrdata[..length], old(reply[..]), [], 0)
    ensures reply[2] / 128 == 1 && reply[2] % 128 == usrdata[2] % 128
  {
    Put(reply, 0, usrdata[..length]);
    assert forall k :: 0 <= k < length ==> reply[0 + k] == usrdata[k];
    reply[2] := WithQr(reply[2]);
  }

  /** `captdnsRecv`: handles the `length` bytes of a message in `usrdata`; `reply` and `buff` are its
      local buffers.  Returns the number of bytes sent from `reply`, or -1 if nothing is sent. */
  method CaptdnsRecv(usrdata: array<Byte>, length: nat, reply: array<Byte>, buff: array<Byte>, ip: Address,
                     ghost fuel: nat)
    returns (sent: int)
    requires usrdata != reply && usrdata != buff && reply != buff
    requires length <= usrdata.Length && reply.Length == buff.Length == DNS_LEN
    requires !Handle(usrdata[..], length, reply[..], ip, fuel).Undefined?
    modifies reply, buff
    ensures match Handle(usrdata[..], length, old(reply[..]), ip, fuel)
            case Reply(message) => sent == |message| <= reply.Length && reply[..sent] == message
            case _ => sent == -1
  {
    hide Serve;
    ghost var mem, stack := usrdata[..], reply[..];
    if length > DNS_LEN || length < HEADER_SIZE {
      return -1;
    }
    if usrdata[6] != 0 || usrdata[7] != 0 || usrdata[8] != 0 || usrdata[9] != 0 || usrdata[10] != 0 || usrdata[11] != 0 {
      return -1;
    }
    if Truncated(usrdata[2]) {
      return -1;
    }
    StartReply(usrdata, length, reply);
    var rend: nat, p: nat := length, HEADER_SIZE;
    var i, n := 0, Word(usrdata[4], usrdata[5]);
    ghost var answers: seq<Byte>, count: nat := [], 0;
    ghost var service := Serve(mem, length, stack, ip, fuel, n, p, [], 0);
    while i < n
      invariant i <= n && rend == length + |answers|
      invariant service == Serve(mem, length, stack, ip, fuel, n - i, p, answers, count)
      invariant Built(reply[..], mem[..length], stack, answers, count)
    {
      var p';
      p', rend, answers, count := Question(usrdata, p, length, reply, buff, rend, ip, stack, fuel, n - i, answers, count);
      if p' < 0 {
        return -1;
      }
      p, i := p', i + 1;
    }
    sent := rend;
    ServeDone(mem, length, stack, ip, fuel, p, answers, count);
    BuiltMessage(reply[..], mem[..length], stack, answers, count);
  }
}
