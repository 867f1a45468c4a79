/** When the captive DNS server's reply fits its buffer.  The encoder does not look at the room that is
    left, so a reply that does not fit is written beyond the end of the buffer. */
module DnsLimits {

  import opened DnsNames
  import opened DnsNameLaws
  import opened DnsReply
  import opened DnsRoundTrip

  /** However long one waits, the name of a plain question is decoded in one way only. */
  lemma PlainName(mem: seq<Byte>, len: nat, p: nat, fuel: nat)
    requires len <= |mem| && Expand(mem[..len], p, p).Name?
    requires var labels := Expand(mem[..len], p, p).labels;
      labels != [] && Hops(mem[..len], p, p) <= 1 && |Wire(labels)| <= 255
    ensures var w := WalkName(mem, len, p, [], -1, DNS_LEN, fuel);
      w == Spin || w == Decoded(Dotted(Expand(mem[..len], p, p).labels), NameEnd(mem[..len], p))
  {
    hide WalkName, Expand, Hops, NameEnd, Wire, Dotted;
    var f := NameServed(mem, len, p);
    if f <= fuel {
      WalkSettled(mem, len, p, [], -1, DNS_LEN, f, fuel);
    } else if WalkName(mem, len, p, [], -1, DNS_LEN, fuel) != Spin {
      WalkSettled(mem, len, p, [], -1, DNS_LEN, fuel, f);
    }
  }

  /** One round for a question whose record does not fit ... */
  lemma TooLong(mem: seq<Byte>, len: nat, stack: seq<Byte>, ip: Address, fuel: nat,
                n: nat, p: nat, answers: seq<Byte>, count: nat, first: Question, q: nat)
    requires |stack| == DNS_LEN && 0 < n && q + 4 <= |mem| && first.qtype == Word(mem[q], mem[q + 1])
    requires WalkName(mem, len, p, [], -1, DNS_LEN, fuel) == Decoded(Dotted(first.name), q)
    requires Answerable(first.qtype) && Encode(CString(Dotted(first.name))) == Wire(first.name)
    requires DNS_LEN < len + |answers| + Size(first, ip)
    ensures Serve(mem, len, stack, ip, fuel, n, p, answers, count) == Stuck
  {
    hide WalkName, EncodeFrom, CString, RecordTail, RecordData, Word, Wire, Dotted;
  }

  /** ... and for one whose record does, or that is not answered. */
  lemma FitsSoFar(mem: seq<Byte>, len: nat, stack: seq<Byte>, ip: Address, fuel: nat,
                  n: nat, p: nat, answers: seq<Byte>, count: nat, first: Question, q: nat)
    returns (count': nat)
    requires |stack| == DNS_LEN && 0 < n && q + 4 <= |mem| && first.qtype == Word(mem[q], mem[q + 1])
    requires WalkName(mem, len, p, [], -1, DNS_LEN, fuel) == Decoded(Dotted(first.name), q)
    requires Answerable(first.qtype) ==>
      Encode(CString(Dotted(first.name))) == Wire(first.name) && len + |answers| + Size(first, ip) <= DNS_LEN
    ensures Serve(mem, len, stack, ip, fuel, n, p, answers, count)
            == Serve(mem, len, stack, ip, fuel, n - 1, q + 4, answers + Added(first, ip, stack, len + |answers|), count')
  {
    hide WalkName, EncodeFrom, CString, RecordTail, RecordData, Word, Wire, Dotted;
    count' := if Answerable(first.qtype) then (count + 1) % 0x10000 else count;
    if Answerable(first.qtype) {
      assert answers + Wire(first.name) + RecordTail(first.qtype, ip, stack, len + |answers| + |Wire(first.name)|)
          == answers + Record(Wire(first.name), first.qtype, ip, stack, len + |answers|);
    } else {
      assert answers + [] == answers;
    }
  }

  lemma SpinsStuck(mem: seq<Byte>, len: nat, stack: seq<Byte>, ip: Address, fuel: nat,
                   n: nat, p: nat, answers: seq<Byte>, count: nat)
    requires |stack| == DNS_LEN && 0 < n && WalkName(mem, len, p, [], -1, DNS_LEN, fuel) == Spin
    ensures Serve(mem, len, stack, ip, fuel, n, p, answers, count) == Stuck
  {
    hide WalkName;
  }

  /** What the questions add, one question at a time. */
  lemma SizesStep(questions: seq<Question>, ip: Address)
    requires questions != []
    ensures TotalSize(questions, ip)
            == (if Answerable(questions[0].qtype) then Size(questions[0], ip) else 0) + TotalSize(questions[1..], ip)
  {
  }

  lemma AddedSize(q: Question, ip: Address, stack: seq<Byte>, at: nat)
    requires Answerable(q.qtype) ==> at + Size(q, ip) <= |stack|
    ensures |Added(q, ip, stack, at)| == if Answerable(q.qtype) then Size(q, ip) else 0
  {
    hide RecordData, RecordTail, Wire;
  }

  lemma PlainStep(msg: seq<Byte>, n: nat, p: nat)
    requires 0 < n && ParseQuestions(msg, n, p).Good? && Plain(msg, n, p)
    ensures Expand(msg, p, p).Name? && var labels, q := Expand(msg, p, p).labels, NameEnd(msg, p);
      && labels != [] && Hops(msg, p, p) <= 1 && |Wire(labels)| <= 255
      && q + 4 <= |msg| && (Answerable(Word(msg[q], msg[q + 1])) ==> Clean(labels))
      && ParseQuestions(msg, n - 1, q + 4).Good? && Plain(msg, n - 1, q + 4)
  {
    hide Expand, Wire, Word, Clean;
    ParseQuestionStep(msg, n, p);
  }

  /** If the records do not all fit, the question loop leaves the reply buffer, or is still on its way
      to that. */
  lemma {:induction false} Overruns(mem: seq<Byte>, len: nat, stack: seq<Byte>, ip: Address, fuel: nat,
                                    n: nat, p: nat, answers: seq<Byte>, count: nat)
    requires len <= |mem| && |stack| == DNS_LEN && len + |answers| <= DNS_LEN
    requires ParseQuestions(mem[..len], n, p).Good? && Plain(mem[..len], n, p)
    requires DNS_LEN < len + |answers| + TotalSize(ParseQuestions(mem[..len], n, p).items, ip)
    ensures Serve(mem, len, stack, ip, fuel, n, p, answers, count) == Stuck
    decreases n
  {
    hide Serve, WalkName, ParseQuestions, Plain, TotalSize, Added;
    hide Expand, Hops, NameEnd, Wire, Record, Clean, WellFormed, RecordData, EncodeFrom, CString, Dotted, Word;
    var msg := mem[..len];
    var questions := ParseQuestions(msg, n, p).items;
    if n == 0 {
      NoQuestions(msg, p);
      ServesNone(mem, len, stack, ip, p, answers, count);
    } else {
      ParseQuestionStep(msg, n, p);
      PlainStep(msg, n, p);
      PlainName(mem, len, p, fuel);
      var first, q := questions[0], NameEnd(msg, p);
      assert questions[1..] == ParseQuestions(msg, n - 1, q + 4).items;
      assert first.qtype == Word(mem[q], mem[q + 1]);
      SizesStep(questions, ip);
      ExpandWellFormed(msg, p, p);
      if Answerable(first.qtype) {
        NameEncoded(first.name);
      }
      if WalkName(mem, len, p, [], -1, DNS_LEN, fuel) == Spin {
        SpinsStuck(mem, len, stack, ip, fuel, n, p, answers, count);
      } else if Answerable(first.qtype) && DNS_LEN < len + |answers| + Size(first, ip) {
        TooLong(mem, len, stack, ip, fuel, n, p, answers, count, first, q);
      } else {
        var count' := FitsSoFar(mem, len, stack, ip, fuel, n, p, answers, count, first, q);
        AddedSize(first, ip, stack, len + |answers|);
        Overruns(mem, len, stack, ip, fuel, n - 1, q + 4, answers + Added(first, ip, stack, len + |answers|), count');
      }
    }
  }

  /** The handler of a proper query whose reply does not fit never comes to an end that is defined. */
  lemma OverrunsReply(mem: seq<Byte>, len: nat, stack: seq<Byte>, ip: Address, fuel: nat)
    requires len <= |mem| && |stack| == DNS_LEN && ProperQuery(mem[..len])
    requires DNS_LEN < len + TotalSize(Questions(mem[..len]), ip)
    ensures Handle(mem, len, stack, ip, fuel) == Undefined
  {
    hide Serve, Plain, ParseQuestions, TotalSize, Word;
    Overruns(mem, len, stack, ip, fuel, Word(mem[4], mem[5]), HEADER_SIZE, [], 0);
  }

  /** Exactly which proper queries are answered: those whose reply fits the buffer. */
  lemma AnsweredExactly(mem: seq<Byte>, len: nat, stack: seq<Byte>, ip: Address)
    requires len <= |mem| && |stack| == DNS_LEN && ProperQuery(mem[..len])
    ensures (exists fuel: nat :: Handle(mem, len, stack, ip, fuel).Reply?)
            <==> len + TotalSize(Questions(mem[..len]), ip) <= 512
    ensures (forall fuel: nat :: Handle(mem, len, stack, ip, fuel) == Undefined)
            <==> 512 < len + TotalSize(Questions(mem[..len]), ip)
  {
    hide Handle, ProperQuery, Questions, TotalSize;
    if len + TotalSize(Questions(mem[..len]), ip) <= DNS_LEN {
      var fuel := EndToEnd(mem, len, stack, ip);
      assert Handle(mem, len, stack, ip, fuel).Reply?;
    } else {
      forall fuel: nat ensures Handle(mem, len, stack, ip, fuel) == Undefined {
        OverrunsReply(mem, len, stack, ip, fuel);
      }
    }
  }

  // ---- A query that is too long ----------------------------------------------------------------

  /** A query with one question. */
  function Single(labels: seq<seq<Byte>>, qtype: nat): seq<Byte> {
    [0, 1, 0, 0, 0, 1, 0, 0, 0, 0, 0, 0] + Wire(labels) + N16(qtype) + N16(QCLASS_IN)
  }

  lemma SingleParses(labels: seq<seq<Byte>>, qtype: nat)
    requires WellFormed(labels) && qtype < 0x1_0000
    ensures var msg, q := Single(labels, qtype), HEADER_SIZE + |Wire(labels)|;
      && |msg| == q + 4 && Word(msg[4], msg[5]) == 1 && !Truncated(msg[2])
      && msg[6] == msg[7] == msg[8] == msg[9] == msg[10] == msg[11] == 0
      && Expand(msg, HEADER_SIZE, HEADER_SIZE) == Name(labels) && Hops(msg, HEADER_SIZE, HEADER_SIZE) == 0
      && NameEnd(msg, HEADER_SIZE) == q
      && Word(msg[q], msg[q + 1]) == qtype && Word(msg[q + 2], msg[q + 3]) == QCLASS_IN
  {
    hide Wire, Expand, Hops, NameEnd;
    var msg := Single(labels, qtype);
    assert msg[HEADER_SIZE..HEADER_SIZE + |Wire(labels)|] == Wire(labels);
    WireExpands(msg, HEADER_SIZE, HEADER_SIZE, labels);
  }

  /** The question section of a message with one question. */
  lemma OneQuestion(msg: seq<Byte>, p: nat)
    requires Expand(msg, p, p).Name? && NameEnd(msg, p) + 4 == |msg|
    ensures var labels, q := Expand(msg, p, p).labels, NameEnd(msg, p);
      && ParseQuestions(msg, 1, p)
         == Good([Question(labels, Word(msg[q], msg[q + 1]), Word(msg[q + 2], msg[q + 3]))], |msg|)
      && (labels != [] && Hops(msg, p, p) <= 1 && |Wire(labels)| <= 255 && Clean(labels) ==> Plain(msg, 1, p))
  {
    hide Wire, Expand, Hops, NameEnd, Clean, Word;
    var q := NameEnd(msg, p);
    NoQuestions(msg, q + 4);
    assert Plain(msg, 0, q + 4);
  }

  lemma SingleIsProper(labels: seq<seq<Byte>>, qtype: nat)
    requires WellFormed(labels) && labels != [] && Clean(labels) && |Wire(labels)| <= 255 && qtype < 0x1_0000
    ensures var msg := Single(labels, qtype);
      ProperQuery(msg) && Questions(msg) == [Question(labels, qtype, QCLASS_IN)]
  {
    hide Wire, Expand, Hops, NameEnd, WellFormed, Clean, Word, Single, ParseQuestions, Plain, Truncated;
    SingleParses(labels, qtype);
    OneQuestion(Single(labels, qtype), HEADER_SIZE);
  }

  /** A name of the greatest size that section 2.3.4 of RFC 1035 allows. */
  function LongName(): (labels: seq<seq<Byte>>)
    ensures WellFormed(labels) && Clean(labels) && |labels| == 4
    ensures |labels[0]| == |labels[1]| == |labels[2]| == 63 && |labels[3]| == 61
  {
    var part: seq<Byte> := seq(63, _ => 97);
    [part, part, part, part[..61]]
  }

  lemma LongNameSize()
    ensures |Wire(LongName())| == 255
  {
    var l: seq<seq<Byte>> := LongName();
    assert l[1..][1..] == l[2..] && l[2..][1..] == l[3..] && |l[3..]| == 1;
    assert |Wire(l[3..])| == 63;
    assert |Wire(l[2..])| == 127;
    assert |Wire(l[1..])| == 191;
  }

  /** A single A question for such a name is too long: request and record take 540 bytes. */
  lemma LongNameOverruns(stack: seq<Byte>, ip: Address, fuel: nat)
    requires |stack| == DNS_LEN
    ensures var msg := Single(LongName(), QTYPE_A);
      ProperQuery(msg) && |msg| == 271 && Handle(msg, |msg|, stack, ip, fuel) == Undefined
  {
    hide Handle, Wire, ProperQuery, Questions, TotalSize, LongName, Serve;
    LongNameSize();
    var msg := Single(LongName(), QTYPE_A);
    SingleIsProper(LongName(), QTYPE_A);
    SingleParses(LongName(), QTYPE_A);
    var questions := [Question(LongName(), QTYPE_A, QCLASS_IN)];
    SizesStep(questions, ip);
    NoSize(ip);
    assert questions[1..] == [];
    assert msg[..|msg|] == msg;
    OverrunsReply(msg, |msg|, stack, ip, fuel);
  }

  lemma NoSize(ip: Address)
    ensures TotalSize([], ip) == 0
  {
  }
}
