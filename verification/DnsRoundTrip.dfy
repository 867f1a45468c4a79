/** DNS messages as section 4.1 of RFC 1035 reads them, and what the captive server's reply says
    when it is read that way. */
module DnsRoundTrip {

  import opened DnsNames
  import opened DnsNameLaws
  import opened DnsReply

  // ---- Messages ------------------------------------------------------------------------------

  datatype Question = Question(name: seq<seq<Byte>>, qtype: nat, qclass: nat)

  datatype Resource = Resource(owner: seq<seq<Byte>>, rtype: nat, rclass: nat, ttl: nat, rdata: seq<Byte>)

  datatype Parsed<T> = Bad | Good(items: seq<T>, end: nat)

  datatype Message = Message(id: nat, flags: Byte, rcode: Byte, questions: seq<Question>, answers: seq<Resource>)

  datatype Reading = Unreadable | Readable(message: Message)

  function ParseQuestions(msg: seq<Byte>, n: nat, p: nat): Parsed<Question>
    decreases n
  {
    if n == 0 then Good([], p)
    else if !Expand(msg, p, p).Name? then Bad
    else
      var q := NameEnd(msg, p);
      if |msg| < q + 4 then Bad
      else
        match ParseQuestions(msg, n - 1, q + 4)
        case Bad => Bad
        case Good(rest, end) =>
          Good([Question(Expand(msg, p, p).labels, Word(msg[q], msg[q + 1]), Word(msg[q + 2], msg[q + 3]))] + rest, end)
  }

  function ParseResources(msg: seq<Byte>, n: nat, p: nat): Parsed<Resource>
    decreases n
  {
    if n == 0 then Good([], p)
    else if !Expand(msg, p, p).Name? then Bad
    else
      var q := NameEnd(msg, p);
      if |msg| < q + 10 then Bad
      else
        var size := Word(msg[q + 8], msg[q + 9]);
        if |msg| < q + 10 + size then Bad
        else
          match ParseResources(msg, n - 1, q + 10 + size)
          case Bad => Bad
          case Good(rest, end) => Good([ResourceAt(msg, Expand(msg, p, p).labels, q, size)] + rest, end)
  }

  function ResourceAt(msg: seq<Byte>, owner: seq<seq<Byte>>, q: nat, size: nat): Resource
    requires q + 10 + size <= |msg|
  {
    Resource(owner, Word(msg[q], msg[q + 1]), Word(msg[q + 2], msg[q + 3]),
             Word(msg[q + 4], msg[q + 5]) * 0x1_0000 + Word(msg[q + 6], msg[q + 7]),
             msg[q + 10..q + 10 + size])
  }

  /** A whole message: the counted questions and answers, no further records, and nothing after. */
  function Parse(msg: seq<Byte>): Reading {
    if |msg| < HEADER_SIZE || msg[8] != 0 || msg[9] != 0 || msg[10] != 0 || msg[11] != 0 then Unreadable
    else
      match ParseQuestions(msg, Word(msg[4], msg[5]), HEADER_SIZE)
      case Bad => Unreadable
      case Good(questions, p) =>
        match ParseResources(msg, Word(msg[6], msg[7]), p)
        case Bad => Unreadable
        case Good(answers, end) =>
          if end == |msg| then Readable(Message(Word(msg[0], msg[1]), msg[2], msg[3], questions, answers))
          else Unreadable
  }

  // ---- What the server is meant to answer ------------------------------------------------------

  /** The size of the record for a question. */
  function Size(q: Question, ip: Address): nat {
    |Wire(q.name)| + 10 + |RecordData(q.qtype, ip)|
  }

  function TotalSize(questions: seq<Question>, ip: Address): nat {
    if questions == [] then 0
    else (if Answerable(questions[0].qtype) then Size(questions[0], ip) else 0) + TotalSize(questions[1..], ip)
  }

  /** The record for a question, put at `at`: the fully expanded name, the type asked for, and the
      server's data.  The low half of the TTL of NS and URI records is accidental. */
  function AnswerTo(q: Question, ip: Address, stack: seq<Byte>, at: nat): Resource
    requires at + |Wire(q.name)| + 8 <= |stack|
  {
    var e := at + |Wire(q.name)|;
    Resource(q.name, q.qtype, RecordClass(q.qtype),
             if q.qtype == QTYPE_A then 0 else Word(stack[e + 6], stack[e + 7]),
             RecordData(q.qtype, ip))
  }

  /** The answers to the A, NS and URI questions, in the order of the questions. */
  function AnswersTo(questions: seq<Question>, ip: Address, stack: seq<Byte>, at: nat): seq<Resource>
    requires at + TotalSize(questions, ip) <= |stack|
  {
    if questions == [] then []
    else if Answerable(questions[0].qtype) then
      [AnswerTo(questions[0], ip, stack, at)] + AnswersTo(questions[1..], ip, stack, at + Size(questions[0], ip))
    else AnswersTo(questions[1..], ip, stack, at)
  }

  /** ... and the same on the wire. */
  function AnswerBytes(questions: seq<Question>, ip: Address, stack: seq<Byte>, at: nat): (b: seq<Byte>)
    requires at + TotalSize(questions, ip) <= |stack|
    ensures |b| == TotalSize(questions, ip)
  {
    if questions == [] then []
    else if Answerable(questions[0].qtype) then
      Record(Wire(questions[0].name), questions[0].qtype, ip, stack, at)
      + AnswerBytes(questions[1..], ip, stack, at + Size(questions[0], ip))
    else AnswerBytes(questions[1..], ip, stack, at)
  }

  /** The questions for an address, a name server or a URI. */
  function Asked(questions: seq<Question>): seq<Question> {
    if questions == [] then []
    else
      var q := questions[0];
      (if q.qtype == 1 || q.qtype == 2 || q.qtype == 256 then [q] else []) + Asked(questions[1..])
  }

  function Ascii(text: string): (b: seq<Byte>)
    requires forall i :: 0 <= i < |text| ==> text[i] as int < 128
    ensures |b| == |text| && forall i :: 0 <= i < |text| ==> b[i] == text[i] as int
  {
    seq(|text|, i requires 0 <= i < |text| => text[i] as int)
  }

  /** The answer that a question is to get, field by field: the address of the server with no time to
      live, the name server "ns", or the portal with priority 10 and weight 1. */
  predicate IsAnswer(r: Resource, q: Question, ip: Address) {
    && r.owner == q.name && r.rtype == q.qtype
    && r.rclass == (if q.qtype == 256 then 256 else 1)
    && (if q.qtype == 1 then r.ttl == 0 else r.ttl < 0x1_0000)
    && r.rdata == (if q.qtype == 1 then ip
                   else if q.qtype == 2 then [2] + Ascii("ns") + [0]
                   else [0, 10, 0, 1] + Ascii("http://esp.nonet"))
  }

  lemma AnswerIsMeant(q: Question, ip: Address, stack: seq<Byte>, at: nat)
    requires (q.qtype == 1 || q.qtype == 2 || q.qtype == 256) && at + |Wire(q.name)| + 8 <= |stack|
    ensures IsAnswer(AnswerTo(q, ip, stack, at), q, ip)
  {
    hide Wire;
    var text := "http://esp.nonet";
    assert PORTAL == Ascii(text);
    assert SERVER == [2] + Ascii("ns") + [0];
  }

  /** The answers are those to the questions asked, in their order. */
  lemma {:induction false} AnswersAreMeant(questions: seq<Question>, ip: Address, stack: seq<Byte>, at: nat)
    requires at + TotalSize(questions, ip) <= |stack|
    ensures var answers := AnswersTo(questions, ip, stack, at);
      |answers| == |Asked(questions)|
      && forall i :: 0 <= i < |answers| ==> IsAnswer(answers[i], Asked(questions)[i], ip)
    decreases |questions|
  {
    hide AnswerTo, IsAnswer, Wire, RecordData;
    if questions != [] {
      var q := questions[0];
      if Answerable(q.qtype) {
        AnswerIsMeant(q, ip, stack, at);
        AnswersAreMeant(questions[1..], ip, stack, at + Size(q, ip));
      } else {
        AnswersAreMeant(questions[1..], ip, stack, at);
      }
    }
  }

  // ---- Reading the answers ---------------------------------------------------------------------

  /** What is written at a position of a message can be read there byte by byte. */
  lemma HeldParts(msg: seq<Byte>, at: nat, a: seq<Byte>, b: seq<Byte>)
    requires Holds(msg, at, a + b)
    ensures Holds(msg, at, a) && Holds(msg, at + |a|, b)
  {
    assert forall k :: 0 <= k < |a| ==> (a + b)[k] == a[k];
    assert forall k :: 0 <= k < |b| ==> (a + b)[|a| + k] == b[k];
    forall k | 0 <= k < |b| ensures msg[at + |a| + k] == b[k] {
      assert msg[at + (|a| + k)] == (a + b)[|a| + k];
    }
  }

  lemma HeldSlice(msg: seq<Byte>, at: nat, a: seq<Byte>)
    requires Holds(msg, at, a)
    ensures msg[at..at + |a|] == a
  {
  }

  lemma HeldWord(msg: seq<Byte>, at: nat, n: nat)
    requires Holds(msg, at, N16(n)) && n < 0x1_0000
    ensures at + 2 <= |msg| && Word(msg[at], msg[at + 1]) == n
  {
    assert msg[at + 0] == N16(n)[0] && msg[at + 1] == N16(n)[1];
  }

  /** The fixed part of a record reads back field by field. */
  lemma TailReads(msg: seq<Byte>, e: nat, qtype: nat, ip: Address, stack: seq<Byte>)
    requires Answerable(qtype) && e + 8 <= |stack| && Holds(msg, e, RecordTail(qtype, ip, stack, e))
    ensures var size := |RecordData(qtype, ip)|;
      && e + 10 + size <= |msg|
      && Word(msg[e], msg[e + 1]) == qtype
      && Word(msg[e + 2], msg[e + 3]) == RecordClass(qtype)
      && msg[e + 4..e + 8] == RecordTtl(qtype, stack, e)
      && Word(msg[e + 8], msg[e + 9]) == size
      && msg[e + 10..e + 10 + size] == RecordData(qtype, ip)
  {
    hide N16, Word;
    var data, ttl := RecordData(qtype, ip), RecordTtl(qtype, stack, e);
    var a, b, d := N16(qtype), N16(RecordClass(qtype)), N16(|data|);
    HeldParts(msg, e, a + b + ttl + d, data);
    HeldSlice(msg, e + 10, data);
    HeldParts(msg, e, a + b + ttl, d);
    HeldWord(msg, e + 8, |data|);
    HeldParts(msg, e, a + b, ttl);
    HeldSlice(msg, e + 4, ttl);
    HeldParts(msg, e, a, b);
    HeldWord(msg, e, qtype);
    HeldWord(msg, e + 2, RecordClass(qtype));
  }

  /** A record that is written out reads back as the answer. */
  lemma RecordReads(msg: seq<Byte>, at: nat, q: Question, ip: Address, stack: seq<Byte>)
    requires WellFormed(q.name) && Answerable(q.qtype) && at + Size(q, ip) <= |stack|
    requires Holds(msg, at, Record(Wire(q.name), q.qtype, ip, stack, at))
    ensures Expand(msg, at, at) == Name(q.name) && NameEnd(msg, at) == at + |Wire(q.name)|
    ensures var e := at + |Wire(q.name)|; var size := |RecordData(q.qtype, ip)|;
      && e + 10 + size <= |msg|
      && Word(msg[e + 8], msg[e + 9]) == size
      && ResourceAt(msg, q.name, e, size) == AnswerTo(q, ip, stack, at)
  {
    hide Expand, NameEnd, Wire, WellFormed, RecordTail, RecordData, Holds, N16;
    var e := at + |Wire(q.name)|;
    HeldParts(msg, at, Wire(q.name), RecordTail(q.qtype, ip, stack, e));
    HeldSlice(msg, at, Wire(q.name));
    HeldInside(msg, at, Wire(q.name));
    WireExpands(msg, at, at, q.name);
    TailReads(msg, e, q.qtype, ip, stack);
    var ttl := RecordTtl(q.qtype, stack, e);
    assert msg[e + 4..e + 8] == [msg[e + 4], msg[e + 5], msg[e + 6], msg[e + 7]];
    assert ttl == [ttl[0], ttl[1], ttl[2], ttl[3]];
  }

  lemma HeldInside(msg: seq<Byte>, at: nat, a: seq<Byte>)
    requires Holds(msg, at, a)
    ensures at + |a| <= |msg|
  {
  }

  function CountAnswerable(questions: seq<Question>): nat {
    if questions == [] then 0
    else (if Answerable(questions[0].qtype) then 1 else 0) + CountAnswerable(questions[1..])
  }

  predicate GoodNames(questions: seq<Question>) {
    forall i :: 0 <= i < |questions| ==> WellFormed(questions[i].name)
  }

  /** One round of the resource parser. */
  lemma ParseOne(msg: seq<Byte>, n: nat, p: nat, labels: seq<seq<Byte>>, q: nat, size: nat)
    requires Expand(msg, p, p) == Name(labels) && NameEnd(msg, p) == q
    requires q + 10 + size <= |msg| && Word(msg[q + 8], msg[q + 9]) == size
    ensures ParseResources(msg, n + 1, p)
            == match ParseResources(msg, n, q + 10 + size)
               case Bad => Bad
               case Good(rest, end) => Good([ResourceAt(msg, labels, q, size)] + rest, end)
  {
    hide Expand, NameEnd, Word, ResourceAt;
  }

  /** The answers for a list of questions, one question at a time. */
  lemma AnswersStep(questions: seq<Question>, ip: Address, stack: seq<Byte>, at: nat)
    requires questions != [] && at + TotalSize(questions, ip) <= |stack|
    ensures var q, rest := questions[0], questions[1..];
      if Answerable(q.qtype) then
        var next := at + Size(q, ip);
        && CountAnswerable(questions) == CountAnswerable(rest) + 1
        && TotalSize(questions, ip) == Size(q, ip) + TotalSize(rest, ip)
        && AnswersTo(questions, ip, stack, at) == [AnswerTo(q, ip, stack, at)] + AnswersTo(rest, ip, stack, next)
        && AnswerBytes(questions, ip, stack, at)
           == Record(Wire(q.name), q.qtype, ip, stack, at) + AnswerBytes(rest, ip, stack, next)
      else
        && CountAnswerable(questions) == CountAnswerable(rest)
        && TotalSize(questions, ip) == TotalSize(rest, ip)
        && AnswersTo(questions, ip, stack, at) == AnswersTo(rest, ip, stack, at)
        && AnswerBytes(questions, ip, stack, at) == AnswerBytes(rest, ip, stack, at)
  {
  }

  lemma RecordSize(q: Question, ip: Address, stack: seq<Byte>, at: nat)
    requires Answerable(q.qtype) && at + Size(q, ip) <= |stack|
    ensures |Record(Wire(q.name), q.qtype, ip, stack, at)| == Size(q, ip)
  {
  }

  lemma GoodTail(questions: seq<Question>)
    requires GoodNames(questions) && questions != []
    ensures WellFormed(questions[0].name) && GoodNames(questions[1..])
  {
  }

  /** Records that are written out one after the other read back as the answers. */
  lemma {:induction false} AnswersRead(msg: seq<Byte>, at: nat, questions: seq<Question>, ip: Address, stack: seq<Byte>)
    requires GoodNames(questions) && at + TotalSize(questions, ip) <= |stack|
    requires Holds(msg, at, AnswerBytes(questions, ip, stack, at))
    ensures ParseResources(msg, CountAnswerable(questions), at)
            == Good(AnswersTo(questions, ip, stack, at), at + TotalSize(questions, ip))
    decreases |questions|
  {
    hide ParseResources, CountAnswerable, TotalSize, AnswersTo, AnswerBytes;
    hide Expand, NameEnd, Record, ResourceAt, AnswerTo, RecordData, GoodNames, Holds, Wire, Word;
    if questions == [] {
      NothingRead(msg, at, ip, stack);
    } else {
      GoodTail(questions);
      AnswersStep(questions, ip, stack, at);
      var q, rest := questions[0], questions[1..];
      if Answerable(q.qtype) {
        var next := at + Size(q, ip);
        RecordSize(q, ip, stack, at);
        HeldParts(msg, at, Record(Wire(q.name), q.qtype, ip, stack, at), AnswerBytes(rest, ip, stack, next));
        RecordReads(msg, at, q, ip, stack);
        AnswersRead(msg, next, rest, ip, stack);
        ParseOne(msg, CountAnswerable(rest), at, q.name, at + |Wire(q.name)|, |RecordData(q.qtype, ip)|);
      } else {
        AnswersRead(msg, at, rest, ip, stack);
      }
    }
  }

  lemma NothingRead(msg: seq<Byte>, at: nat, ip: Address, stack: seq<Byte>)
    requires at <= |stack|
    ensures TotalSize([], ip) == 0
    ensures ParseResources(msg, CountAnswerable([]), at) == Good(AnswersTo([], ip, stack, at), at)
  {
  }

  // ---- Serving a query -------------------------------------------------------------------------

  /** The questions that the decoder handles: each name is not the root, has at most one pointer
      and keeps to the 255 octets of section 2.3.4 of RFC 1035; names that are answered contain no
      dots or NULs inside their labels. */
  predicate Plain(msg: seq<Byte>, n: nat, p: nat)
    requires ParseQuestions(msg, n, p).Good?
    decreases n
  {
    n == 0 ||
    var labels, q := Expand(msg, p, p).labels, NameEnd(msg, p);
    && labels != [] && Hops(msg, p, p) <= 1 && |Wire(labels)| <= 255
    && (Answerable(Word(msg[q], msg[q + 1])) ==> Clean(labels))
    && Plain(msg, n - 1, q + 4)
  }

  lemma {:induction false} ExpandWellFormed(msg: seq<Byte>, run: nat, p: nat)
    requires Expand(msg, run, p).Name?
    ensures WellFormed(Expand(msg, run, p).labels)
    decreases run, |msg| - p
  {
    if msg[p] != 0 {
      if msg[p] < 64 {
        ExpandWellFormed(msg, run, p + 1 + msg[p]);
      } else {
        ExpandWellFormed(msg, Target(msg, p), Target(msg, p));
      }
    }
  }

  lemma {:induction false} QuestionsWellFormed(msg: seq<Byte>, n: nat, p: nat)
    requires ParseQuestions(msg, n, p).Good?
    ensures GoodNames(ParseQuestions(msg, n, p).items) && |ParseQuestions(msg, n, p).items| == n
    decreases n
  {
    if n != 0 {
      ExpandWellFormed(msg, p, p);
      QuestionsWellFormed(msg, n - 1, NameEnd(msg, p) + 4);
    }
  }

  /** A round of the question loop is determined by what the decoder does with the name. */
  lemma SameRound(mem: seq<Byte>, len: nat, stack: seq<Byte>, ip: Address, f: nat, g: nat,
                  n: nat, p: nat, answers: seq<Byte>, count: nat)
    returns (more: seq<Byte>, count': nat)
    requires |stack| == DNS_LEN && 0 < n && !Serve(mem, len, stack, ip, f, n, p, answers, count).Stuck?
    requires WalkName(mem, len, p, [], -1, DNS_LEN, g) == WalkName(mem, len, p, [], -1, DNS_LEN, f)
    ensures var w := WalkName(mem, len, p, [], -1, DNS_LEN, f);
      if !w.Decoded? then
        Serve(mem, len, stack, ip, g, n, p, answers, count) == Serve(mem, len, stack, ip, f, n, p, answers, count)
      else
        && w.end + 4 <= |mem|
        && Serve(mem, len, stack, ip, f, n, p, answers, count) == Serve(mem, len, stack, ip, f, n - 1, w.end + 4, more, count')
        && Serve(mem, len, stack, ip, g, n, p, answers, count) == Serve(mem, len, stack, ip, g, n - 1, w.end + 4, more, count')
  {
    hide WalkName, EncodeFrom, CString, RecordTail, RecordData, Word;
    more, count' := answers, count;
    var w := WalkName(mem, len, p, [], -1, DNS_LEN, f);
    if w.Decoded? {
      var qtype, name := Word(mem[w.end], mem[w.end + 1]), Encode(CString(w.text));
      if Answerable(qtype) {
        more := answers + name + RecordTail(qtype, ip, stack, len + |answers| + |name|);
        count' := (count + 1) % 0x10000;
      }
    }
  }

  /** Waiting longer does not change the outcome of the question loop. */
  lemma {:induction false} ServeSettled(mem: seq<Byte>, len: nat, stack: seq<Byte>, ip: Address, f: nat, g: nat,
                     n: nat, p: nat, answers: seq<Byte>, count: nat)
    requires |stack| == DNS_LEN && f <= g && !Serve(mem, len, stack, ip, f, n, p, answers, count).Stuck?
    ensures Serve(mem, len, stack, ip, g, n, p, answers, count) == Serve(mem, len, stack, ip, f, n, p, answers, count)
    decreases n
  {
    hide Serve, WalkName;
    if n == 0 {
      ServeDone(mem, len, stack, ip, f, p, answers, count);
      ServeDone(mem, len, stack, ip, g, p, answers, count);
    } else {
      ServeStep(mem, len, stack, ip, f, n, p, answers, count);
      var w := WalkName(mem, len, p, [], -1, DNS_LEN, f);
      WalkSettled(mem, len, p, [], -1, DNS_LEN, f, g);
      var more, count' := SameRound(mem, len, stack, ip, f, g, n, p, answers, count);
      if w.Decoded? {
        ServeSettled(mem, len, stack, ip, f, g, n - 1, w.end + 4, more, count');
      }
    }
  }

  /** The name of a plain question is decoded to its dotted form, and re-encoded to its wire form;
      the question's type and class follow where the decoder says. */
  lemma NameServed(mem: seq<Byte>, len: nat, p: nat) returns (fuel: nat)
    requires len <= |mem| && Expand(mem[..len], p, p).Name?
    requires var labels := Expand(mem[..len], p, p).labels;
      labels != [] && Hops(mem[..len], p, p) <= 1 && |Wire(labels)| <= 255
    ensures WalkName(mem, len, p, [], -1, DNS_LEN, fuel)
            == Decoded(Dotted(Expand(mem[..len], p, p).labels), NameEnd(mem[..len], p))
  {
    var labels := Expand(mem[..len], p, p).labels;
    WireSize(labels);
    assert Extended([], labels) == Dotted(labels);
    fuel := Decodes(mem, len, p, p, [], -1, DNS_LEN);
    EndRightIffOneHop(mem[..len], p, p);
  }

  lemma NameEncoded(labels: seq<seq<Byte>>)
    requires labels != [] && WellFormed(labels) && Clean(labels)
    ensures Encode(CString(Dotted(labels))) == Wire(labels)
  {
    RoundTripIffClean(labels);
  }

  /** One round of the question parser. */
  lemma ParseQuestionStep(msg: seq<Byte>, n: nat, p: nat)
    requires 0 < n && ParseQuestions(msg, n, p).Good?
    ensures Expand(msg, p, p).Name? && var q := NameEnd(msg, p);
      && q + 4 <= |msg|
      && ParseQuestions(msg, n - 1, q + 4).Good?
      && ParseQuestions(msg, n, p).items
         == [Question(Expand(msg, p, p).labels, Word(msg[q], msg[q + 1]), Word(msg[q + 2], msg[q + 3]))]
            + ParseQuestions(msg, n - 1, q + 4).items
      && ParseQuestions(msg, n, p).end == ParseQuestions(msg, n - 1, q + 4).end
  {
  }

  /** What a question adds to the reply. */
  function Added(q: Question, ip: Address, stack: seq<Byte>, at: nat): seq<Byte>
    requires Answerable(q.qtype) ==> at + |Wire(q.name)| + 8 <= |stack|
  {
    if Answerable(q.qtype) then Record(Wire(q.name), q.qtype, ip, stack, at) else []
  }

  /** One round of the question loop. */
  lemma ServeOne(mem: seq<Byte>, len: nat, stack: seq<Byte>, ip: Address, fuel: nat,
                 n: nat, p: nat, answers: seq<Byte>, count: nat, first: Question, q: nat)
    requires |stack| == DNS_LEN && 0 < n && q + 4 <= |mem| && first.qtype == Word(mem[q], mem[q + 1])
    requires WalkName(mem, len, p, [], -1, DNS_LEN, fuel) == Decoded(Dotted(first.name), q)
    requires Answerable(first.qtype) ==>
      && Encode(CString(Dotted(first.name))) == Wire(first.name)
      && len + |answers| + Size(first, ip) <= DNS_LEN && count + 1 < 0x10000
    ensures Serve(mem, len, stack, ip, fuel, n, p, answers, count)
            == Serve(mem, len, stack, ip, fuel, n - 1, q + 4, answers + Added(first, ip, stack, len + |answers|),
                     count + if Answerable(first.qtype) then 1 else 0)
  {
    hide WalkName, EncodeFrom, CString, RecordTail, RecordData, Word, Wire, Dotted;
    if Answerable(first.qtype) {
      assert answers + Wire(first.name) + RecordTail(first.qtype, ip, stack, len + |answers| + |Wire(first.name)|)
          == answers + Record(Wire(first.name), first.qtype, ip, stack, len + |answers|);
    } else {
      assert answers + [] == answers;
    }
  }

  /** The answers to a list of questions start with what the first one adds. */
  lemma AddedFirst(questions: seq<Question>, ip: Address, stack: seq<Byte>, at: nat)
    requires questions != [] && at + TotalSize(questions, ip) <= |stack|
    ensures var q, rest := questions[0], questions[1..];
      && (Answerable(q.qtype) ==> Size(q, ip) <= TotalSize(questions, ip))
      && var more := Added(q, ip, stack, at);
      && TotalSize(questions, ip) == |more| + TotalSize(rest, ip)
      && AnswerBytes(questions, ip, stack, at) == more + AnswerBytes(rest, ip, stack, at + |more|)
      && CountAnswerable(questions) == (if Answerable(q.qtype) then 1 else 0) + CountAnswerable(rest)
  {
    hide TotalSize, CountAnswerable, AnswerBytes, RecordData, RecordTail, Wire;
    AnswersStep(questions, ip, stack, at);
    if Answerable(questions[0].qtype) {
      RecordSize(questions[0], ip, stack, at);
    }
  }

  /** The question loop serves one question and then the others. */
  lemma ServesFirst(mem: seq<Byte>, len: nat, stack: seq<Byte>, ip: Address, f: nat, g: nat,
                    n: nat, p: nat, answers: seq<Byte>, count: nat, questions: seq<Question>, q: nat)
    returns (fuel: nat)
    requires |stack| == DNS_LEN && 0 < n && q + 4 <= |mem| && questions != []
    requires questions[0].qtype == Word(mem[q], mem[q + 1])
    requires WalkName(mem, len, p, [], -1, DNS_LEN, f) == Decoded(Dotted(questions[0].name), q)
    requires Answerable(questions[0].qtype) ==> Encode(CString(Dotted(questions[0].name))) == Wire(questions[0].name)
    requires len + |answers| + TotalSize(questions, ip) <= DNS_LEN && count + CountAnswerable(questions) < 0x10000
    requires var more := Added(questions[0], ip, stack, len + |answers|);
      && TotalSize(questions, ip) == |more| + TotalSize(questions[1..], ip)
      && var at := len + |answers| + |more|;
      Serve(mem, len, stack, ip, g, n - 1, q + 4, answers + more, count + if Answerable(questions[0].qtype) then 1 else 0)
      == Answered(answers + more + AnswerBytes(questions[1..], ip, stack, at), count + CountAnswerable(questions))
    ensures Serve(mem, len, stack, ip, fuel, n, p, answers, count)
            == Answered(answers + AnswerBytes(questions, ip, stack, len + |answers|), count + CountAnswerable(questions))
  {
    hide Serve, WalkName, TotalSize, CountAnswerable, AnswerBytes, Added;
    hide Wire, Record, RecordData, EncodeFrom, CString, Dotted, Word;
    AddedFirst(questions, ip, stack, len + |answers|);
    var first, more := questions[0], Added(questions[0], ip, stack, len + |answers|);
    fuel := if f < g then g else f;
    ServeSettled(mem, len, stack, ip, g, fuel, n - 1, q + 4, answers + more, count + if Answerable(first.qtype) then 1 else 0);
    WalkSettled(mem, len, p, [], -1, DNS_LEN, f, fuel);
    ServeOne(mem, len, stack, ip, fuel, n, p, answers, count, first, q);
    var later := AnswerBytes(questions[1..], ip, stack, len + |answers| + |more|);
    assert answers + (more + later) == answers + more + later;
  }

  /** The question loop serves every plain question, in order, if the records fit. */
  lemma {:induction false} ServesAll(mem: seq<Byte>, len: nat, stack: seq<Byte>, ip: Address,
                                     n: nat, p: nat, answers: seq<Byte>, count: nat)
    returns (fuel: nat)
    requires len <= |mem| && |stack| == DNS_LEN
    requires ParseQuestions(mem[..len], n, p).Good? && Plain(mem[..len], n, p)
    requires var questions := ParseQuestions(mem[..len], n, p).items;
      len + |answers| + TotalSize(questions, ip) <= DNS_LEN && count + CountAnswerable(questions) < 0x10000
    ensures var questions := ParseQuestions(mem[..len], n, p).items;
      Serve(mem, len, stack, ip, fuel, n, p, answers, count)
      == Answered(answers + AnswerBytes(questions, ip, stack, len + |answers|), count + CountAnswerable(questions))
    decreases n
  {
    hide Serve, WalkName, ParseQuestions, TotalSize, CountAnswerable, AnswerBytes, Added;
    hide Expand, Wire, Record, Clean, WellFormed, RecordData, EncodeFrom, CString, Dotted, Word;
    var msg := mem[..len];
    var questions := ParseQuestions(msg, n, p).items;
    if n == 0 {
      fuel := 0;
      NoQuestions(msg, p);
      ServesNone(mem, len, stack, ip, p, answers, count);
    } else {
      ParseQuestionStep(msg, n, p);
      var first, rest, q := questions[0], questions[1..], NameEnd(msg, p);
      assert rest == ParseQuestions(msg, n - 1, q + 4).items;
      assert first.qtype == Word(mem[q], mem[q + 1]);
      AddedFirst(questions, ip, stack, len + |answers|);
      var f := NameServed(mem, len, p);
      ExpandWellFormed(msg, p, p);
      if Answerable(first.qtype) {
        NameEncoded(first.name);
      }
      var g := ServesAll(mem, len, stack, ip, n - 1, q + 4, answers + Added(first, ip, stack, len + |answers|),
                         count + if Answerable(first.qtype) then 1 else 0);
      fuel := ServesFirst(mem, len, stack, ip, f, g, n, p, answers, count, questions, q);
    }
  }

  lemma NoQuestions(msg: seq<Byte>, p: nat)
    ensures ParseQuestions(msg, 0, p) == Good([], p)
  {
  }

  lemma ServesNone(mem: seq<Byte>, len: nat, stack: seq<Byte>, ip: Address, p: nat, answers: seq<Byte>, count: nat)
    requires |stack| == DNS_LEN && len + |answers| <= DNS_LEN
    ensures TotalSize([], ip) == 0
    ensures Serve(mem, len, stack, ip, 0, 0, p, answers, count)
            == Answered(answers + AnswerBytes([], ip, stack, len + |answers|), count + CountAnswerable([]))
  {
    assert answers + [] == answers;
  }

  // ---- End to end ------------------------------------------------------------------------------

  /** Nothing between the header and the end of `a` differs in `b`. */
  ghost predicate SameBody(a: seq<Byte>, b: seq<Byte>) {
    |a| <= |b| && forall i :: HEADER_SIZE <= i < |a| ==> a[i] == b[i]
  }

  /** Names after the header do not change when the header does and more is appended. */
  lemma {:induction false} ExpandAgrees(a: seq<Byte>, b: seq<Byte>, run: nat, p: nat)
    requires SameBody(a, b) && HEADER_SIZE <= p && Expand(a, run, p).Name?
    ensures Expand(b, run, p) == Expand(a, run, p) && NameEnd(b, p) == NameEnd(a, p)
    decreases run, |a| - p
  {
    if a[p] != 0 {
      if a[p] < 64 {
        ExpandAgrees(a, b, run, p + 1 + a[p]);
        assert a[p + 1..p + 1 + a[p]] == b[p + 1..p + 1 + a[p]];
      } else {
        ExpandAgrees(a, b, Target(a, p), Target(a, p));
      }
    }
  }

  lemma {:induction false} NameEndGrows(msg: seq<Byte>, p: nat)
    ensures p < NameEnd(msg, p)
    decreases |msg| - p
  {
    if p < |msg| && 0 < msg[p] < 64 {
      NameEndGrows(msg, p + 1 + msg[p]);
    }
  }

  lemma SameQuestion(a: seq<Byte>, b: seq<Byte>, n: nat, p: nat)
    requires 0 < n && ParseQuestions(a, n, p).Good? && |a| <= |b|
    requires Expand(b, p, p) == Expand(a, p, p) && NameEnd(b, p) == NameEnd(a, p)
    requires forall k :: NameEnd(a, p) <= k < NameEnd(a, p) + 4 && k < |a| ==> b[k] == a[k]
    requires ParseQuestions(b, n - 1, NameEnd(a, p) + 4) == ParseQuestions(a, n - 1, NameEnd(a, p) + 4)
    ensures ParseQuestions(b, n, p) == ParseQuestions(a, n, p)
  {
    hide Expand, NameEnd, Word;
  }

  lemma {:induction false} QuestionsAgree(a: seq<Byte>, b: seq<Byte>, n: nat, p: nat)
    requires SameBody(a, b) && HEADER_SIZE <= p && ParseQuestions(a, n, p).Good?
    ensures ParseQuestions(b, n, p) == ParseQuestions(a, n, p)
    decreases n
  {
    hide ParseQuestions, Expand, NameEnd, Word;
    if n == 0 {
      NoQuestions(a, p);
      NoQuestions(b, p);
    } else {
      ParseQuestionStep(a, n, p);
      NameEndGrows(a, p);
      ExpandAgrees(a, b, p, p);
      QuestionsAgree(a, b, n - 1, NameEnd(a, p) + 4);
      SameQuestion(a, b, n, p);
    }
  }

  lemma {:induction false} FewAnswers(questions: seq<Question>, ip: Address)
    ensures CountAnswerable(questions) <= TotalSize(questions, ip)
  {
    if questions != [] {
      FewAnswers(questions[1..], ip);
    }
  }

  /** A query that the server answers in full: it carries no records, is not truncated, consists of
      its questions and nothing else, and all of them are plain. */
  predicate ProperQuery(msg: seq<Byte>) {
    && HEADER_SIZE <= |msg| <= DNS_LEN
    && msg[6] == msg[7] == msg[8] == msg[9] == msg[10] == msg[11] == 0
    && !Truncated(msg[2])
    && var parsed := ParseQuestions(msg, Word(msg[4], msg[5]), HEADER_SIZE);
    && parsed.Good? && parsed.end == |msg|
    && Plain(msg, Word(msg[4], msg[5]), HEADER_SIZE)
  }

  /** The questions of a query. */
  function Questions(msg: seq<Byte>): seq<Question>
    requires ProperQuery(msg)
  {
    ParseQuestions(msg, Word(msg[4], msg[5]), HEADER_SIZE).items
  }

  /** The reply to a proper query, byte for byte. */
  lemma ReplyToQuery(mem: seq<Byte>, len: nat, stack: seq<Byte>, ip: Address) returns (fuel: nat)
    requires len <= |mem| && |stack| == DNS_LEN && ProperQuery(mem[..len])
    requires len + TotalSize(Questions(mem[..len]), ip) <= DNS_LEN
    ensures var questions := Questions(mem[..len]);
      Handle(mem, len, stack, ip, fuel)
      == Reply(Head(mem[..len], CountAnswerable(questions)) + AnswerBytes(questions, ip, stack, len))
  {
    hide Serve, Plain, ParseQuestions, TotalSize, CountAnswerable, AnswerBytes, Word;
    FewAnswers(Questions(mem[..len]), ip);
    fuel := ServesAll(mem, len, stack, ip, Word(mem[4], mem[5]), HEADER_SIZE, [], 0);
    assert [] + AnswerBytes(Questions(mem[..len]), ip, stack, len) == AnswerBytes(Questions(mem[..len]), ip, stack, len);
  }

  /** The reply's header and questions are those of the request, but for QR and ANCOUNT. */
  lemma ReplyHead(msg: seq<Byte>, count: nat, answers: seq<Byte>)
    requires ProperQuery(msg) && count < 0x1_0000
    ensures var reply := Head(msg, count) + answers;
      && |reply| == |msg| + |answers| && SameBody(msg, reply)
      && (forall i :: 0 <= i < 6 && i != 2 ==> reply[i] == msg[i])
      && reply[2] == WithQr(msg[2]) && reply[2] / 128 == 1 && reply[2] % 128 == msg[2] % 128
      && Word(reply[6], reply[7]) == count
      && (forall i :: 8 <= i < 12 ==> reply[i] == 0)
      && Holds(reply, |msg|, answers)
      && ParseQuestions(reply, Word(msg[4], msg[5]), HEADER_SIZE)
         == Good(Questions(msg), |msg|)
  {
    hide ParseQuestions, Plain;
    QuestionsAgree(msg, Head(msg, count) + answers, Word(msg[4], msg[5]), HEADER_SIZE);
  }

  lemma QrMeaning(flags: Byte)
    ensures WithQr(flags) / 128 == 1 && WithQr(flags) % 128 == flags % 128
  {
  }

  /** DNS end to end: every proper query whose reply fits is answered, and the reply, read as RFC 1035
      has it, carries the id and the questions of the query, has QR set, and answers the A, NS and
      URI questions, in order, each with the fully expanded name of the question as its owner. */
  lemma EndToEnd(mem: seq<Byte>, len: nat, stack: seq<Byte>, ip: Address) returns (fuel: nat)
    requires len <= |mem| && |stack| == DNS_LEN && ProperQuery(mem[..len])
    requires len + TotalSize(Questions(mem[..len]), ip) <= DNS_LEN
    ensures Handle(mem, len, stack, ip, fuel).Reply?
    ensures var msg := mem[..len];
      Parse(Handle(mem, len, stack, ip, fuel).message)
      == Readable(Message(Word(msg[0], msg[1]), WithQr(msg[2]), msg[3], Questions(msg),
                          AnswersTo(Questions(msg), ip, stack, len)))
    ensures var flags := Parse(Handle(mem, len, stack, ip, fuel).message).message.flags;
      flags / 128 == 1 && flags % 128 == mem[2] % 128
    ensures var answers, asked := Parse(Handle(mem, len, stack, ip, fuel).message).message.answers, Asked(Questions(mem[..len]));
      |answers| == |asked| && forall i :: 0 <= i < |answers| ==> IsAnswer(answers[i], asked[i], ip)
  {
    QrMeaning(mem[2]);
    AnswersAreMeant(Questions(mem[..len]), ip, stack, len);
    hide Asked, IsAnswer, WithQr;
    hide Handle, ParseQuestions, ParseResources, Plain, TotalSize, CountAnswerable, AnswersTo, AnswerBytes, Head, Holds;
    var msg := mem[..len];
    var questions := Questions(msg);
    fuel := ReplyToQuery(mem, len, stack, ip);
    FewAnswers(questions, ip);
    var answers := AnswerBytes(questions, ip, stack, len);
    ReplyHead(msg, CountAnswerable(questions), answers);
    QuestionsWellFormed(msg, Word(msg[4], msg[5]), HEADER_SIZE);
    AnswersRead(Head(msg, CountAnswerable(questions)) + answers, len, questions, ip, stack);
  }

  // ---- Reply arithmetic ------------------------------------------------------------------------

  /** The sizes of the records added by `n` rounds of the question loop. */
  function AddedSizes(mem: seq<Byte>, len: nat, ip: Address, fuel: nat, n: nat, p: nat): seq<nat>
    decreases n
  {
    if n == 0 then []
    else
      match WalkName(mem, len, p, [], -1, DNS_LEN, fuel)
      case Decoded(text, q) =>
        if |mem| < q + 4 then []
        else
          var qtype := Word(mem[q], mem[q + 1]);
          (if Answerable(qtype) then [|Encode(CString(text))| + 10 + |RecordData(qtype, ip)|] else [])
          + AddedSizes(mem, len, ip, fuel, n - 1, q + 4)
      case _ => []
  }

  function Sum(sizes: seq<nat>): nat {
    if sizes == [] then 0 else sizes[0] + Sum(sizes[1..])
  }

  lemma AddedStep(mem: seq<Byte>, len: nat, ip: Address, fuel: nat, n: nat, p: nat)
    requires 0 < n && WalkName(mem, len, p, [], -1, DNS_LEN, fuel).Decoded?
    ensures var w := WalkName(mem, len, p, [], -1, DNS_LEN, fuel);
      w.end + 4 <= |mem| ==>
        var qtype, later := Word(mem[w.end], mem[w.end + 1]), AddedSizes(mem, len, ip, fuel, n - 1, w.end + 4);
        AddedSizes(mem, len, ip, fuel, n, p)
        == if Answerable(qtype) then [|CString(w.text)| + 12 + |RecordData(qtype, ip)|] + later else later
  {
    hide WalkName, CString, RecordData, Word;
    var w := WalkName(mem, len, p, [], -1, DNS_LEN, fuel);
    EncodeSize(CString(w.text));
  }

  lemma EncodeSize(text: seq<Byte>)
    ensures |Encode(text)| == |text| + 2
  {
  }

  lemma SumFirst(size: nat, later: seq<nat>)
    ensures Sum([size] + later) == size + Sum(later)
  {
    assert ([size] + later)[1..] == later;
  }

  lemma AppendedSize(name: seq<Byte>, qtype: nat, ip: Address, stack: seq<Byte>, at: nat)
    requires Answerable(qtype) && at + |name| + 8 <= |stack|
    ensures |Record(name, qtype, ip, stack, at)| == |name| + 10 + |RecordData(qtype, ip)| && 4 <= |RecordData(qtype, ip)|
  {
  }

  lemma NoRounds(mem: seq<Byte>, len: nat, stack: seq<Byte>, ip: Address, fuel: nat, p: nat, answers: seq<Byte>, count: nat)
    requires |stack| == DNS_LEN
    ensures Serve(mem, len, stack, ip, fuel, 0, p, answers, count) == Answered(answers, count)
    ensures AddedSizes(mem, len, ip, fuel, 0, p) == [] && Sum([]) == 0
  {
  }

  /** After any number of rounds the reply has grown by name + 10 + RDLENGTH for each answered
      question and by nothing else, it fits the buffer, and each record has been counted once. */
  lemma {:induction false} ReplyArithmetic(mem: seq<Byte>, len: nat, stack: seq<Byte>, ip: Address, fuel: nat,
                                           n: nat, p: nat, answers: seq<Byte>, count: nat)
    requires |stack| == DNS_LEN && len + |answers| <= DNS_LEN && count < 0x1_0000
    requires Serve(mem, len, stack, ip, fuel, n, p, answers, count).Answered?
    ensures var served := Serve(mem, len, stack, ip, fuel, n, p, answers, count);
      var sizes := AddedSizes(mem, len, ip, fuel, n, p);
      && answers <= served.answers
      && |served.answers| == |answers| + Sum(sizes) && len + |served.answers| <= DNS_LEN
      && served.count == (count + |sizes|) % 0x1_0000
      && 16 * |sizes| <= Sum(sizes)
    decreases n
  {
    hide Serve, AddedSizes, Sum, WalkName, CString, RecordData, Record, EncodeFrom, Word;
    if n == 0 {
      NoRounds(mem, len, stack, ip, fuel, p, answers, count);
    } else {
      ServeStep(mem, len, stack, ip, fuel, n, p, answers, count);
      AddedStep(mem, len, ip, fuel, n, p);
      var w := WalkName(mem, len, p, [], -1, DNS_LEN, fuel);
      var qtype, name := Word(mem[w.end], mem[w.end + 1]), Encode(CString(w.text));
      if Answerable(qtype) {
        var answers' := answers + Record(name, qtype, ip, stack, len + |answers|);
        AppendedSize(name, qtype, ip, stack, len + |answers|);
        EncodeSize(CString(w.text));
        ReplyArithmetic(mem, len, stack, ip, fuel, n - 1, w.end + 4, answers', (count + 1) % 0x1_0000);
        SumFirst(|CString(w.text)| + 12 + |RecordData(qtype, ip)|, AddedSizes(mem, len, ip, fuel, n - 1, w.end + 4));
      } else {
        ReplyArithmetic(mem, len, stack, ip, fuel, n - 1, w.end + 4, answers, count);
      }
    }
  }

  /** Counting from zero, ANCOUNT does not wrap: it is the number of answered questions. */
  lemma AnswersCounted(mem: seq<Byte>, len: nat, stack: seq<Byte>, ip: Address, fuel: nat, n: nat, p: nat)
    requires |stack| == DNS_LEN && len <= DNS_LEN && Serve(mem, len, stack, ip, fuel, n, p, [], 0).Answered?
    ensures Serve(mem, len, stack, ip, fuel, n, p, [], 0).count == |AddedSizes(mem, len, ip, fuel, n, p)|
  {
    hide Serve, AddedSizes, Sum;
    ReplyArithmetic(mem, len, stack, ip, fuel, n, p, [], 0);
  }
}
