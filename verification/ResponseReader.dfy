/** `atCmd_waitResponse`: reading what the modem answers to a command, either until it falls silent
    and matching it, or into a growing buffer.

    The modem is a list of reads: what each call of `uart_read_bytes` delivers until its timeout,
    the empty string if it delivers nothing.  After the list the line stays silent. */
module ResponseReader {

  import opened CStrings
  import opened Options

  /** The size of the buffer for matching, and the most that one read delivers. */
  const BUFFER: nat := 256

  function Read(line: seq<string>, i: nat): string {
    if i < |line| then line[i] else ""
  }

  /** What the first `t` reads have delivered. */
  function Received(line: seq<string>, t: nat): string {
    if t == 0 then "" else Received(line, t - 1) + Read(line, t - 1)
  }

  // ---- Matching ------------------------------------------------------------------------------

  function Sanitize(c: char): char {
    if 0x20 <= c as int < 0x80 then c else '.'
  }

  function Sanitized(s: string): (t: string)
    ensures |t| == |s| && forall i :: 0 <= i < |s| ==> t[i] == Sanitize(s[i])
  {
    seq(|s|, i requires 0 <= i < |s| => Sanitize(s[i]))
  }

  /** What the buffer keeps of the bytes received. */
  function Kept(text: string): (k: string)
    ensures |k| == if |text| < BUFFER then |text| else BUFFER
  {
    Sanitized(if |text| < BUFFER then text else text[..BUFFER])
  }

  /** The string that is searched: the buffer is only terminated while it is not full; beyond it
      lies whatever memory holds up to the next NUL. */
  function Seen(text: string, beyond: string): string {
    Kept(text) + if |text| < BUFFER then "" else beyond
  }

  /** 1 for the expected string, 2 for the alternative, 0 for neither. */
  function Verdict(seen: string, resp: string, resp1: Option<string>): int {
    if Find(seen, resp, 0) != -1 then 1
    else if resp1.Some? && Find(seen, resp1.value, 0) != -1 then 2
    else 0
  }

  /** The number of reads that the timeout in milliseconds allows. */
  function Budget(timeout: nat): nat {
    timeout / 10 + 1
  }

  /** The response is complete at read `t`: it is the first silence after data. */
  predicate CompleteAt(line: seq<string>, t: nat) {
    && Read(line, t) == "" && Received(line, t) != ""
    && forall j :: 0 <= j < t ==> Read(line, j) != "" || Received(line, j) == ""
  }

  /** The matching form: waits for a response that contains `resp` or `resp1`.  Returns the verdict
      and the number of reads made. */
  method WaitResponse(line: seq<string>, resp: string, resp1: Option<string>, timeout: nat, beyond: string)
    returns (res: int, polls: nat)
    ensures 0 < polls <= Budget(timeout) && 10 * (polls - 1) <= timeout
    ensures (forall t: nat :: 10 * t <= timeout ==> !CompleteAt(line, t)) ==> res == 0 && timeout < 10 * polls
    ensures res == Outcome(line, resp, resp1, timeout, beyond)
    ensures (exists t: nat :: t < Budget(timeout) && CompleteAt(line, t)) ==>
      && CompleteAt(line, polls - 1)
      && res == Verdict(Seen(Received(line, polls - 1), beyond), resp, resp1)
    ensures (forall t: nat :: t < Budget(timeout) ==> !CompleteAt(line, t)) ==>
      res == 0 && polls == Budget(timeout)
  {
    hide Kept, Received, Find;
    var sresp := new char[BUFFER](_ => '\0');
    var idx, tot, timeoutCnt := 0, 0, 0;
    polls := 0;
    NothingKept(line);
    assert sresp[..0] == "";
    while true
      invariant timeoutCnt == 10 * polls <= timeout
      invariant tot == |Received(line, polls)| && idx == |Kept(Received(line, polls))|
      invariant sresp[..idx] == Kept(Received(line, polls))
      invariant forall j :: 0 <= j < polls ==> !CompleteAt(line, j)
      invariant forall j :: 0 <= j < polls ==> Read(line, j) != "" || Received(line, j) == ""
      decreases timeout - timeoutCnt
    {
      var data := Read(line, polls);
      if |data| > 0 {
        idx := Accumulate(sresp, idx, data, Received(line, polls));
        tot := tot + |data|;
      } else if tot > 0 {
        var text := sresp[..idx] + if idx < BUFFER then "" else beyond;
        polls := polls + 1;
        assert CompleteAt(line, polls - 1);
        OnlyOne(line, polls - 1);
        if Find(text, resp, 0) != -1 {
          return 1, polls;
        } else if resp1.Some? && Find(text, resp1.value, 0) != -1 {
          return 2, polls;
        }
        return 0, polls;
      }
      timeoutCnt := timeoutCnt + 10;
      ReceivedNext(line, polls);
      polls := polls + 1;
      if timeoutCnt > timeout {
        return 0, polls;
      }
    }
  }

  lemma NothingKept(line: seq<string>)
    ensures Received(line, 0) == "" && Kept("") == ""
  {
  }

  lemma ReceivedNext(line: seq<string>, t: nat)
    ensures Received(line, t + 1) == Received(line, t) + Read(line, t)
    ensures Read(line, t) == "" ==> Received(line, t + 1) == Received(line, t)
  {
  }

  /** The inner loop: adds sanitized bytes while there is room. */
  method Accumulate(sresp: array<char>, idx0: nat, data: string, ghost before: string) returns (idx: nat)
    requires sresp.Length == BUFFER && idx0 == |Kept(before)| && sresp[..idx0] == Kept(before)
    modifies sresp
    ensures idx == |Kept(before + data)| && sresp[..idx] == Kept(before + data)
  {
    hide Kept;
    idx := idx0;
    assert before + data[..0] == before;
    for i := 0 to |data|
      invariant idx == |Kept(before + data[..i])| && sresp[..idx] == Kept(before + data[..i])
    {
      ghost var text := before + data[..i];
      assert before + data[..i + 1] == text + [data[i]];
      KeptNext(text, data[i]);
      if idx < BUFFER {
        sresp[idx] := Sanitize(data[i]);
        assert sresp[..idx + 1] == sresp[..idx] + [sresp[idx]];
        idx := idx + 1;
      }
    }
    assert data[..|data|] == data;
  }

  lemma KeptNext(text: string, c: char)
    ensures Kept(text + [c]) == if |text| < BUFFER then Kept(text) + [Sanitize(c)] else Kept(text)
  {
    if |text| >= BUFFER {
      assert (text + [c])[..BUFFER] == text[..BUFFER];
    } else if |text + [c]| == BUFFER {
      assert (text + [c])[..BUFFER] == text + [c];
    }
  }

  /** There is at most one completion. */
  lemma OnlyOne(line: seq<string>, t: nat)
    requires CompleteAt(line, t)
    ensures forall u: nat :: CompleteAt(line, u) ==> u == t
  {
  }

  /** The one-shot form of the wait: the verdict on everything up to the first silence after data, if
      that comes within the timeout. */
  ghost function Outcome(line: seq<string>, resp: string, resp1: Option<string>, timeout: nat, beyond: string): int {
    if t: nat :| t < Budget(timeout) && CompleteAt(line, t) then Verdict(Seen(Received(line, t), beyond), resp, resp1)
    else 0
  }

  /** The verdict on a response below 256 bytes is a substring test on the sanitized response, the
      expected string first; what lies beyond the buffer does not matter. */
  lemma VerdictMeaning(text: string, beyond: string, resp: string, resp1: Option<string>)
    requires |text| < BUFFER
    ensures var v := Verdict(Seen(text, beyond), resp, resp1);
      && (v == 1 <==> exists i: nat :: OccursAt(Sanitized(text), i, resp))
      && (v == 2 <==> v != 1 && resp1.Some? && exists i: nat :: OccursAt(Sanitized(text), i, resp1.value))
      && (v == 0 <==> v != 1 && v != 2)
  {
    assert Seen(text, beyond) == Sanitized(text);
  }

  /** What is searched, position by position: of the first 256 characters those from 0x20 to 0x7F as they
      are, and a dot for every other one; and behind 256 characters what lies behind the buffer. */
  lemma SeenPositions(text: string, beyond: string)
    ensures |Seen(text, beyond)| == if |text| < 256 then |text| else 256 + |beyond|
    ensures forall i :: 0 <= i < |text| && i < 256 ==>
      Seen(text, beyond)[i] == if 0x20 <= text[i] as int <= 0x7F then text[i] else '.'
    ensures 256 <= |text| ==> Seen(text, beyond)[256..] == beyond
  {
  }

  /** For a response below 256 bytes that is all printable the verdict is a plain substring test. */
  lemma PrintableVerdict(text: string, beyond: string, resp: string, resp1: Option<string>)
    requires |text| < 256 && forall i :: 0 <= i < |text| ==> 0x20 <= text[i] as int <= 0x7F
    ensures var v := Verdict(Seen(text, beyond), resp, resp1);
      && (v == 1 <==> exists i: nat :: OccursAt(text, i, resp))
      && (v == 2 <==> v != 1 && resp1.Some? && exists i: nat :: OccursAt(text, i, resp1.value))
      && (v == 0 <==> v != 1 && v != 2)
  {
    hide Seen, Verdict;
    SeenPositions(text, beyond);
    assert Seen(text, beyond) == text;
    assert Sanitized(text) == text;
    VerdictMeaning(text, beyond, resp, resp1);
  }

  /** The reply that the PIN command waits for is recognized, line ends and all. */
  lemma PinReady(beyond: string)
    ensures Verdict(Seen("\r\n+CPIN: READY\r\n\r\nOK\r\n", beyond), "CPIN: READY", None) == 1
  {
    var text := "\r\n+CPIN: READY\r\n\r\nOK\r\n";
    SeenPositions(text, beyond);
    var seen := Seen(text, beyond);
    assert seen[3..14] == "CPIN: READY";
    assert OccursAt(seen, 3, "CPIN: READY");
  }

  /** A stream of data without a pause is complete at the first silence after it. */
  lemma CompleteAfterData(line: seq<string>)
    requires line != [] && forall i :: 0 <= i < |line| ==> line[i] != ""
    ensures CompleteAt(line, |line|)
  {
    assert Received(line, |line|) == Received(line, |line| - 1) + Read(line, |line| - 1);
    assert forall j :: 0 <= j < |line| ==> Read(line, j) == line[j];
  }

  /** Fragmentation independence: however the same bytes are delivered, the outcome is the same, as
      long as both deliveries are complete within the timeout.  Only if the bytes fill the buffer does
      it matter what lies behind it. */
  lemma FragmentationIndependent(line1: seq<string>, t1: nat, line2: seq<string>, t2: nat, resp: string,
                                 resp1: Option<string>, timeout: nat, beyond1: string, beyond2: string)
    requires CompleteAt(line1, t1) && CompleteAt(line2, t2) && t1 < Budget(timeout) && t2 < Budget(timeout)
    requires Received(line1, t1) == Received(line2, t2)
    requires |Received(line1, t1)| < BUFFER || beyond1 == beyond2
    ensures Outcome(line1, resp, resp1, timeout, beyond1) == Outcome(line2, resp, resp1, timeout, beyond2)
    ensures Outcome(line1, resp, resp1, timeout, beyond1) == Verdict(Seen(Received(line1, t1), beyond1), resp, resp1)
  {
    hide Verdict, Received;
    OnlyOne(line1, t1);
    OnlyOne(line2, t2);
  }

  // ---- Collecting ------------------------------------------------------------------------------

  /** The amount by which the buffer grows. */
  const GROWTH: nat := 512

  /** Everything up to the first silence. */
  function Stream(line: seq<string>): string {
    if line == [] || line[0] == "" then "" else line[0] + Stream(line[1..])
  }

  /** What the matching form receives of data that comes without a pause, together with what is still
      to come. */
  lemma {:induction false} ReceivedThenStream(line: seq<string>, t: nat)
    requires t <= |line| && forall i :: 0 <= i < t ==> line[i] != ""
    ensures Received(line, t) + Stream(line[t..]) == Stream(line)
  {
    if t == 0 {
      assert line[0..] == line && "" + Stream(line) == Stream(line);
    } else {
      ReceivedThenStream(line, t - 1);
      StreamStep(line, t - 1);
      Regroup(Received(line, t - 1), line[t - 1], Stream(line[t..]));
    }
  }

  /** Any two ways of cutting the same bytes into chunks, if there are no more chunks than reads within
      the timeout, have the same outcome: the verdict on what the collecting form would collect. */
  lemma AnyFragments(line1: seq<string>, line2: seq<string>, resp: string, resp1: Option<string>, timeout: nat,
                     beyond1: string, beyond2: string)
    requires line1 != [] && line2 != [] && |line1| < Budget(timeout) && |line2| < Budget(timeout)
    requires (forall i :: 0 <= i < |line1| ==> line1[i] != "") && forall i :: 0 <= i < |line2| ==> line2[i] != ""
    requires Stream(line1) == Stream(line2) && (|Stream(line1)| < BUFFER || beyond1 == beyond2)
    ensures Outcome(line1, resp, resp1, timeout, beyond1) == Outcome(line2, resp, resp1, timeout, beyond2)
    ensures Outcome(line1, resp, resp1, timeout, beyond1) == Verdict(Seen(Stream(line1), beyond1), resp, resp1)
  {
    hide Verdict, Seen, Received, Outcome;
    WholeReceived(line1);
    WholeReceived(line2);
    CompleteAfterData(line1);
    CompleteAfterData(line2);
    FragmentationIndependent(line1, |line1|, line2, |line2|, resp, resp1, timeout, beyond1, beyond2);
  }

  lemma WholeReceived(line: seq<string>)
    requires forall i :: 0 <= i < |line| ==> line[i] != ""
    ensures Received(line, |line|) == Stream(line)
  {
    ReceivedThenStream(line, |line|);
    assert Received(line, |line|) + "" == Received(line, |line|);
  }

  /** The number of reallocations that a line needs when `tot` bytes stand in a buffer of `size`. */
  function Growths(line: seq<string>, tot: nat, size: nat): nat {
    if line == [] || line[0] == "" then 0
    else if tot + |line[0]| >= size then 1 + Growths(line[1..], tot + |line[0]|, size + GROWTH)
    else Growths(line[1..], tot + |line[0]|, size)
  }

  /** All reallocations that a line needs succeed. */
  ghost predicate AllGrow(line: seq<string>, size: nat, realloc: nat -> bool) {
    forall k: nat :: k < Growths(line, 0, size) ==> realloc(k)
  }

  lemma GrowthsStep(line: seq<string>, i: nat, tot: nat, size: nat)
    requires i <= |line|
    ensures Read(line, i) == "" ==> Growths(line[i..], tot, size) == 0
    ensures i < |line| && Read(line, i) != "" ==>
      var n := tot + |Read(line, i)|;
      Growths(line[i..], tot, size)
      == if n >= size then 1 + Growths(line[i + 1..], n, size + GROWTH) else Growths(line[i + 1..], n, size)
  {
    if i < |line| {
      assert line[i..][1..] == line[i + 1..] && line[i..][0] == line[i];
    }
  }

  /** The collecting form: reads into `response`, of which `size` bytes may be used, and moves to a
      larger buffer when needed; `realloc(k)` tells whether the k-th reallocation succeeds.  If all that
      are needed do, it returns the number of bytes, which stand in the buffer returned, exactly as
      received and followed by a terminator; otherwise 0.

      `intact` tells whether the caller has a buffer that it may still use or free: it has none if and
      only if a reallocation fails after one that succeeded, because the caller's own buffer has then
      been given back and the new one is not handed over. */
  method Collect(line: seq<string>, response: array<char>, size0: nat, realloc: nat -> bool)
    returns (tot: nat, pbuf: array<char>, intact: bool)
    requires 0 < size0 <= response.Length
    requires forall i :: 0 <= i < |line| ==> |line[i]| <= BUFFER
    modifies response
    ensures tot == if AllGrow(line, size0, realloc) then |Stream(line)| else 0
    ensures tot < pbuf.Length && pbuf[..tot] == Stream(line)[..tot]
    ensures tot > 0 ==> pbuf[tot] == '\0'
    ensures pbuf == response || fresh(pbuf)
    ensures intact <==> AllGrow(line, size0, realloc) || !realloc(0)
  {
    hide Stream, Growths, Read;
    pbuf, tot, intact := response, 0, true;
    var size: nat, grown: nat, i: nat := size0, 0, 0;
    var data := Read(line, i);
    ghost var got := "";
    StreamStep(line, i);
    GrowthsStep(line, i, 0, size0);
    assert line[0..] == line;
    while |data| > 0
      invariant i <= |line| && data == Read(line, i)
      invariant pbuf == response || fresh(pbuf)
      invariant intact && forall k: nat :: k < grown ==> realloc(k)
      invariant grown + Growths(line[i..], tot, size) == Growths(line, 0, size0)
      invariant data == "" ==> Growths(line[i..], tot, size) == 0
      invariant tot < size <= pbuf.Length
      invariant pbuf[..tot] == got && got + Stream(line[i..]) == Stream(line)
      invariant tot > 0 ==> pbuf[tot] == '\0'
      invariant data == "" ==> Stream(line[i..]) == ""
      decreases |line| - i
    {
      ReadInside(line, i);
      GrowthsStep(line, i, tot, size);
      if tot + |data| >= size {
        if !realloc(grown) {
          return 0, response, grown == 0;
        }
        grown := grown + 1;
      }
      pbuf, size := Take(pbuf, size, tot, data);
      StreamStep(line, i);
      Regroup(got, data, Stream(line[i + 1..]));
      got := got + data;
      tot := tot + |data|;
      i := i + 1;
      data := Read(line, i);
      StreamStep(line, i);
      GrowthsStep(line, i, tot, size);
    }
    assert got + "" == got;
  }

  /** Four full reads need two reallocations; if the second one fails, the caller is left without a
      buffer. */
  method BufferLost() returns (line: seq<string>, intact: bool)
    ensures |line| == 4 && (forall i :: 0 <= i < 4 ==> |line[i]| == BUFFER) && Growths(line, 0, 512) == 2
    ensures !intact
  {
    var full := seq(BUFFER, _ => 'x');
    line := [full, full, full, full];
    assert line[1..] == [full, full, full] && line[1..][1..] == [full, full] && line[1..][1..][1..] == [full];
    TwoGrowths(full);
    var response := new char[512](_ => '\0');
    var first := (k: nat) => k == 0;
    var _, _, i := Collect(line, response, 512, first);
    assert !first(1);
    intact := i;
  }

  /** A line of `n` reads that fill the read buffer. */
  function Full(full: string, n: nat): seq<string> {
    if n == 0 then [] else [full] + Full(full, n - 1)
  }

  /** Reads that fill the read buffer need a reallocation for every two of them: the buffer starts with
      512 bytes and grows by 512. */
  lemma {:induction false} FullReads(full: string, n: nat, tot: nat, size: nat)
    requires |full| == 256 && (size == tot + 256 || size == tot + 512)
    ensures Growths(Full(full, n), tot, size) == if size == tot + 256 then (n + 1) / 2 else n / 2
    decreases n
  {
    if n != 0 {
      assert Full(full, n)[1..] == Full(full, n - 1);
      FullReads(full, n - 1, tot + 256, if size == tot + 256 then size + 512 else size);
    }
  }

  lemma TwoGrowths(full: string)
    requires |full| == BUFFER
    ensures Growths([full, full, full, full], 0, 512) == 2
  {
    var one, two, three := [full], [full, full], [full, full, full];
    assert one[1..] == [] && two[1..] == one && three[1..] == two && [full, full, full, full][1..] == three;
    assert Growths(one, 768, 1024) == 1;
    assert Growths(two, 512, 1024) == 1;
    assert Growths(three, 256, 512) == 2;
  }

  lemma ReadInside(line: seq<string>, i: nat)
    requires Read(line, i) != "" && forall k :: 0 <= k < |line| ==> |line[k]| <= BUFFER
    ensures i < |line| && |Read(line, i)| <= BUFFER
  {
  }

  lemma Regroup(a: string, b: string, c: string)
    ensures a + (b + c) == a + b + c
  {
  }

  /** Puts a chunk after what is there, in a larger buffer if it would fill this one. */
  method Take(pbuf0: array<char>, size0: nat, tot: nat, data: string) returns (pbuf: array<char>, size: nat)
    requires tot < size0 <= pbuf0.Length && |data| <= BUFFER
    modifies pbuf0
    ensures pbuf == pbuf0 || fresh(pbuf)
    ensures size == if tot + |data| >= size0 then size0 + GROWTH else size0
    ensures tot + |data| < size <= pbuf.Length
    ensures pbuf[..tot + |data|] == old(pbuf0[..tot]) + data && pbuf[tot + |data|] == '\0'
  {
    pbuf, size := pbuf0, size0;
    if tot + |data| >= size {
      pbuf := Realloc(pbuf, size + GROWTH, tot);
      size := size + GROWTH;
    }
    Append(pbuf, tot, data);
  }

  /** Puts a chunk after what is there, and a terminator after the chunk. */
  method Append(pbuf: array<char>, tot: nat, data: string)
    requires tot + |data| < pbuf.Length
    modifies pbuf
    ensures pbuf[..tot + |data|] == old(pbuf[..tot]) + data && pbuf[tot + |data|] == '\0'
  {
    Copy(pbuf, tot, data);
    pbuf[tot + |data|] := '\0';
    assert pbuf[..tot + |data|] == pbuf[..tot] + pbuf[tot..tot + |data|];
  }

  lemma StreamStep(line: seq<string>, i: nat)
    requires i <= |line|
    ensures Read(line, i) == "" ==> Stream(line[i..]) == ""
    ensures i < |line| && Read(line, i) != "" ==> Stream(line[i..]) == Read(line, i) + Stream(line[i + 1..])
  {
    if i < |line| {
      assert line[i..][1..] == line[i + 1..] && line[i..][0] == line[i];
    }
  }

  /** `realloc`, when it succeeds: a larger buffer with the same contents. */
  method Realloc(pbuf: array<char>, size: nat, tot: nat) returns (ptemp: array<char>)
    requires tot <= pbuf.Length && tot <= size
    ensures fresh(ptemp) && ptemp.Length == size && ptemp[..tot] == pbuf[..tot]
  {
    ptemp := new char[size](_ => '\0');
    Copy(ptemp, 0, pbuf[..tot]);
  }

  /** `memcpy` */
  method Copy(a: array<char>, at: nat, s: string)
    requires at + |s| <= a.Length
    modifies a
    ensures a[..at] == old(a[..at]) && a[at..at + |s|] == s && a[at + |s|..] == old(a[at + |s|..])
  {
    for k := 0 to |s|
      invariant a[..at] == old(a[..at]) && a[at..at + k] == s[..k] && a[at + k..] == old(a[at + k..])
    {
      a[at + k] := s[k];
      assert a[at..at + k + 1] == a[at..at + k] + [s[k]];
    }
  }
}
