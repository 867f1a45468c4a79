/** The rest of `smsRead`: parsing all messages of a listing into an array, and the selection sort by
    time that marks what it has copied. */
module SmsRead {

  import opened CStrings
  import opened Counting
  import opened Options
  import opened SmsListing
  import opened SmsRoundTrip
  import ResponseReader

  // ---- Reading all messages ----------------------------------------------------------------------

  /** A message that is cut off is followed by none that is not. */
  lemma CutOffIsLast(s: string, j: nat, k: nat, clock: string -> int)
    requires 0 < j <= k && GetSms(s, k, clock).Some?
    ensures GetSms(s, j, clock).Some?
  {
    var p, q := AfterMarker(s, 0, j), AfterMarker(s, 0, k);
    ScanComplete(s, 0, j);
    ScanComplete(s, 0, k);
    AfterGrows(s, 0, j, k);
    assert s[p..][q - p..] == s[q..];
    TwoLines(s[p..], q - p, clock);
  }

  lemma {:induction false} AfterGrows(s: string, p: nat, j: nat, k: nat)
    requires 0 < j <= k && AfterMarker(s, p, k) != -1 && AfterMarker(s, p, j) != -1
    ensures AfterMarker(s, p, j) <= AfterMarker(s, p, k)
    decreases j
  {
    var hit := Find(s, MARKER, p);
    if j > 1 {
      AfterGrows(s, hit + |MARKER|, j - 1, k - 1);
    }
  }

  /** A text with two complete lines after some position has two complete lines. */
  lemma TwoLines(text: string, d: nat, clock: string -> int)
    requires d <= |text| && Parse(text[d..], clock).Some?
    ensures Parse(text, clock).Some?
  {
    var e := Find(text[d..], CRLF, 0);
    var f := Find(text[d..], CRLF, e + 2);
    OccursShifted(text, e, CRLF, d);
    OccursShifted(text, f, CRLF, d);
    assert OccursAt(text, d + e, CRLF) && OccursAt(text, d + f, CRLF);
    var e' := Find(text, CRLF, 0);
    assert e' != -1 && e' <= d + e;
  }

  /** The messages of a listing up to the first one that is cut off. */
  ghost predicate IsReadOf(messages: seq<Sms>, s: string, clock: string -> int) {
    && (forall k :: 0 <= k < |messages| ==> GetSms(s, k + 1, clock) == Some(messages[k]))
    && (forall k: nat :: |messages| < k ==> GetSms(s, k, clock) == None)
  }

  /** The parsing loop: message i is stored at i, while only those that parse are counted.  Because
      only the last message of a listing can be cut off, the counted ones are exactly the first. */
  method ReadMessages(rbuffer: string, clock: string -> int) returns (messages: array<Sms>, nmsg: nat)
    ensures fresh(messages) && nmsg <= messages.Length
    ensures IsReadOf(messages[..nmsg], rbuffer, clock)
  {
    hide Parse, AfterMarker, Count;
    var n := NumSms(rbuffer);
    messages := new Sms[n](_ => EMPTY);
    nmsg := 0;
    for i := 0 to n
      invariant nmsg <= i && nmsg <= n
      invariant forall k :: 0 <= k < nmsg ==> GetSms(rbuffer, k + 1, clock) == Some(messages[k])
      invariant nmsg < i ==> forall k: nat :: nmsg < k ==> GetSms(rbuffer, k, clock) == None
    {
      var res, msg := GetSmsAt(rbuffer, i + 1, clock);
      if res > 0 {
        messages[i] := msg;
        nmsg := nmsg + 1;
      } else if nmsg == i {
        forall k: nat | i < k ensures GetSms(rbuffer, k, clock) == None {
          if GetSms(rbuffer, k, clock).Some? {
            CutOffIsLast(rbuffer, i + 1, k, clock);
          }
        }
      }
    }
    if nmsg == n {
      forall k: nat | n < k ensures GetSms(rbuffer, k, clock) == None {
        ScanComplete(rbuffer, 0, k);
      }
    }
  }

  // ---- Sorting -------------------------------------------------------------------------------

  /** Message `a` comes before message `b`: by time, and among equal times by position. */
  predicate Before(input: seq<Sms>, a: nat, b: nat, ascending: bool)
    requires a < |input| && b < |input|
  {
    var s, t := input[a].timeValue, input[b].timeValue;
    if s == t then a < b else if ascending then s < t else s > t
  }

  /** The range of a time value. */
  const MAX_TIME: int := 0x7FFF_FFFF

  predicate InRange(input: seq<Sms>) {
    forall i :: 0 <= i < |input| ==> -0x8000_0000 <= input[i].timeValue <= MAX_TIME
  }

  /** Looks for the smallest (largest) time among the marked messages; `tm` starts at the largest
      time there is (at 0). */
  method Extreme(messages: array<Sms>, mm: array<bool>, ascending: bool) returns (tm: int)
    requires mm.Length <= messages.Length
    ensures var start := if ascending then MAX_TIME else 0;
      && (tm == start || exists i :: 0 <= i < mm.Length && mm[i] && messages[i].timeValue == tm)
      && (if ascending then tm <= start else start <= tm)
      && forall i :: 0 <= i < mm.Length && mm[i] ==>
           if ascending then tm <= messages[i].timeValue else messages[i].timeValue <= tm
  {
    tm := if ascending then MAX_TIME else 0;
    for i := 0 to mm.Length
      invariant var start := if ascending then MAX_TIME else 0;
        && (tm == start || exists k :: 0 <= k < i && mm[k] && messages[k].timeValue == tm)
        && (if ascending then tm <= start else start <= tm)
      invariant forall k :: 0 <= k < i && mm[k] ==>
        if ascending then tm <= messages[k].timeValue else messages[k].timeValue <= tm
    {
      if mm[i] {
        if ascending && messages[i].timeValue < tm {
          tm := messages[i].timeValue;
        }
        if !ascending && messages[i].timeValue > tm {
          tm := messages[i].timeValue;
        }
      }
    }
  }

  /** The first marked message with a given time. */
  function FirstMarked(messages: seq<Sms>, mm: seq<bool>, tm: int, i: nat): int
    requires |mm| <= |messages|
    decreases |mm| - i
  {
    if |mm| <= i then -1
    else if mm[i] && messages[i].timeValue == tm then i
    else FirstMarked(messages, mm, tm, i + 1)
  }

  lemma {:induction false} FirstMarkedIs(messages: seq<Sms>, mm: seq<bool>, tm: int, i: nat)
    requires |mm| <= |messages| && i <= |mm|
    ensures var k := FirstMarked(messages, mm, tm, i);
      && (k == -1 ==> forall j :: i <= j < |mm| && mm[j] ==> messages[j].timeValue != tm)
      && (k != -1 ==>
            && i <= k < |mm| && mm[k] && messages[k].timeValue == tm
            && forall j :: i <= j < k && mm[j] ==> messages[j].timeValue != tm)
    decreases |mm| - i
  {
    if i < |mm| {
      FirstMarkedIs(messages, mm, tm, i + 1);
    }
  }

  /** The messages that a pass can find: the search for the largest time starts at 0. */
  predicate Eligible(m: Sms, ascending: bool) {
    ascending || 0 <= m.timeValue
  }

  /** What has been picked so far: distinct eligible messages in order, each before all the eligible
      ones that are still marked, and the rest of the output is blank. */
  ghost predicate Picked(input: seq<Sms>, mm: seq<bool>, output: seq<Sms>, perm: seq<nat>, ascending: bool) {
    && |mm| == |output| == |input| && |perm| <= |input|
    && (forall i :: 0 <= i < |perm| ==>
          perm[i] < |input| && !mm[perm[i]] && Eligible(input[perm[i]], ascending) && output[i] == input[perm[i]])
    && (forall i :: |perm| <= i < |output| ==> output[i] == EMPTY)
    && (forall i, j :: 0 <= i < j < |perm| ==> Before(input, perm[i], perm[j], ascending))
    && (forall k :: 0 <= k < |mm| && !mm[k] ==> k in perm)
    && (forall i, k :: 0 <= i < |perm| && 0 <= k < |mm| && mm[k] && Eligible(input[k], ascending) ==>
          Before(input, perm[i], k, ascending))
  }

  /** No eligible message is marked any more. */
  predicate Exhausted(input: seq<Sms>, mm: seq<bool>, ascending: bool)
    requires |mm| == |input|
  {
    forall k :: 0 <= k < |mm| && mm[k] ==> !Eligible(input[k], ascending)
  }

  /** Picking message `k`, which comes before all other eligible ones that are marked. */
  lemma PickedMore(input: seq<Sms>, mm: seq<bool>, output: seq<Sms>, perm: seq<nat>, ascending: bool, k: nat)
    requires Picked(input, mm, output, perm, ascending) && |perm| < |input|
    requires k < |mm| && mm[k] && Eligible(input[k], ascending)
    requires forall j :: 0 <= j < |mm| && mm[j] && j != k && Eligible(input[j], ascending) ==> Before(input, k, j, ascending)
    ensures Picked(input, mm[k := false], output[|perm| := input[k]], perm + [k], ascending)
  {
  }

  /** The passes over an array of which the first `mm.Length` elements take part. */
  method Pass(messages: array<Sms>, mm: array<bool>, smessages: array<Sms>, idx: nat, ascending: bool, ghost perm: seq<nat>)
    returns (ghost perm': seq<nat>)
    requires messages != smessages && mm.Length == smessages.Length <= messages.Length
    requires InRange(messages[..mm.Length]) && idx < mm.Length
    requires Picked(messages[..mm.Length], mm[..], smessages[..], perm, ascending)
    requires |perm| == idx || (|perm| < idx && Exhausted(messages[..mm.Length], mm[..], ascending))
    modifies mm, smessages
    ensures Picked(messages[..mm.Length], mm[..], smessages[..], perm', ascending)
    ensures if Exhausted(messages[..mm.Length], old(mm[..]), ascending)
            then perm' == perm && mm[..] == old(mm[..])
            else |perm'| == idx + 1
  {
    hide Picked;
    ghost var input, marks, before := messages[..mm.Length], mm[..], smessages[..];
    perm' := perm;
    var tm := Extreme(messages, mm, ascending);
    var i := 0;
    FirstMarkedIs(input, marks, tm, 0);
    while i < mm.Length
      invariant i <= mm.Length && mm[..] == marks
      invariant FirstMarked(input, marks, tm, 0) == FirstMarked(input, marks, tm, i)
    {
      if mm[i] && messages[i].timeValue == tm {
        break;
      }
      i := i + 1;
    }
    PickIsExtreme(input, marks, tm, ascending);
    if i < mm.Length {
      PickedMore(input, marks, before, perm, ascending, i);
      smessages[idx] := messages[i];
      mm[i] := false;
      assert mm[..] == marks[i := false] && smessages[..] == before[idx := input[i]];
      perm' := perm + [i];
    }
  }

  /** A marked message with the extreme time exists if and only if an eligible one is marked. */
  lemma PickIsExtreme(input: seq<Sms>, mm: seq<bool>, tm: int, ascending: bool)
    requires |mm| == |input| && InRange(input)
    requires var start := if ascending then MAX_TIME else 0;
      && (tm == start || exists i :: 0 <= i < |mm| && mm[i] && input[i].timeValue == tm)
      && (if ascending then tm <= start else start <= tm)
      && forall i :: 0 <= i < |mm| && mm[i] ==> if ascending then tm <= input[i].timeValue else input[i].timeValue <= tm
    ensures FirstMarked(input, mm, tm, 0) == -1 <==> Exhausted(input, mm, ascending)
    ensures var k := FirstMarked(input, mm, tm, 0);
      k != -1 ==>
        && 0 <= k < |mm| && mm[k] && Eligible(input[k], ascending)
        && forall j :: 0 <= j < |mm| && mm[j] && j != k && Eligible(input[j], ascending) ==> Before(input, k, j, ascending)
  {
    FirstMarkedIs(input, mm, tm, 0);
  }

  /** The result of sorting: the eligible messages, each once, in the order of `Before`, and then
      blank messages. */
  ghost predicate Sorted(input: seq<Sms>, output: seq<Sms>, perm: seq<nat>, ascending: bool) {
    && |perm| <= |output| == |input|
    && (forall i :: 0 <= i < |perm| ==> perm[i] < |input| && output[i] == input[perm[i]])
    && (forall i, j :: 0 <= i < j < |perm| ==> Before(input, perm[i], perm[j], ascending))
    && (forall k: nat :: k in perm <==> k < |input| && Eligible(input[k], ascending))
    && (forall i :: |perm| <= i < |output| ==> output[i] == EMPTY)
  }

  /** The mark-and-copy selection sort of the first `nmsg` messages. */
  method SelectionSort(messages: array<Sms>, nmsg: nat, ascending: bool) returns (smessages: array<Sms>)
    requires nmsg <= messages.Length && InRange(messages[..nmsg])
    ensures fresh(smessages) && IsSorted(messages[..nmsg], smessages[..], ascending)
  {
    ghost var input := messages[..nmsg];
    smessages := new Sms[nmsg](_ => EMPTY);
    var mm := new bool[nmsg](_ => true);
    ghost var perm: seq<nat> := [];
    for idx := 0 to nmsg
      invariant fresh(mm) && fresh(smessages) && messages[..nmsg] == input
      invariant Picked(input, mm[..], smessages[..], perm, ascending)
      invariant |perm| == idx || (|perm| < idx && Exhausted(input, mm[..], ascending))
    {
      assert messages[..mm.Length] == input;
      perm := Pass(messages, mm, smessages, idx, ascending, perm);
    }
    if |perm| == nmsg {
      AllPicked(input, mm[..], smessages[..], perm, ascending);
    }
    assert Sorted(input, smessages[..], perm, ascending);
  }

  /** When as many messages have been picked as there are, none is marked. */
  lemma AllPicked(input: seq<Sms>, mm: seq<bool>, output: seq<Sms>, perm: seq<nat>, ascending: bool)
    requires Picked(input, mm, output, perm, ascending) && |perm| == |input|
    ensures Exhausted(input, mm, ascending)
  {
    forall i, j | 0 <= i < j < |perm| ensures perm[i] != perm[j] {
      assert Before(input, perm[i], perm[j], ascending);
    }
    Covers(perm, |input|);
    forall k | 0 <= k < |mm| ensures !mm[k] {
      assert k in perm;
      var i :| 0 <= i < |perm| && perm[i] == k;
    }
  }

  /** The sorted array is a stable rearrangement of the messages if and only if the order is
      ascending or no time is negative: a negative time is never found in descending order, and its
      message is lost. */
  lemma SortIsStable(input: seq<Sms>, output: seq<Sms>, perm: seq<nat>, ascending: bool)
    requires Sorted(input, output, perm, ascending)
    ensures ascending || (forall i :: 0 <= i < |input| ==> 0 <= input[i].timeValue) ==>
      && |perm| == |input| && multiset(output) == multiset(input)
    ensures !ascending && (exists i :: 0 <= i < |input| && input[i].timeValue < 0) ==>
      multiset(output) != multiset(input)
  {
    DistinctPerm(input, perm, ascending);
    if ascending || forall i :: 0 <= i < |input| ==> 0 <= input[i].timeValue {
      DistinctElements(perm);
      assert Elements(perm) == Below(|input|);
      Rearranged(input, output, perm);
    } else {
      var i :| 0 <= i < |input| && input[i].timeValue < 0;
      assert input[i] in multiset(input);
      forall j | 0 <= j < |output| ensures output[j] != input[i] {
        if j < |perm| {
          assert perm[j] in perm;
        }
      }
      assert input[i] !in output;
    }
  }

  /** The one message that is sorted in descending order is lost: its time is negative. */
  lemma NegativeTimeLost(output: seq<Sms>)
    requires IsSorted([EMPTY.(timeValue := -1)], output, false)
    ensures output == [EMPTY]
  {
    var perm :| Sorted([EMPTY.(timeValue := -1)], output, perm, false);
    assert forall k: nat :: k !in perm;
  }

  lemma DistinctPerm(input: seq<Sms>, perm: seq<nat>, ascending: bool)
    requires forall i :: 0 <= i < |perm| ==> perm[i] < |input|
    requires forall i, j :: 0 <= i < j < |perm| ==> Before(input, perm[i], perm[j], ascending)
    ensures forall i, j :: 0 <= i < j < |perm| ==> perm[i] != perm[j]
  {
  }

  function Without<T>(s: seq<T>, k: nat): (r: seq<T>)
    requires k < |s|
    ensures |r| == |s| - 1 && multiset(s) == multiset(r) + multiset{s[k]}
    ensures forall i :: 0 <= i < |r| ==> r[i] == s[if i < k then i else i + 1]
  {
    assert s == s[..k] + [s[k]] + s[k + 1..];
    s[..k] + s[k + 1..]
  }

  /** Without the greatest of them, distinct positions are those below it. */
  lemma WithoutLast(perm: seq<nat>, k: nat)
    requires k < |perm| && perm[k] == |perm| - 1
    requires forall i :: 0 <= i < |perm| ==> perm[i] < |perm|
    requires forall i, j :: 0 <= i < j < |perm| ==> perm[i] != perm[j]
    ensures var rest := Without(perm, k);
      && (forall i :: 0 <= i < |rest| ==> rest[i] < |perm| - 1)
      && (forall i, j :: 0 <= i < j < |rest| ==> rest[i] != rest[j])
  {
  }

  lemma LastApart<T>(s: seq<T>)
    requires s != []
    ensures multiset(s) == multiset(s[..|s| - 1]) + multiset{s[|s| - 1]}
  {
    assert s == s[..|s| - 1] + [s[|s| - 1]];
  }

  /** Picking all positions once is a permutation of the contents. */
  lemma {:induction false} Rearranged(input: seq<Sms>, output: seq<Sms>, perm: seq<nat>)
    requires |perm| == |output| == |input|
    requires forall i :: 0 <= i < |perm| ==> perm[i] < |input| && output[i] == input[perm[i]]
    requires forall i, j :: 0 <= i < j < |perm| ==> perm[i] != perm[j]
    ensures multiset(output) == multiset(input)
    decreases |input|
  {
    hide Without;
    if input != [] {
      var n := |input| - 1;
      Covers(perm, n + 1);
      assert n in perm;
      var k :| 0 <= k < |perm| && perm[k] == n;
      var perm', output' := Without(perm, k), Without(output, k);
      WithoutLast(perm, k);
      Rearranged(input[..n], output', perm');
      LastApart(input);
    }
  }

  lemma BeforeIsStrict(input: seq<Sms>, a: nat, b: nat, ascending: bool)
    requires a < |input| && b < |input|
    ensures !Before(input, a, a, ascending) && !(Before(input, a, b, ascending) && Before(input, b, a, ascending))
  {
  }

  /** Two orders of the same positions agree. */
  lemma {:induction false} OrderUnique(input: seq<Sms>, p: seq<nat>, q: seq<nat>, ascending: bool, k: nat)
    requires forall x: nat :: x in p <==> x in q
    requires forall x: nat :: x in p ==> x < |input|
    requires forall i :: 0 <= i < |p| ==> p[i] < |input|
    requires forall i :: 0 <= i < |q| ==> q[i] < |input|
    requires forall i, j :: 0 <= i < j < |p| ==> Before(input, p[i], p[j], ascending)
    requires forall i, j :: 0 <= i < j < |q| ==> Before(input, q[i], q[j], ascending)
    requires k <= |p| && k <= |q|
    ensures forall i :: 0 <= i < k ==> p[i] == q[i]
  {
    if k != 0 {
      var n := k - 1;
      OrderUnique(input, p, q, ascending, n);
      assert p[n] in q && q[n] in p;
      var i :| 0 <= i < |q| && q[i] == p[n];
      var j :| 0 <= j < |p| && p[j] == q[n];
      BeforeIsStrict(input, p[n], q[n], ascending);
      BeforeIsStrict(input, q[n], p[n], ascending);
    }
  }

  /** The result of sorting is determined by the messages. */
  lemma SortUnique(input: seq<Sms>, a: seq<Sms>, p: seq<nat>, b: seq<Sms>, q: seq<nat>, ascending: bool)
    requires Sorted(input, a, p, ascending) && Sorted(input, b, q, ascending)
    ensures a == b
  {
    DistinctPerm(input, p, ascending);
    DistinctPerm(input, q, ascending);
    DistinctElements(p);
    DistinctElements(q);
    assert Elements(p) == Elements(q);
    OrderUnique(input, p, q, ascending, |p|);
    forall i | 0 <= i < |a| ensures a[i] == b[i] {
    }
  }

  // ---- smsRead -------------------------------------------------------------------------------

  /** The output has the messages in the order asked for. */
  ghost predicate InOrder(input: seq<Sms>, output: seq<Sms>, sort: int) {
    if sort == 0 then output == input else IsSorted(input, output, sort > 0)
  }

  ghost predicate IsSorted(input: seq<Sms>, output: seq<Sms>, ascending: bool) {
    exists perm :: Sorted(input, output, perm, ascending)
  }

  /** For a positive `sort` the times ascend; for a negative one they descend up to the messages that are
      lost, of which blank ones take the place; and for 0 the order is that of the listing. */
  lemma OrderMeaning(input: seq<Sms>, output: seq<Sms>, sort: int)
    requires InOrder(input, output, sort)
    ensures |output| == |input|
    ensures sort == 0 ==> output == input
    ensures sort > 0 ==> forall i, j :: 0 <= i < j < |output| ==> output[i].timeValue <= output[j].timeValue
    ensures sort < 0 ==> forall i, j :: 0 <= i < j < |output| ==> output[i].timeValue >= output[j].timeValue
  {
    if sort != 0 {
      var perm :| Sorted(input, output, perm, sort > 0);
      if sort > 0 {
        SortIsStable(input, output, perm, true);
      }
      forall i, j | 0 <= i < j < |output|
        ensures if sort > 0 then output[i].timeValue <= output[j].timeValue else output[i].timeValue >= output[j].timeValue
      {
        if j < |perm| {
          assert Before(input, perm[i], perm[j], sort > 0);
        } else if i < |perm| {
          assert perm[i] in perm;
          assert sort < 0 ==> Eligible(input[perm[i]], false);
        }
      }
    }
  }

  /** `smsRead` from the listing on: no sorting for `sort == 0`, ascending for a positive, descending
      for a negative one.  The clock yields 32-bit times. */
  method ReadSorted(rbuffer: string, sort: int, clock: string -> int) returns (messages: array<Sms>, nmsg: nat)
    requires forall t :: -0x8000_0000 <= clock(t) <= 0x7FFF_FFFF
    ensures nmsg <= messages.Length
    ensures exists all :: IsReadOf(all, rbuffer, clock) && InOrder(all, messages[..nmsg], sort)
  {
    messages, nmsg := ReadMessages(rbuffer, clock);
    ghost var all := messages[..nmsg];
    if nmsg > 0 && sort != 0 {
      TimesInRange(all, rbuffer, clock);
      messages := SelectionSort(messages, nmsg, sort > 0);
      assert messages[..nmsg] == messages[..];
    } else if nmsg == 0 {
      assert Sorted(all, messages[..nmsg], [], sort > 0);
    }
    assert InOrder(all, messages[..nmsg], sort);
  }

  /** The messages that the modem delivers, in whatever fragments, in the order asked for. */
  ghost predicate Fetched(output: seq<Sms>, line: seq<string>, sort: int, clock: string -> int) {
    exists all :: IsReadOf(all, TextOf(ResponseReader.Stream(line)), clock) && InOrder(all, output, sort)
  }

  /** `smsRead`: `ready` tells whether the modem can be asked for its messages, `line` is what it then
      delivers and `realloc(k)` whether the k-th reallocation of the buffer succeeds. */
  method SmsRead(ready: bool, line: seq<string>, realloc: nat -> bool, sort: int, clock: string -> int)
    returns (messages: array<Sms>, nmsg: nat)
    requires forall t :: -0x8000_0000 <= clock(t) <= 0x7FFF_FFFF
    requires forall i :: 0 <= i < |line| ==> |line[i]| <= ResponseReader.BUFFER
    ensures nmsg <= messages.Length
    ensures if ready && ResponseReader.AllGrow(line, 512, realloc) then Fetched(messages[..nmsg], line, sort, clock)
            else nmsg == 0
  {
    messages, nmsg := new Sms[0](_ => EMPTY), 0;
    if !ready {
      return;
    }
    var rbuffer := new char[512](_ => '\0');
    var res, pbuf, _ := ResponseReader.Collect(line, rbuffer, 512, realloc);
    if res <= 0 {
      NothingFetched(messages[..nmsg], clock, sort);
      return;
    }
    TextEnds(pbuf[..], res);
    assert pbuf[..][..res] == pbuf[..res] == ResponseReader.Stream(line);
    messages, nmsg := ReadSorted(TextOf(pbuf[..]), sort, clock);
  }

  /** No text, no messages. */
  lemma NothingFetched(output: seq<Sms>, clock: string -> int, sort: int)
    requires output == []
    ensures IsReadOf([], "", clock) && InOrder([], output, sort)
  {
    assert Sorted([], output, [], sort > 0);
  }

  /** End to end: if the modem delivers the listing of plain messages, in whatever fragments, none of
      which contains a NUL, then all of them are read; and they are read as they were sent if and only
      if their text fields fit and do not end in commas. */
  lemma ListingFetched(line: seq<string>, before: string, entries: seq<Entry>, after: string, all: seq<Sms>, clock: string -> int)
    requires ResponseReader.Stream(line) == Listing(before, entries, after)
    requires PlainEntries(entries) && Free(before, MARKER) && Free(after, MARKER) && Free(before + after, MARKER)
    requires WholeUpTo(before, entries, |entries|)
    requires IsReadOf(all, TextOf(ResponseReader.Stream(line)), clock)
    ensures |all| == |entries|
    ensures (forall k :: 0 <= k < |all| ==> all[k] == Expected(entries[k], clock))
            <==> (forall k :: 0 <= k < |entries| ==> Survives(entries[k]))
  {
    hide Listing, PlainEntry, Free, GetSms, Expected, Survives, WholeUpTo, ResponseReader.Stream;
    var s := TextOf(ResponseReader.Stream(line));
    ListingRoundTrip(before, entries, after, clock);
    forall k: nat | 1 <= k <= |entries| ensures WholeUpTo(before, entries, k) {
      WholeLess(before, entries, k);
    }
    ReadLength(all, s, |entries|, clock);
    forall k | 0 <= k < |all| ensures all[k] == Expected(entries[k], clock) <==> Survives(entries[k]) {
      assert GetSms(s, k + 1, clock) == Some(all[k]);
      assert WholeUpTo(before, entries, k + 1);
    }
  }

  /** As many messages are read as can be parsed. */
  lemma ReadLength(all: seq<Sms>, s: string, n: nat, clock: string -> int)
    requires IsReadOf(all, s, clock)
    requires forall k: nat :: 1 <= k <= n ==> GetSms(s, k, clock).Some?
    requires forall k: nat :: n < k ==> GetSms(s, k, clock) == None
    ensures |all| == n
  {
    hide GetSms;
    assert GetSms(s, |all| + 1, clock) == None;
    assert all == [] || GetSms(s, |all|, clock) == Some(all[|all| - 1]);
  }

  lemma WholeLess(before: string, entries: seq<Entry>, k: nat)
    requires k <= |entries| && WholeUpTo(before, entries, |entries|)
    ensures WholeUpTo(before, entries, k)
  {
  }

  lemma TimesInRange(all: seq<Sms>, s: string, clock: string -> int)
    requires IsReadOf(all, s, clock) && forall t :: -0x8000_0000 <= clock(t) <= MAX_TIME
    ensures InRange(all)
  {
    hide Find, AfterMarker, ParseFields;
    forall k | 0 <= k < |all| ensures -0x8000_0000 <= all[k].timeValue <= MAX_TIME {
      assert GetSms(s, k + 1, clock) == Some(all[k]);
      var p := AfterMarker(s, 0, k + 1);
      HeaderUntimed(s[p..][..Find(s[p..], CRLF, 0)]);
    }
  }

  lemma HeaderUntimed(hdr: string)
    ensures ParseHeader(hdr).timeValue == 0
  {
    FieldsUntimed(hdr, 0, Find(hdr, SEPARATOR, 0), 1, EMPTY);
  }

  lemma {:induction false} FieldsUntimed(hdr: string, p: nat, end: int, i: nat, m: Sms)
    requires end == -1 || p <= end < |hdr|
    ensures ParseFields(hdr, p, end, i, m).timeValue == m.timeValue
    decreases |hdr| + 2 - p
  {
    if end != -1 {
      FieldsUntimed(hdr, end + 2, FieldEnd(hdr, end + 2), i + 1, Store(m, i, hdr[p..end]));
    }
  }
}
