/** Parsing the modem's listing of its SMS memory: `numSMS`, `getSMS` and the reading loop of
    `smsRead`.  A listing is the text of a C string.  The conversion of a time stamp to a time value
    is calendar arithmetic of the C library and stands as a function `clock`. */
module SmsListing {

  import opened CStrings
  import opened Options

  const MARKER: string := "+CMGL: "
  const CRLF: string := "\r\n"
  const SEPARATOR: string := ",\""
  const QUOTE: string := "\""

  /** The size of the text fields of a message. */
  const FIELD: nat := 32

  datatype Sms = Sms(idx: int, stat: string, sender: string, time: string, timeValue: int, body: string)

  const EMPTY: Sms := Sms(0, "", "", "", 0, "")

  // ---- strtol with base 0 ------------------------------------------------------------------------

  /** The value of a digit; 99 for a character that is none. */
  function Digit(c: char): nat {
    if '0' <= c <= '9' then c as int - '0' as int
    else if 'a' <= c <= 'z' then c as int - 'a' as int + 10
    else if 'A' <= c <= 'Z' then c as int - 'A' as int + 10
    else 99
  }

  function Digits(s: string, base: nat, acc: nat): nat {
    if s == "" || base <= Digit(s[0]) then acc else Digits(s[1..], base, acc * base + Digit(s[0]))
  }

  function Magnitude(s: string): nat {
    if |s| >= 3 && s[0] == '0' && (s[1] == 'x' || s[1] == 'X') && Digit(s[2]) < 16 then Digits(s[2..], 16, 0)
    else if s != "" && s[0] == '0' then Digits(s, 8, 0)
    else Digits(s, 10, 0)
  }

  predicate IsSpace(c: char) {
    c == ' ' || 9 <= c as int <= 13
  }

  /** `strtol(s, NULL, 0)` with a 32-bit long. */
  function StrToL(s: string): int {
    if s != "" && IsSpace(s[0]) then StrToL(s[1..])
    else if s != "" && s[0] == '-' then
      if Magnitude(s[1..]) > 0x8000_0000 then -0x8000_0000 else 0 - Magnitude(s[1..])
    else
      var m := Magnitude(if s != "" && s[0] == '+' then s[1..] else s);
      if m > 0x7FFF_FFFF then 0x7FFF_FFFF else m
  }

  // ---- What the parser computes ------------------------------------------------------------------

  /** The number of occurrences of the marker, overlapping or not, from position `p` on. */
  function Count(s: string, p: nat): nat
    decreases |s| - p
  {
    if |s| < p + |MARKER| then 0
    else (if OccursAt(s, p, MARKER) then 1 else 0) + Count(s, p + 1)
  }

  /** The position after the k-th marker that a search from `p` on hits; -1 if there are fewer. */
  function AfterMarker(s: string, p: nat, k: nat): (r: int)
    requires 0 < k
    ensures r == -1 || p < r <= |s|
    decreases k
  {
    var hit := Find(s, MARKER, p);
    if hit == -1 then -1
    else if k == 1 then hit + |MARKER|
    else AfterMarker(s, hit + |MARKER|, k - 1)
  }

  function WithoutQuote(s: string): string {
    if s != "" && s[|s| - 1] == '"' then s[..|s| - 1] else s
  }

  /** The i-th field of a header is stored if it is neither empty nor too long. */
  function Store(m: Sms, i: nat, field: string): Sms {
    if !(0 < |field| < FIELD) then m
    else
      var text := WithoutQuote(field);
      if i == 1 then m.(idx := StrToL(text))
      else if i == 2 then m.(stat := text)
      else if i == 3 then m.(sender := text)
      else if i == 5 then m.(time := text)
      else m
  }

  /** The end of the field at `p`: the next comma and quote, or else the next quote. */
  function FieldEnd(hdr: string, p: nat): int {
    if Find(hdr, SEPARATOR, p) != -1 then Find(hdr, SEPARATOR, p) else Find(hdr, QUOTE, p)
  }

  /** The field loop: the i-th field starts at `p` and ends at `end`. */
  function ParseFields(hdr: string, p: nat, end: int, i: nat, m: Sms): Sms
    requires end == -1 || p <= end < |hdr|
    decreases |hdr| + 2 - p
  {
    if end == -1 then m
    else ParseFields(hdr, end + 2, FieldEnd(hdr, end + 2), i + 1, Store(m, i, hdr[p..end]))
  }

  function ParseHeader(hdr: string): Sms {
    ParseFields(hdr, 0, Find(hdr, SEPARATOR, 0), 1, EMPTY)
  }

  function Timed(m: Sms, clock: string -> int): Sms {
    if |m.time| >= 20 then m.(timeValue := clock(m.time)) else m
  }

  /** The message whose header starts a text, if the header line and the body line are both ended. */
  function Parse(text: string, clock: string -> int): Option<Sms> {
    var e := Find(text, CRLF, 0);
    if e == -1 then None
    else
      var f := Find(text, CRLF, e + 2);
      if f == -1 then None
      else Some(Timed(ParseHeader(text[..e]), clock).(body := text[e + 2..f]))
  }

  function GetSms(s: string, k: nat, clock: string -> int): Option<Sms>
    requires 0 < k
  {
    var p := AfterMarker(s, 0, k);
    if p == -1 then None else Parse(s[p..], clock)
  }

  // ---- The marker scan ---------------------------------------------------------------------------

  lemma MarkerBorderless()
    ensures Borderless(MARKER)
  {
    forall d | 0 < d < |MARKER| ensures MARKER[d..] != MARKER[..|MARKER| - d] {
      assert MARKER[d..][0] == MARKER[d] != '+';
      assert MARKER[..|MARKER| - d][0] == '+';
    }
  }

  /** Positions without a marker do not count. */
  lemma {:induction false} CountSkips(s: string, p: nat, q: nat)
    requires p <= q && forall i: nat :: p <= i < q ==> !OccursAt(s, i, MARKER)
    ensures Count(s, p) == Count(s, q)
    decreases q - p
  {
    if p < q {
      if p + |MARKER| <= |s| {
        CountSkips(s, p + 1, q);
      }
    }
  }

  /** Skipping a whole marker after a hit misses no occurrence. */
  lemma CountHit(s: string, p: nat)
    ensures var hit := Find(s, MARKER, p);
      Count(s, p) == if hit == -1 then 0 else 1 + Count(s, hit + |MARKER|)
  {
    var hit := Find(s, MARKER, p);
    MarkerBorderless();
    if hit == -1 {
      CountSkips(s, p, if p <= |s| then |s| else p);
    } else {
      CountSkips(s, p, hit);
      forall i: nat | hit + 1 <= i < hit + |MARKER| ensures !OccursAt(s, i, MARKER) {
        if OccursAt(s, i, MARKER) {
          NoOverlap(s, MARKER, hit, i);
        }
      }
      CountSkips(s, hit + 1, hit + |MARKER|);
    }
  }

  /** Marker scan completeness: the scan reaches the k-th occurrence exactly if there is one. */
  lemma {:induction false} ScanComplete(s: string, p: nat, k: nat)
    requires 0 < k
    ensures AfterMarker(s, p, k) != -1 <==> k <= Count(s, p)
    decreases k
  {
    CountHit(s, p);
    var hit := Find(s, MARKER, p);
    if hit != -1 && k > 1 {
      ScanComplete(s, hit + |MARKER|, k - 1);
    }
  }

  lemma AfterStep(s: string, q: nat, k: nat)
    requires 0 < k
    ensures var hit := Find(s, MARKER, q);
      AfterMarker(s, q, k)
      == if hit == -1 then -1 else if k == 1 then hit + |MARKER| else AfterMarker(s, hit + |MARKER|, k - 1)
  {
  }

  /** `numSMS`: the number of markers, all of them. */
  method NumSms(rbuffer: string) returns (nmsg: nat)
    ensures nmsg == Count(rbuffer, 0)
  {
    if |rbuffer| == 0 {
      return 0;
    }
    var msgidx: nat := 0;
    nmsg := 0;
    while true
      invariant msgidx <= |rbuffer| && nmsg + Count(rbuffer, msgidx) == Count(rbuffer, 0)
      decreases |rbuffer| - msgidx
    {
      CountHit(rbuffer, msgidx);
      var hit := Find(rbuffer, MARKER, msgidx);
      if hit == -1 {
        break;
      }
      nmsg := nmsg + 1;
      msgidx := hit + 7;
    }
  }

  /** The scan of `getSMS`: the position after the idx-th marker and whether there is one. */
  method FindMessage(rbuffer: string, idx: int) returns (found: bool, msgidx: nat)
    requires idx != 0 || Count(rbuffer, 0) > 0
    ensures found <==> 0 < idx && AfterMarker(rbuffer, 0, idx) != -1
    ensures found ==> msgidx == AfterMarker(rbuffer, 0, idx) <= |rbuffer|
  {
    hide Count, AfterMarker;
    msgidx := 0;
    var nmsg := 0;
    while true
      invariant msgidx <= |rbuffer| && 0 <= nmsg && nmsg + Count(rbuffer, msgidx) == Count(rbuffer, 0)
      invariant 0 < idx ==> nmsg < idx && AfterMarker(rbuffer, msgidx, idx - nmsg) == AfterMarker(rbuffer, 0, idx)
      decreases |rbuffer| - msgidx
    {
      CountHit(rbuffer, msgidx);
      if 0 < idx {
        AfterStep(rbuffer, msgidx, idx - nmsg);
      }
      var hit := Find(rbuffer, MARKER, msgidx);
      if hit == -1 {
        break;
      }
      nmsg := nmsg + 1;
      msgidx := hit + 7;
      if nmsg == idx {
        break;
      }
    }
    found := nmsg == idx;
  }

  /** `getSMS`: the message with the idx-th marker.  Returns `idx`, or 0 if there is no such marker
      or the message is cut off.  Asking for message 0 of an empty listing is left to the caller to
      avoid. */
  method GetSmsAt(rbuffer: string, idx: int, clock: string -> int) returns (res: int, msg: Sms)
    requires idx != 0 || Count(rbuffer, 0) > 0
    ensures if 0 < idx && GetSms(rbuffer, idx, clock).Some?
            then res == idx && msg == GetSms(rbuffer, idx, clock).value
            else res == 0
  {
    hide ParseHeader, Find, Count, AfterMarker;
    msg := EMPTY;
    var found, start := FindMessage(rbuffer, idx);
    if !found {
      return 0, msg;
    }
    ghost var text := rbuffer[start..];
    var pend := Find(rbuffer, CRLF, start);
    FindFrom(text, rbuffer, CRLF, start, start);
    if pend == -1 {
      return 0, msg;
    }
    var hdr := rbuffer[start..pend];
    assert hdr == text[..pend - start];
    var msgidx := pend + 2;
    pend := Find(rbuffer, CRLF, msgidx);
    FindFrom(text, rbuffer, CRLF, start, msgidx);
    if pend == -1 {
      return 0, msg;
    }
    msg := msg.(body := rbuffer[msgidx..pend]);
    assert msg.body == text[msgidx - start..pend - start];
    msg := ReadFields(hdr, msg);
    if |msg.time| >= 20 {
      msg := msg.(timeValue := clock(msg.time));
    }
    res := idx;
  }

  /** A search in the rest of a string, from a later position. */
  lemma FindFrom(text: string, s: string, pattern: string, p: nat, q: nat)
    requires p <= q <= |s| && text == s[p..]
    ensures Find(s, pattern, q) == if Find(text, pattern, q - p) == -1 then -1 else p + Find(text, pattern, q - p)
  {
    FindShift(s, pattern, q);
    FindShift(text, pattern, q - p);
    assert s[q..] == text[q - p..];
  }

  lemma FieldsStep(hdr: string, p: nat, end: int, i: nat, m: Sms)
    requires end == -1 || p <= end < |hdr|
    ensures ParseFields(hdr, p, end, i, m)
            == if end == -1 then m
               else ParseFields(hdr, end + 2, FieldEnd(hdr, end + 2), i + 1, Store(m, i, hdr[p..end]))
  {
  }

  /** The field loop of `getSMS`. */
  method ReadFields(hdr: string, msg0: Sms) returns (msg: Sms)
    requires msg0 == EMPTY.(body := msg0.body)
    ensures msg == ParseHeader(hdr).(body := msg0.body)
  {
    hide ParseFields, Find, StrToL;
    msg := msg0;
    var msgidx: nat := 0;
    var pend := Find(hdr, SEPARATOR, 0);
    var i := 1;
    while pend != -1
      invariant pend == -1 || msgidx <= pend < |hdr|
      invariant ParseFields(hdr, msgidx, pend, i, msg.(body := "")) == ParseHeader(hdr)
      invariant msg.body == msg0.body
      decreases |hdr| + 2 - msgidx
    {
      FieldsStep(hdr, msgidx, pend, i, msg.(body := ""));
      var len := pend - msgidx;
      if 0 < len < 32 {
        var buf := hdr[msgidx..pend];
        if buf[len - 1] == '"' {
          buf := buf[..len - 1];
        }
        if i == 1 {
          msg := msg.(idx := StrToL(buf));
        } else if i == 2 {
          msg := msg.(stat := buf);
        } else if i == 3 {
          msg := msg.(sender := buf);
        } else if i == 5 {
          msg := msg.(time := buf);
        }
      }
      i := i + 1;
      msgidx := pend + 2;
      pend := Find(hdr, SEPARATOR, msgidx);
      if pend == -1 {
        pend := Find(hdr, QUOTE, msgidx);
      }
    }
    FieldsStep(hdr, msgidx, pend, i, msg.(body := ""));
  }
}
