/** The SMS listing as section 3.4.2 of 3GPP TS 27.005 has the modem print it, and what the parser
    recovers of it. */
module SmsRoundTrip {

  import opened CStrings
  import opened Options
  import opened SmsListing

  /** A message as the modem holds it. */
  datatype Entry = Entry(idx: nat, stat: string, sender: string, alpha: string, time: string, body: string)

  // ---- Printing ------------------------------------------------------------------------------

  function Decimal(n: nat): (s: string)
    ensures s != ""
  {
    if n < 10 then [(n + '0' as int) as char] else Decimal(n / 10) + [(n % 10 + '0' as int) as char]
  }

  /** Quoted fields after the opening quote of the first one. */
  function Fields(values: seq<string>): string {
    if values == [] then ""
    else if |values| == 1 then values[0] + QUOTE
    else values[0] + QUOTE + SEPARATOR + Fields(values[1..])
  }

  function Values(e: Entry): seq<string> {
    [e.stat, e.sender, e.alpha, e.time]
  }

  /** index,"status","sender","alpha","time" */
  function Header(e: Entry): string {
    Decimal(e.idx) + SEPARATOR + Fields(Values(e))
  }

  /** What follows the marker of a message. */
  function Printed(e: Entry): string {
    Header(e) + CRLF + e.body + CRLF
  }

  /** A listing: some text, then each message with its marker before it, then some more text. */
  function Listing(before: string, entries: seq<Entry>, after: string): string
    decreases |entries|
  {
    if entries == [] then before + after
    else before + MARKER + Listing(Printed(entries[0]), entries[1..], after)
  }

  /** What the modem prints, character by character. */
  lemma PrintedInFull(before: string, e: Entry, rest: seq<Entry>, after: string)
    ensures Printed(e)
            == Decimal(e.idx) + ",\"" + e.stat + "\",\"" + e.sender + "\",\"" + e.alpha + "\",\"" + e.time + "\"\r\n" + e.body + "\r\n"
    ensures Listing(before, [e] + rest, after) == before + "+CMGL: " + Listing(Printed(e), rest, after)
    ensures Listing(before, [], after) == before + after
    ensures Decimal(2047) == "2047"
  {
    assert ([e] + rest)[1..] == rest;
    assert Decimal(20) == "20" && Decimal(204) == "204";
    FieldsWritten(e);
    var q := "\",\"";
    assert QUOTE + SEPARATOR == q && QUOTE + CRLF == "\"\r\n" && SEPARATOR == ",\"" && CRLF == "\r\n";
    JoinFields(Decimal(e.idx), e.stat, e.sender, e.alpha, e.time, e.body);
  }

  lemma JoinFields(d: string, a: string, b: string, c: string, t: string, body: string)
    ensures d + SEPARATOR + (a + QUOTE + SEPARATOR + b + QUOTE + SEPARATOR + c + QUOTE + SEPARATOR + t + QUOTE) + CRLF + body + CRLF
            == d + ",\"" + a + "\",\"" + b + "\",\"" + c + "\",\"" + t + "\"\r\n" + body + "\r\n"
  {
    assert a + QUOTE + SEPARATOR + b + QUOTE + SEPARATOR + c + QUOTE + SEPARATOR + t + QUOTE
        == a + (QUOTE + SEPARATOR) + b + (QUOTE + SEPARATOR) + c + (QUOTE + SEPARATOR) + t + QUOTE;
    assert QUOTE + SEPARATOR == "\",\"" && QUOTE + CRLF == "\"\r\n";
  }

  /** A text field holds no quote, no line end and no marker. */
  ghost predicate PlainField(v: string) {
    '"' !in v && Free(v, CRLF) && Free(v, MARKER)
  }

  /** What the printed form needs to be readable at all; the index fits an int. */
  ghost predicate PlainEntry(e: Entry) {
    && e.idx <= 0x7FFF_FFFF
    && (forall i :: 0 <= i < 4 ==> PlainField(Values(e)[i]))
    && Free(e.body, CRLF) && Free(e.body, MARKER)
  }

  // ---- Numbers -------------------------------------------------------------------------------

  predicate AllDigits(s: string) {
    forall i :: 0 <= i < |s| ==> '0' <= s[i] <= '9'
  }

  lemma {:induction false} DecimalDigits(n: nat)
    ensures AllDigits(Decimal(n))
    ensures Decimal(n)[0] == '0' <==> n == 0
    ensures n == 0 ==> Decimal(n) == "0"
  {
    if n >= 10 {
      DecimalDigits(n / 10);
    }
  }

  lemma {:induction false} DigitsSnoc(s: string, d: char, acc: nat)
    requires AllDigits(s) && '0' <= d <= '9'
    ensures Digits(s + [d], 10, acc) == Digits(s, 10, acc) * 10 + Digit(d)
    decreases |s|
  {
    if s == "" {
      assert (s + [d])[1..] == "";
    } else {
      assert (s + [d])[1..] == s[1..] + [d];
      DigitsSnoc(s[1..], d, acc * 10 + Digit(s[0]));
    }
  }

  lemma {:induction false} DecimalReads(n: nat)
    ensures Digits(Decimal(n), 10, 0) == n
  {
    DecimalDigits(n / 10);
    if n >= 10 {
      DecimalReads(n / 10);
      DigitsSnoc(Decimal(n / 10), (n % 10 + '0' as int) as char, 0);
    }
  }

  /** The printed index is read back, although `strtol` is left to guess the base. */
  lemma IndexReads(n: nat)
    requires n <= 0x7FFF_FFFF
    ensures StrToL(Decimal(n)) == n
  {
    DecimalDigits(n);
    DecimalMagnitude(n);
    assert '0' <= Decimal(n)[0] <= '9';
  }

  /** `strtol` skips white space, takes a sign, guesses the base and keeps to the range of a long. */
  lemma NumbersRead(n: nat, s: string)
    ensures StrToL(Decimal(n)) == if n > 0x7FFF_FFFF then 0x7FFF_FFFF else n
    ensures StrToL("+" + Decimal(n)) == if n > 0x7FFF_FFFF then 0x7FFF_FFFF else n
    ensures StrToL("-" + Decimal(n)) == if n > 0x8000_0000 then -0x8000_0000 else 0 - n
    ensures StrToL(" " + s) == StrToL("\t" + s) == StrToL(s)
    ensures StrToL("0x1Fz") == 31 && StrToL("017,") == 15
  {
    DecimalMagnitude(n);
    DecimalDigits(n);
    assert '0' <= Decimal(n)[0] <= '9';
    assert ("+" + Decimal(n))[1..] == Decimal(n) && ("-" + Decimal(n))[1..] == Decimal(n);
    assert (" " + s)[1..] == s && ("\t" + s)[1..] == s;
    var hex, octal := "0x1Fz", "017,";
    assert hex[2..] == "1Fz" && hex[2..][1..] == "Fz" && hex[2..][1..][1..] == "z";
    assert Digits("Fz", 16, 1) == Digits("z", 16, 31) == 31;
    assert octal[1..] == "17," && octal[1..][1..] == "7," && octal[1..][1..][1..] == ",";
    assert Digits("7,", 8, 1) == Digits(",", 8, 15) == 15;
  }

  lemma DecimalMagnitude(n: nat)
    ensures Magnitude(Decimal(n)) == n
  {
    DecimalDigits(n);
    DecimalReads(n);
    var s := Decimal(n);
    assert '0' <= s[0] <= '9';
    if n == 0 {
      assert s == "0" && s[1..] == "";
      assert Digits(s, 8, 0) == Digits(s[1..], 8, 0);
    }
  }

  lemma {:induction false} DecimalShort(n: nat, bound: nat, k: nat)
    requires n < bound && bound == Power10(k) && 0 < k
    ensures |Decimal(n)| <= k
    decreases k
  {
    if n >= 10 {
      DecimalShort(n / 10, Power10(k - 1), k - 1);
    }
  }

  function Power10(k: nat): nat {
    if k == 0 then 1 else 10 * Power10(k - 1)
  }

  lemma IndexShort(n: nat)
    requires n <= 0x7FFF_FFFF
    ensures 0 < |Decimal(n)| <= 10
  {
    assert Power10(5) == 100000;
    assert Power10(10) == 100000 * Power10(5);
    DecimalShort(n, Power10(10), 10);
  }

  // ---- Fields --------------------------------------------------------------------------------

  predicate EndsInComma(v: string) {
    v != "" && v[|v| - 1] == ','
  }

  /** What the field loop makes of quoted values, the first of them being the i-th field: a comma at
      the end of a value is taken, with the closing quote, for a separator; what is then left of the
      real separator counts as an empty field. */
  function Walk(values: seq<string>, i: nat, m: Sms): Sms {
    if values == [] then m
    else
      var v := values[0];
      if EndsInComma(v) then Walk(values[1..], i + 2, Store(m, i, v[..|v| - 1]))
      else Walk(values[1..], i + 1, Store(m, i, if |values| == 1 then v else v + QUOTE))
  }

  /** Where a quoted value appears to end. */
  lemma FirstSeparator(v: string, tail: string)
    requires '"' !in v && (tail == "" || SEPARATOR <= tail)
    ensures var t := v + QUOTE + tail;
      && Find(t, QUOTE, 0) == |v|
      && Find(t, SEPARATOR, 0) == if EndsInComma(v) then |v| - 1 else if tail == "" then -1 else |v| + 1
  {
    var t := v + QUOTE + tail;
    assert forall i :: 0 <= i < |v| ==> t[i] == v[i] && t[i] != '"';
    assert t[|v|] == '"';
    assert OccursAt(t, |v|, QUOTE);
    forall i: nat | i < |v| ensures !OccursAt(t, i, QUOTE) {
      if OccursAt(t, i, QUOTE) {
        OccursHas(t, i, QUOTE, 0);
      }
    }
    FindIs(t, QUOTE, 0, |v|);
    forall i: nat | i <= |v| && !(EndsInComma(v) && i == |v| - 1) ensures !OccursAt(t, i, SEPARATOR) {
      if OccursAt(t, i, SEPARATOR) {
        OccursHas(t, i, SEPARATOR, 0);
        OccursHas(t, i, SEPARATOR, 1);
      }
    }
    if EndsInComma(v) {
      assert t[|v| - 1..|v| + 1] == SEPARATOR;
      FindIs(t, SEPARATOR, 0, |v| - 1);
    } else if tail != "" {
      assert t[|v| + 1..|v| + 3] == tail[..2] == SEPARATOR;
      assert OccursAt(t, |v| + 1, SEPARATOR);
      FindIs(t, SEPARATOR, 0, |v| + 1);
    } else {
      assert |t| == |v| + 1;
    }
  }

  /** The end of the field at a position, in terms of the rest of the header. */
  lemma FieldEndAt(hdr: string, p: nat, t: string)
    requires p <= |hdr| && hdr[p..] == t
    ensures FieldEnd(hdr, p) == if FieldEnd(t, 0) == -1 then -1 else p + FieldEnd(t, 0)
  {
    FindShift(hdr, SEPARATOR, p);
    FindShift(hdr, QUOTE, p);
  }

  lemma NoField(hdr: string, p: nat, i: nat, m: Sms)
    requires |hdr| <= p
    ensures FieldEnd(hdr, p) == -1 && ParseFields(hdr, p, -1, i, m) == m
  {
  }

  lemma SeparatorAhead(t: string)
    requires SEPARATOR <= t
    ensures FieldEnd(t, 0) == 0
  {
    assert OccursAt(t, 0, SEPARATOR);
  }

  lemma WalkMore(v: string, rest: seq<string>, i: nat, m: Sms)
    ensures Walk([v] + rest, i, m)
            == if EndsInComma(v) then Walk(rest, i + 2, Store(m, i, v[..|v| - 1]))
               else Walk(rest, i + 1, Store(m, i, if rest == [] then v else v + QUOTE))
    ensures Walk([], i, m) == m
  {
    assert ([v] + rest)[1..] == rest;
  }

  lemma FieldsMore(v: string, rest: seq<string>)
    ensures Fields([v] + rest) == v + QUOTE + if rest == [] then "" else SEPARATOR + Fields(rest)
  {
    assert ([v] + rest)[1..] == rest;
  }

  /** Parts of the rest of a string are parts of the string. */
  lemma Inside(hdr: string, p: nat, t: string, i: nat, j: nat)
    requires p <= |hdr| && hdr[p..] == t && i <= j <= |t|
    ensures hdr[p + i..p + j] == t[i..j] && hdr[p + j..] == t[j..]
  {
    assert hdr == hdr[..p] + t;
  }

  /** A value that ends in a comma, with more to come: one field for it, and an empty one. */
  lemma CommaField(hdr: string, p: nat, v: string, more: string, i: nat, m: Sms)
    requires p <= |hdr| && hdr[p..] == v + QUOTE + (SEPARATOR + more) && '"' !in v && EndsInComma(v)
    ensures var next := p + |v| + 3;
      && next <= |hdr| && hdr[next..] == more
      && ParseFields(hdr, p, FieldEnd(hdr, p), i, m)
         == ParseFields(hdr, next, FieldEnd(hdr, next), i + 2, Store(m, i, v[..|v| - 1]))
  {
    hide ParseFields, Store, Find;
    var tail := SEPARATOR + more;
    var t := v + QUOTE + tail;
    FirstSeparator(v, tail);
    FieldEndAt(hdr, p, t);
    Inside(hdr, p, t, 0, |v| - 1);
    assert t[0..|v| - 1] == v[..|v| - 1];
    FieldsStep(hdr, p, p + |v| - 1, i, m);
    Inside(hdr, p, t, |v| + 1, |v| + 1);
    assert hdr[p + |v| + 1..p + |v| + 1] == "";
    SeparatorAhead(tail);
    FieldEndAt(hdr, p + |v| + 1, tail);
    FieldsStep(hdr, p + |v| + 1, p + |v| + 1, i + 1, Store(m, i, v[..|v| - 1]));
    NothingStored(Store(m, i, v[..|v| - 1]), i + 1);
    Inside(hdr, p, t, |v| + 3, |v| + 3);
  }

  /** A value that does not end in a comma. */
  lemma PlainValue(hdr: string, p: nat, v: string, more: string, i: nat, m: Sms)
    requires p <= |hdr| && hdr[p..] == v + QUOTE + (SEPARATOR + more) && '"' !in v && !EndsInComma(v)
    ensures var next := p + |v| + 3;
      && next <= |hdr| && hdr[next..] == more
      && ParseFields(hdr, p, FieldEnd(hdr, p), i, m)
         == ParseFields(hdr, next, FieldEnd(hdr, next), i + 1, Store(m, i, v + QUOTE))
  {
    hide ParseFields, Store, Find;
    var tail := SEPARATOR + more;
    var t := v + QUOTE + tail;
    FirstSeparator(v, tail);
    FieldEndAt(hdr, p, t);
    Inside(hdr, p, t, 0, |v| + 1);
    FieldsStep(hdr, p, p + |v| + 1, i, m);
    Inside(hdr, p, t, |v| + 3, |v| + 3);
  }

  /** The last value. */
  lemma LastValue(hdr: string, p: nat, v: string, i: nat, m: Sms)
    requires p <= |hdr| && hdr[p..] == v + QUOTE && '"' !in v
    ensures ParseFields(hdr, p, FieldEnd(hdr, p), i, m)
            == Store(m, i, if EndsInComma(v) then v[..|v| - 1] else v)
  {
    hide ParseFields, Store, Find;
    var t := v + QUOTE;
    assert t + "" == t;
    FirstSeparator(v, "");
    FieldEndAt(hdr, p, t);
    var len := if EndsInComma(v) then |v| - 1 else |v|;
    Inside(hdr, p, t, 0, len);
    assert t[0..len] == if EndsInComma(v) then v[..|v| - 1] else v;
    FieldsStep(hdr, p, p + len, i, m);
    NoField(hdr, p + len + 2, i + 1, Store(m, i, t[0..len]));
  }

  /** The field loop walks quoted values. */
  lemma {:induction false} WalksFields(hdr: string, p: nat, values: seq<string>, i: nat, m: Sms)
    requires p <= |hdr| && hdr[p..] == Fields(values) && values != []
    requires forall j :: 0 <= j < |values| ==> '"' !in values[j]
    ensures ParseFields(hdr, p, FieldEnd(hdr, p), i, m) == Walk(values, i, m)
    decreases |values|
  {
    hide ParseFields, Store, FieldEnd, Walk, Fields;
    var v, rest := values[0], values[1..];
    assert values == [v] + rest;
    FieldsMore(v, rest);
    WalkMore(v, rest, i, m);
    if rest == [] {
      assert v + QUOTE + "" == v + QUOTE;
      LastValue(hdr, p, v, i, m);
      WalkMore(v, [], i + 1, Store(m, i, if EndsInComma(v) then v[..|v| - 1] else v));
      WalkMore(v, [], i + 2, Store(m, i, if EndsInComma(v) then v[..|v| - 1] else v));
    } else if EndsInComma(v) {
      CommaField(hdr, p, v, Fields(rest), i, m);
      WalksFields(hdr, p + |v| + 3, rest, i + 2, Store(m, i, v[..|v| - 1]));
    } else {
      PlainValue(hdr, p, v, Fields(rest), i, m);
      WalksFields(hdr, p + |v| + 3, rest, i + 1, Store(m, i, v + QUOTE));
    }
  }

  lemma NothingStored(m: Sms, i: nat)
    ensures Store(m, i, "") == m
  {
  }

  lemma DigitsFree(d: string)
    requires AllDigits(d)
    ensures Free(d, SEPARATOR) && Free(d, CRLF) && Free(d, MARKER)
  {
    FreeOf(d, SEPARATOR);
    FreeOf(d, CRLF);
    FreeOf(d, MARKER);
  }

  lemma SeparatorsBorderless()
    ensures Borderless(SEPARATOR) && Borderless(CRLF)
  {
    forall d | 0 < d < 2 ensures SEPARATOR[d..] != SEPARATOR[..2 - d] && CRLF[d..] != CRLF[..2 - d] {
      assert SEPARATOR[d..][0] == '"' && SEPARATOR[..2 - d][0] == ',';
      assert CRLF[d..][0] == '\n' && CRLF[..2 - d][0] == '\r';
    }
  }

  lemma IndexStored(idx: nat)
    requires idx <= 0x7FFF_FFFF
    ensures Store(EMPTY, 1, Decimal(idx)) == EMPTY.(idx := idx)
  {
    IndexShort(idx);
    IndexReads(idx);
    DecimalDigits(idx);
    var d := Decimal(idx);
    assert '0' <= d[|d| - 1] <= '9';
  }

  /** A header is parsed by walking its values. */
  lemma HeaderParses(e: Entry)
    requires e.idx <= 0x7FFF_FFFF && forall i :: 0 <= i < 4 ==> '"' !in Values(e)[i]
    ensures ParseHeader(Header(e)) == Walk(Values(e), 2, EMPTY.(idx := e.idx))
  {
    hide ParseFields, Store, Find, Walk, Fields;
    var d, hdr := Decimal(e.idx), Header(e);
    DecimalDigits(e.idx);
    DigitsFree(d);
    SeparatorsBorderless();
    FindsFirst(d, SEPARATOR, Fields(Values(e)));
    FieldsStep(hdr, 0, |d|, 1, EMPTY);
    assert hdr[0..|d|] == d;
    IndexStored(e.idx);
    assert hdr[|d| + 2..] == Fields(Values(e));
    WalksFields(hdr, |d| + 2, Values(e), 2, EMPTY.(idx := e.idx));
  }

  // ---- One message -----------------------------------------------------------------------------

  /** The message that the parser is meant to recover. */
  function Expected(e: Entry, clock: string -> int): Sms {
    Sms(e.idx, e.stat, e.sender, e.time, if |e.time| >= 20 then clock(e.time) else 0, e.body)
  }

  /** The condition on the text fields under which they survive: they fit their buffers, with room
      for the closing quote that is copied along, and none ends in a comma.  A comma at the end of
      the alphanumeric name costs the time. */
  predicate Survives(e: Entry) {
    && |e.stat| <= 30 && !EndsInComma(e.stat)
    && |e.sender| <= 30 && !EndsInComma(e.sender)
    && (if EndsInComma(e.alpha) then e.time == "" else |e.time| <= 31 && !EndsInComma(e.time))
  }

  /** The message with a text field set. */
  function Put(m: Sms, i: nat, text: string): Sms {
    if i == 2 then m.(stat := text) else if i == 3 then m.(sender := text) else if i == 5 then m.(time := text) else m
  }

  lemma StoreIsPut(m: Sms, i: nat, v: string)
    requires '"' !in v && 1 < i
    ensures Store(m, i, v + QUOTE) == if |v| <= 30 then Put(m, i, v) else m
    ensures Store(m, i, v) == if 0 < |v| <= 31 then Put(m, i, v) else m
    ensures v != "" ==> Store(m, i, v[..|v| - 1]) == if 1 < |v| <= 32 then Put(m, i, v[..|v| - 1]) else m
  {
    QuoteDropped(v);
  }

  /** The time field is the fifth, unless the name before it ends in a comma. */
  lemma WalkTime(c: string, d: string, m: Sms)
    requires '"' !in c && '"' !in d && m.time == ""
    ensures var w := Walk([c, d], 4, m);
      && w == m.(time := w.time)
      && (w.time == d <==> if EndsInComma(c) then d == "" else |d| <= 31 && !EndsInComma(d))
  {
    hide Walk, Store;
    assert [c, d] == [c] + [d] && [d] == [d] + [];
    WalkMore(c, [d], 4, m);
    StoreIsPut(m, 4, c);
    var i := if EndsInComma(c) then 6 else 5;
    WalkMore(d, [], i, m);
    StoreIsPut(m, i, d);
    WalkMore(d, [], i + 1, Store(m, i, d));
    if EndsInComma(d) {
      WalkMore(d, [], i + 2, Store(m, i, d[..|d| - 1]));
    }
  }

  lemma WalkAll(e: Entry, m: Sms)
    requires forall i :: 0 <= i < 4 ==> '"' !in Values(e)[i]
    requires m == EMPTY.(idx := m.idx)
    ensures var w := Walk(Values(e), 2, m);
      && w.idx == m.idx && w.body == "" && w.timeValue == 0
      && (w.stat == e.stat && w.sender == e.sender && w.time == e.time <==> Survives(e))
  {
    hide Walk, Store;
    var a, b, c, d := e.stat, e.sender, e.alpha, e.time;
    assert Values(e)[0] == a && Values(e)[1] == b && Values(e)[2] == c && Values(e)[3] == d;
    assert Values(e) == [a] + [b, c, d] && [b, c, d] == [b] + [c, d];
    WalkMore(a, [b, c, d], 2, m);
    StoreIsPut(m, 2, a);
    var m1 := Store(m, 2, if EndsInComma(a) then a[..|a| - 1] else a + QUOTE);
    LaterFields([b, c, d], if EndsInComma(a) then 4 else 3, m1);
    if !EndsInComma(a) {
      WalkMore(b, [c, d], 3, m1);
      StoreIsPut(m1, 3, b);
      var m2 := Store(m1, 3, if EndsInComma(b) then b[..|b| - 1] else b + QUOTE);
      LaterFields([c, d], if EndsInComma(b) then 5 else 4, m2);
      if !EndsInComma(b) {
        WalkTime(c, d, m2);
      }
    }
  }

  /** Fields that are read later leave alone what was stored earlier. */
  lemma {:induction false} LaterFields(values: seq<string>, i: nat, m: Sms)
    requires 2 < i
    ensures var w := Walk(values, i, m);
      && w.idx == m.idx && w.body == m.body && w.timeValue == m.timeValue && w.stat == m.stat
      && (3 < i ==> w.sender == m.sender) && (5 < i ==> w.time == m.time)
    decreases |values|
  {
    if values != [] {
      var v, rest := values[0], values[1..];
      if EndsInComma(v) {
        LaterFields(rest, i + 2, Store(m, i, v[..|v| - 1]));
      } else {
        LaterFields(rest, i + 1, Store(m, i, if |values| == 1 then v else v + QUOTE));
      }
    }
  }

  /** How a value without quotes is stored, with and without the closing quote. */
  lemma QuoteDropped(v: string)
    requires '"' !in v
    ensures WithoutQuote(v + QUOTE) == v && WithoutQuote(v) == v
    ensures v != "" ==> WithoutQuote(v[..|v| - 1]) == v[..|v| - 1]
  {
    assert (v + QUOTE)[..|v|] == v;
  }

  /** The parts of a printed message are free of line ends and markers. */
  lemma PrintedFree(e: Entry)
    requires PlainEntry(e)
    ensures Free(Header(e), CRLF) && Free(Printed(e), MARKER)
  {
    hide Free;
    DecimalDigits(e.idx);
    DigitsFree(Decimal(e.idx));
    assert forall i :: 0 <= i < 4 ==> PlainField(Values(e)[i]);
    assert PlainField(Values(e)[0]) && PlainField(Values(e)[1]) && PlainField(Values(e)[2]) && PlainField(Values(e)[3]);
    EmptyFree();
    HeaderFree(e, CRLF);
    HeaderFree(e, MARKER);
    FreeJoin(Header(e), '\r', "", MARKER);
    FreeJoin(Header(e) + ['\r'] + "", '\n', e.body, MARKER);
    FreeJoin(Header(e) + ['\r'] + "" + ['\n'] + e.body, '\r', "", MARKER);
    FreeJoin(Header(e) + ['\r'] + "" + ['\n'] + e.body + ['\r'] + "", '\n', "", MARKER);
    assert Printed(e) == Header(e) + ['\r'] + "" + ['\n'] + e.body + ['\r'] + "" + ['\n'] + "";
  }

  lemma EmptyFree()
    ensures Free("", MARKER) && Free("", CRLF)
  {
  }

  lemma HeaderFree(e: Entry, pattern: string)
    requires pattern != "" && ',' !in pattern && '"' !in pattern && Free("", pattern)
    requires Free(Decimal(e.idx), pattern)
    requires Free(e.stat, pattern) && Free(e.sender, pattern) && Free(e.alpha, pattern) && Free(e.time, pattern)
    ensures Free(Header(e), pattern)
  {
    hide Free;
    var d := Decimal(e.idx);
    var h0 := d + [','] + "";
    FreeJoin(d, ',', "", pattern);
    var h1 := h0 + ['"'] + e.stat;
    FreeJoin(h0, '"', e.stat, pattern);
    var h2 := NextFree(h1, e.sender, pattern);
    var h3 := NextFree(h2, e.alpha, pattern);
    var h4 := NextFree(h3, e.time, pattern);
    FreeJoin(h4, '"', "", pattern);
    FieldsWritten(e);
    assert Header(e) == h4 + ['"'] + "";
  }

  lemma FieldsWritten(e: Entry)
    ensures Fields(Values(e))
            == e.stat + QUOTE + SEPARATOR + e.sender + QUOTE + SEPARATOR + e.alpha + QUOTE + SEPARATOR + e.time + QUOTE
  {
    FieldsMore(e.stat, [e.sender, e.alpha, e.time]);
    FieldsMore(e.sender, [e.alpha, e.time]);
    FieldsMore(e.alpha, [e.time]);
    FieldsMore(e.time, []);
    hide Fields;
    assert Values(e) == [e.stat] + [e.sender, e.alpha, e.time] && [e.sender, e.alpha, e.time] == [e.sender] + [e.alpha, e.time]
        && [e.alpha, e.time] == [e.alpha] + [e.time] && [e.time] == [e.time] + [];
  }

  lemma NextFree(h: string, v: string, pattern: string) returns (h': string)
    requires pattern != "" && ',' !in pattern && '"' !in pattern && Free("", pattern) && Free(h, pattern) && Free(v, pattern)
    ensures h' == h + QUOTE + SEPARATOR + v && Free(h', pattern)
  {
    hide Free;
    FreeJoin(h, '"', "", pattern);
    FreeJoin(h + ['"'] + "", ',', "", pattern);
    FreeJoin(h + ['"'] + "" + [','] + "", '"', v, pattern);
    h' := h + ['"'] + "" + [','] + "" + ['"'] + v;
    assert h' == h + QUOTE + SEPARATOR + v;
  }

  /** What the parser makes of a printed message, whatever follows it. */
  function Parsed(e: Entry, clock: string -> int): Sms {
    Timed(ParseHeader(Header(e)), clock).(body := e.body)
  }

  lemma PrintedParses(e: Entry, more: string, clock: string -> int)
    requires PlainEntry(e)
    ensures Parse(Printed(e) + more, clock) == Some(Parsed(e, clock))
  {
    hide Find, ParseHeader, Header;
    PrintedFree(e);
    SeparatorsBorderless();
    var h, text := Header(e), Printed(e) + more;
    var after := e.body + CRLF + more;
    assert text == h + CRLF + after;
    FindsFirst(h, CRLF, after);
    assert text[|h| + 2..] == after;
    FindsFirst(e.body, CRLF, more);
    FindShift(text, CRLF, |h| + 2);
    assert text[..|h|] == h;
    assert text[|h| + 2..|h| + 2 + |e.body|] == e.body;
  }

  /** The header and the body are parsed for what they are if and only if the fields meet the condition. */
  lemma FieldsSurvive(e: Entry, clock: string -> int)
    requires PlainEntry(e)
    ensures Parsed(e, clock) == Expected(e, clock) <==> Survives(e)
  {
    hide ParseHeader, Walk, Survives;
    assert forall i :: 0 <= i < 4 ==> PlainField(Values(e)[i]);
    HeaderParses(e);
    WalkAll(e, EMPTY.(idx := e.idx));
  }

  /** A status that ends in a comma is cut short, and the fields after it move. */
  lemma CommaLost(clock: string -> int)
    ensures var e := Entry(1, "READ,", "5", "", "", "hello"); PlainEntry(e) && Parsed(e, clock) != Expected(e, clock)
  {
    hide Free, ParseHeader;
    var e := Entry(1, "READ,", "5", "", "", "hello");
    forall v | v in ["READ,", "5", "", "hello"] ensures Free(v, CRLF) && Free(v, MARKER) {
      FreeOf(v, CRLF);
      FreeOf(v, MARKER);
    }
    assert e.stat in ["READ,", "5", "", "hello"] && e.sender in ["READ,", "5", "", "hello"];
    assert e.alpha in ["READ,", "5", "", "hello"] && e.body in ["READ,", "5", "", "hello"];
    FieldsSurvive(e, clock);
    assert EndsInComma(e.stat);
  }

  // ---- Listings ------------------------------------------------------------------------------

  /** What follows the text before a listing. */
  function Later(entries: seq<Entry>, after: string): string {
    if entries == [] then after else MARKER + Listing(Printed(entries[0]), entries[1..], after)
  }

  lemma ListingStarts(before: string, entries: seq<Entry>, after: string)
    ensures Listing(before, entries, after) == before + Later(entries, after)
  {
  }

  lemma {:induction false} CountShift(s: string, p: nat, q: nat)
    requires p <= q <= |s|
    ensures Count(s, q) == Count(s[p..], q - p)
    decreases |s| - q
  {
    if q + |MARKER| <= |s| {
      OccursShifted(s, q - p, MARKER, p);
      CountShift(s, p, q + 1);
    }
  }

  lemma {:induction false} AfterShift(s: string, p: nat, q: nat, k: nat)
    requires p <= q <= |s| && 0 < k
    ensures AfterMarker(s, q, k) == if AfterMarker(s[p..], q - p, k) == -1 then -1 else p + AfterMarker(s[p..], q - p, k)
    decreases k
  {
    hide Find, AfterMarker, OccursAt;
    FindFrom(s[p..], s, MARKER, p, q);
    AfterStep(s, q, k);
    AfterStep(s[p..], q - p, k);
    var hit := Find(s, MARKER, q);
    if hit != -1 && k > 1 {
      HitInside(s, q);
      AfterShift(s, p, hit + |MARKER|, k - 1);
    }
  }

  lemma HitInside(s: string, q: nat)
    requires Find(s, MARKER, q) != -1
    ensures Find(s, MARKER, q) + |MARKER| <= |s|
  {
  }

  ghost predicate PlainEntries(entries: seq<Entry>) {
    forall i :: 0 <= i < |entries| ==> PlainEntry(entries[i])
  }

  /** A text in which no message has been printed yet can be followed by more such text. */
  lemma PrintedThen(e: Entry, after: string)
    requires PlainEntry(e) && Free(after, MARKER)
    ensures Free(Printed(e) + after, MARKER) && Free(Printed(e), MARKER)
  {
    PrintedFree(e);
    var p := Printed(e)[..|Printed(e)| - 1];
    forall i: nat ensures !OccursAt(p, i, MARKER) {
      if OccursAt(p, i, MARKER) {
        assert Printed(e)[i..i + |MARKER|] == p[i..i + |MARKER|];
        assert OccursAt(Printed(e), i, MARKER);
      }
    }
    FreeJoin(p, '\n', after, MARKER);
    assert Printed(e) + after == p + ['\n'] + after;
  }

  /** The first marker of a listing, if any. */
  lemma FirstMarker(before: string, entries: seq<Entry>, after: string)
    requires Free(before, MARKER) && (entries == [] ==> Free(before + after, MARKER))
    ensures var s := Listing(before, entries, after);
      if entries == [] then Find(s, MARKER, 0) == -1
      else
        && Find(s, MARKER, 0) == |before|
        && |before| + 7 <= |s|
        && s[|before| + 7..] == Listing(Printed(entries[0]), entries[1..], after)
  {
    if entries != [] {
      var rest := Listing(Printed(entries[0]), entries[1..], after);
      MarkerBorderless();
      FindsFirst(before, MARKER, rest);
      assert (before + MARKER + rest)[|before| + 7..] == rest;
    }
  }

  /** `numSMS` counts the messages of a listing. */
  lemma {:induction false} ListingCount(before: string, entries: seq<Entry>, after: string)
    requires PlainEntries(entries)
    requires Free(before, MARKER) && Free(after, MARKER) && (entries == [] ==> Free(before + after, MARKER))
    ensures Count(Listing(before, entries, after), 0) == |entries|
    decreases |entries|
  {
    hide Listing, Count, Find, Free, PlainEntry, Printed;
    var s := Listing(before, entries, after);
    FirstMarker(before, entries, after);
    CountHit(s, 0);
    if entries != [] {
      PrintedThen(entries[0], after);
      ListingCount(Printed(entries[0]), entries[1..], after);
      CountShift(s, |before| + 7, |before| + 7);
    }
  }

  /** Message k of a listing is found where it was printed. */
  lemma {:induction false} ListingAfter(before: string, entries: seq<Entry>, after: string, k: nat)
    requires PlainEntries(entries) && 1 <= k <= |entries|
    requires Free(before, MARKER) && Free(after, MARKER)
    ensures var s := Listing(before, entries, after);
      && AfterMarker(s, 0, k) != -1
      && Printed(entries[k - 1]) <= s[AfterMarker(s, 0, k)..]
    decreases |entries|
  {
    hide Listing, Find, Free, PlainEntry, Printed;
    var s := Listing(before, entries, after);
    FirstMarker(before, entries, after);
    var start := |before| + 7;
    if k == 1 {
      ListingStarts(Printed(entries[0]), entries[1..], after);
    } else {
      PrintedThen(entries[0], after);
      ListingAfter(Printed(entries[0]), entries[1..], after, k - 1);
      AfterShift(s, start, start, k - 1);
      var p := AfterMarker(s[start..], 0, k - 1);
      assert s[start..][p..] == s[start + p..];
    }
  }

  // ---- Listings in memory --------------------------------------------------------------------

  /** The marker scan of the first part of a string. */
  lemma {:induction false} AfterInPart(s: string, m: nat, p: nat, k: nat)
    requires m <= |s| && 0 < k
    ensures var r := AfterMarker(s, p, k);
      AfterMarker(s[..m], p, k) == if r != -1 && r <= m then r else -1
    decreases k
  {
    hide Find;
    FindInPart(s, m, MARKER, p);
    var hit := Find(s, MARKER, p);
    if hit != -1 && k > 1 {
      AfterInPart(s, m, hit + |MARKER|, k - 1);
      if m < hit + |MARKER| && AfterMarker(s, p, k) != -1 {
        assert hit + |MARKER| < AfterMarker(s, p, k);
      }
    }
  }

  /** The end of the two lines that a message needs, or -1. */
  function LinesEnd(text: string): int {
    var e := Find(text, CRLF, 0);
    if e == -1 then -1
    else
      var f := Find(text, CRLF, e + 2);
      if f == -1 then -1 else f + 2
  }

  lemma ParseInPart(text: string, m: nat, clock: string -> int)
    requires m <= |text|
    ensures Parse(text[..m], clock) == if LinesEnd(text) != -1 && LinesEnd(text) <= m then Parse(text, clock) else None
  {
    hide Find, ParseHeader;
    FindInPart(text, m, CRLF, 0);
    var e := Find(text, CRLF, 0);
    if e != -1 {
      FindInPart(text, m, CRLF, e + 2);
      var f := Find(text, CRLF, e + 2);
      if f != -1 && f + 2 <= m {
        assert text[..m][..e] == text[..e] && text[..m][e + 2..f] == text[e + 2..f];
      }
    }
  }

  /** Of a string that is cut off, exactly the messages are found whose two lines it still has. */
  lemma GetInPart(s: string, m: nat, k: nat, clock: string -> int)
    requires m <= |s| && 0 < k
    ensures var p := AfterMarker(s, 0, k);
      GetSms(s[..m], k, clock)
      == if p != -1 && LinesEnd(s[p..]) != -1 && p + LinesEnd(s[p..]) <= m then GetSms(s, k, clock) else None
  {
    hide Parse, AfterMarker, LinesEnd;
    AfterInPart(s, m, 0, k);
    var p := AfterMarker(s, 0, k);
    if p != -1 {
      LinesEndLate(s[p..]);
      if p <= m {
        assert s[..m][p..] == s[p..][..m - p];
        ParseInPart(s[p..], m - p, clock);
      }
    }
  }

  lemma LinesEndLate(text: string)
    ensures LinesEnd(text) == -1 || 0 < LinesEnd(text)
  {
  }

  lemma PrintedLines(e: Entry, more: string)
    requires PlainEntry(e)
    ensures LinesEnd(Printed(e) + more) == |Printed(e)|
  {
    hide Find, Header;
    PrintedFree(e);
    SeparatorsBorderless();
    var h, text := Header(e), Printed(e) + more;
    var after := e.body + CRLF + more;
    assert text == h + CRLF + after;
    FindsFirst(h, CRLF, after);
    assert text[|h| + 2..] == after;
    FindsFirst(e.body, CRLF, more);
    FindShift(text, CRLF, |h| + 2);
  }

  /** No part of the message is a NUL. */
  predicate NulFree(e: Entry) {
    '\0' !in e.stat && '\0' !in e.sender && '\0' !in e.alpha && '\0' !in e.time && '\0' !in e.body
  }

  lemma NulPrinted(e: Entry)
    ensures '\0' !in Printed(e) <==> NulFree(e)
  {
    DecimalDigits(e.idx);
    FieldsWritten(e);
    hide Fields, Decimal;
    assert '\0' !in Decimal(e.idx);
    var h := e.stat + QUOTE + SEPARATOR + e.sender + QUOTE + SEPARATOR + e.alpha + QUOTE + SEPARATOR + e.time + QUOTE;
    assert '\0' !in h <==> '\0' !in e.stat && '\0' !in e.sender && '\0' !in e.alpha && '\0' !in e.time;
    assert Printed(e) == Decimal(e.idx) + SEPARATOR + h + CRLF + e.body + CRLF;
  }

  /** Neither the text before the listing nor one of its first `n` messages contains a NUL. */
  predicate WholeUpTo(before: string, entries: seq<Entry>, n: nat)
    requires n <= |entries|
  {
    '\0' !in before && forall i :: 0 <= i < n ==> NulFree(entries[i])
  }

  lemma WholeStep(before: string, entries: seq<Entry>, n: nat)
    requires 0 < n <= |entries|
    ensures WholeUpTo(before, entries, n) <==> '\0' !in before && WholeUpTo(Printed(entries[0]), entries[1..], n - 1)
    ensures WholeUpTo(before, entries, n) <==> WholeUpTo(before, entries, n - 1) && NulFree(entries[n - 1])
  {
    hide NulFree, Printed;
    NulPrinted(entries[0]);
    assert forall i :: 1 <= i < n ==> entries[i] == entries[1..][i - 1];
  }

  lemma NulJoined(before: string, rest: string, p: nat)
    requires p <= |rest|
    ensures var start := |before| + 7;
      '\0' !in (before + MARKER + rest)[..start + p] <==> '\0' !in before && '\0' !in rest[..p]
  {
    assert (before + MARKER + rest)[..|before| + 7 + p] == before + MARKER + rest[..p];
  }

  lemma NulThen(s: string, p: nat, x: string)
    requires p <= |s| && x <= s[p..]
    ensures p + |x| <= |s| && ('\0' !in s[..p + |x|] <==> '\0' !in s[..p] && '\0' !in x)
  {
    assert s[..p + |x|] == s[..p] + x;
  }

  /** Where the markers of a listing are, in terms of the listing after the first one. */
  lemma MarkersFrom(before: string, entries: seq<Entry>, after: string, k: nat)
    requires entries != [] && 0 < k && Free(before, MARKER)
    ensures var s, rest := Listing(before, entries, after), Listing(Printed(entries[0]), entries[1..], after);
      && s == before + MARKER + rest
      && AfterMarker(s, 0, k)
         == if k == 1 then |before| + 7
            else if AfterMarker(rest, 0, k - 1) == -1 then -1
            else |before| + 7 + AfterMarker(rest, 0, k - 1)
  {
    hide Find, Free, PlainEntry, Printed, AfterMarker, Listing;
    var s := Listing(before, entries, after);
    var start := |before| + 7;
    ListingStarts(before, entries, after);
    FirstMarker(before, entries, after);
    AfterStep(s, 0, k);
    if k != 1 {
      AfterShift(s, start, start, k - 1);
    }
  }

  /** What stands before message k of a listing is free of NULs if and only if the messages before it
      are. */
  lemma {:induction false} WholeBefore(before: string, entries: seq<Entry>, after: string, k: nat)
    requires PlainEntries(entries) && 1 <= k <= |entries|
    requires Free(before, MARKER) && Free(after, MARKER)
    ensures var s := Listing(before, entries, after);
      var p := AfterMarker(s, 0, k);
      0 <= p <= |s| && ('\0' !in s[..p] <==> WholeUpTo(before, entries, k - 1))
    decreases |entries|
  {
    hide Listing, Find, Free, PlainEntry, Printed, WholeUpTo, AfterMarker, NulFree, OccursAt, Count;
    MarkersFrom(before, entries, after, k);
    var rest := Listing(Printed(entries[0]), entries[1..], after);
    if k == 1 {
      NulJoined(before, rest, 0);
      WholeNone(before, entries);
    } else {
      PrintedThen(entries[0], after);
      WholeBefore(Printed(entries[0]), entries[1..], after, k - 1);
      NulJoined(before, rest, AfterMarker(rest, 0, k - 1));
      WholeStep(before, entries, k - 1);
    }
  }

  /** ... and what stands before its end, if and only if it itself is, too. */
  lemma WholeWith(before: string, entries: seq<Entry>, after: string, k: nat)
    requires PlainEntries(entries) && 1 <= k <= |entries|
    requires Free(before, MARKER) && Free(after, MARKER)
    ensures var s := Listing(before, entries, after);
      var end := AfterMarker(s, 0, k) + |Printed(entries[k - 1])|;
      0 <= end <= |s| && ('\0' !in s[..end] <==> WholeUpTo(before, entries, k))
  {
    hide Listing, Find, Free, PlainEntry, Printed, WholeUpTo, AfterMarker, NulFree;
    var s := Listing(before, entries, after);
    ListingAfter(before, entries, after, k);
    WholeBefore(before, entries, after, k);
    NulThen(s, AfterMarker(s, 0, k), Printed(entries[k - 1]));
    NulPrinted(entries[k - 1]);
    WholeStep(before, entries, k);
  }

  lemma WholeNone(before: string, entries: seq<Entry>)
    ensures WholeUpTo(before, entries, 0) <==> '\0' !in before
  {
  }

  /** The number of messages of a listing in memory. */
  lemma ListingCounted(before: string, entries: seq<Entry>, after: string)
    requires PlainEntries(entries) && Free(before, MARKER) && Free(after, MARKER) && Free(before + after, MARKER)
    ensures var s := TextOf(Listing(before, entries, after));
      && (Count(s, 0) == |entries| <==> entries == [] || WholeUpTo(before, entries, |entries| - 1))
      && Count(s, 0) <= |entries|
  {
    hide Listing, Free, PlainEntries, Count, AfterMarker, WholeUpTo, OccursAt, Find;
    var all, n := Listing(before, entries, after), |entries|;
    var s := TextOf(all);
    assert s == all[..|s|];
    ListingCount(before, entries, after);
    ScanComplete(all, 0, n + 1);
    AfterInPart(all, |s|, 0, n + 1);
    ScanComplete(s, 0, n + 1);
    if entries != [] {
      ScanComplete(s, 0, n);
      AfterInPart(all, |s|, 0, n);
      WholeBefore(before, entries, after, n);
      TextReaches(all, AfterMarker(all, 0, n));
    }
  }

  /** SMS listing round trip: of every listing of plain messages in memory, `getSMS` recovers message k in
      full if and only if its text fields fit and do not end in commas, and neither it nor anything
      before it contains a NUL; `numSMS` returns the number of messages if and only if there is no NUL
      before the last of them. */
  lemma ListingRoundTrip(before: string, entries: seq<Entry>, after: string, clock: string -> int)
    requires PlainEntries(entries) && Free(before, MARKER) && Free(after, MARKER) && Free(before + after, MARKER)
    ensures var s := TextOf(Listing(before, entries, after));
      && (Count(s, 0) == |entries| <==> entries == [] || WholeUpTo(before, entries, |entries| - 1))
      && (forall k: nat :: 1 <= k <= |entries| ==>
            && (GetSms(s, k, clock).Some? <==> WholeUpTo(before, entries, k))
            && (GetSms(s, k, clock) == Some(Expected(entries[k - 1], clock))
                <==> WholeUpTo(before, entries, k) && Survives(entries[k - 1])))
      && (forall k: nat :: |entries| < k ==> GetSms(s, k, clock) == None)
  {
    hide Listing, Free, PlainEntries, Survives, Parse, Count, Expected, AfterMarker, WholeUpTo, OccursAt, Find;
    var s := TextOf(Listing(before, entries, after));
    ListingCounted(before, entries, after);
    forall k: nat | 1 <= k <= |entries|
      ensures GetSms(s, k, clock).Some? <==> WholeUpTo(before, entries, k)
      ensures GetSms(s, k, clock) == Some(Expected(entries[k - 1], clock))
              <==> WholeUpTo(before, entries, k) && Survives(entries[k - 1])
    {
      MessageFound(before, entries, after, k, clock);
    }
    forall k: nat | |entries| < k ensures GetSms(s, k, clock) == None {
      ScanComplete(s, 0, k);
    }
  }

  /** One message in memory survives printing and parsing if and only if its fields meet the condition and
      none of its parts contains a NUL. */
  lemma MessageRoundTrip(e: Entry, more: string, clock: string -> int)
    requires PlainEntry(e)
    ensures Parse(TextOf(Printed(e) + more), clock) == Some(Expected(e, clock)) <==> Survives(e) && NulFree(e)
  {
    hide Parse, Printed, Parsed, Expected, Survives, PlainEntry, LinesEnd, NulFree;
    var all := Printed(e) + more;
    var text := TextOf(all);
    assert text == all[..|text|];
    PrintedParses(e, more, clock);
    PrintedLines(e, more);
    FieldsSurvive(e, clock);
    ParseInPart(all, |text|, clock);
    TextReaches(all, |Printed(e)|);
    assert all[..|Printed(e)|] == Printed(e);
    NulPrinted(e);
  }

  /** One message of the listing. */
  lemma MessageFound(before: string, entries: seq<Entry>, after: string, k: nat, clock: string -> int)
    requires PlainEntries(entries) && Free(before, MARKER) && Free(after, MARKER) && 1 <= k <= |entries|
    ensures var found := GetSms(TextOf(Listing(before, entries, after)), k, clock);
      && (found.Some? <==> WholeUpTo(before, entries, k))
      && (found == Some(Expected(entries[k - 1], clock)) <==> WholeUpTo(before, entries, k) && Survives(entries[k - 1]))
  {
    hide Listing, Free, PlainEntry, Printed, Survives, Parse, Parsed, Expected, AfterMarker, LinesEnd, WholeUpTo;
    var all := Listing(before, entries, after);
    var s := TextOf(all);
    assert s == all[..|s|];
    ListingAfter(before, entries, after, k);
    var p, e := AfterMarker(all, 0, k), entries[k - 1];
    var t := all[p..];
    var more := t[|Printed(e)|..];
    assert t == Printed(e) + more;
    PrintedParses(e, more, clock);
    PrintedLines(e, more);
    FieldsSurvive(e, clock);
    GetInPart(all, |s|, k, clock);
    WholeWith(before, entries, after, k);
    TextReaches(all, p + |Printed(e)|);
  }

  /** A NUL in a body: the first message is cut off, and the second one is gone. */
  lemma NulCuts(clock: string -> int)
    ensures var entries := [Entry(1, "READ", "5", "", "", "a\0b"), Entry(2, "READ", "6", "", "", "c")];
      && PlainEntries(entries)
      && Count(TextOf(Listing("", entries, "")), 0) == 1
      && GetSms(TextOf(Listing("", entries, "")), 1, clock) == None
  {
    hide Free, Listing, Count, GetSms;
    var entries := [Entry(1, "READ", "5", "", "", "a\0b"), Entry(2, "READ", "6", "", "", "c")];
    var texts := ["READ", "5", "6", "", "a\0b", "c"];
    forall v | v in texts ensures Free(v, CRLF) && Free(v, MARKER) {
      FreeOf(v, CRLF);
      FreeOf(v, MARKER);
    }
    assert texts[0] in texts && texts[1] in texts && texts[2] in texts && texts[3] in texts && texts[4] in texts && texts[5] in texts;
    assert PlainEntry(entries[0]) && PlainEntry(entries[1]);
    assert "" + "" == "";
    NulIsLast("", entries, "", clock);
  }

  lemma NulIsLast(before: string, entries: seq<Entry>, after: string, clock: string -> int)
    requires |entries| == 2 && PlainEntries(entries) && '\0' !in before && !NulFree(entries[0])
    requires Free(before, MARKER) && Free(after, MARKER) && Free(before + after, MARKER)
    ensures Count(TextOf(Listing(before, entries, after)), 0) == 1
    ensures GetSms(TextOf(Listing(before, entries, after)), 1, clock) == None
  {
    hide Listing, Free, PlainEntry, Printed, AfterMarker, Count, GetSms, NulFree;
    var all := Listing(before, entries, after);
    var s := TextOf(all);
    assert s == all[..|s|];
    ListingRoundTrip(before, entries, after, clock);
    WholeBefore(before, entries, after, 1);
    TextReaches(all, AfterMarker(all, 0, 1));
    AfterInPart(all, |s|, 0, 1);
    ScanComplete(s, 0, 1);
    ScanComplete(s, 0, 3);
    AfterInPart(all, |s|, 0, 3);
    ListingCount(before, entries, after);
    ScanComplete(all, 0, 3);
  }
}
