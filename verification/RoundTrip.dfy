/** Which events come back from their own log line, and what the parser can produce. */
module RoundTrip {
  import opened Basics
  import opened Strings
  import opened Net
  import opened LogLine

  // ---------------------------------------------------------------- the condition

  /** Within the cap, and every character printable. */
  ghost predicate Clean(lib: Lib, s: string, max: nat) {
    |s| <= max && forall i :: 0 <= i < |s| ==> s[i] != '\U{FFFD}' && lib.isPrint(s[i])
  }

  ghost predicate VerdictSurvives(lib: Lib, v: string) {
    v != "" && Trimmed(v) && Free(v, PID) && Clean(lib, v, MAX_DOMAIN)
  }

  ghost predicate CommSurvives(lib: Lib, c: string) {
    Trimmed(c) && Clean(lib, c, MAX_COMM)
  }

  ghost predicate DomainSurvives(lib: Lib, d: string) {
    !(" " <= d) && Free(d, DST) && Clean(lib, d, MAX_DOMAIN)
  }

  /** What an event must be for its log line to give it back. */
  ghost predicate Representable(lib: Lib, ev: Event) {
    VerdictSurvives(lib, ev.verdict) && CommSurvives(lib, ev.comm) && DomainSurvives(lib, ev.domain) && ev.ip.Some?
  }

  /** The parser gives addresses in their 16-byte form. */
  function Normal(ev: Event): Event {
    match ev.ip case Some(a) => ev.(ip := Some(To16(a))) case None => ev
  }

  lemma CleanIsFixed(lib: Lib, s: string, max: nat)
    requires Lawful(lib)
    ensures Clean(lib, s, max) <==> Sanitize(lib, s, max) == s
    ensures Clean(lib, Sanitize(lib, s, max), max)
  {
    var r := Sanitize(lib, s, max);
    if r == s {
      forall i | 0 <= i < |s| ensures s[i] != '\U{FFFD}' && lib.isPrint(s[i]) {
        assert r[i] == SanitizeChar(lib, s[i]);
      }
    }
  }

  // ---------------------------------------------------------------- the line

  /** A text without line ends at its end, cut at its last " dst=". */
  lemma CutAtDst(lib: Lib, head: string, tail: string)
    requires PREFIX <= head && Free(tail, DST)
    requires tail != "" && IsDigit(tail[|tail| - 1])
    ensures ParseLine(lib, head + DST + tail) == ParseParts(lib, head, tail)
  {
    var s := head + DST + tail;
    assert s[|s| - 1] == tail[|tail| - 1];
    assert TrimNewlines(s) == s;
    assert PREFIX <= s;
    Markers();
    LastMarker(head, DST, tail);
    assert s[..|head|] == head && s[|head| + |DST|..] == tail;
  }

  lemma TextIsPlain(lib: Lib, ip: Option<IP>)
    requires Lawful(lib)
    ensures PlainText(IPText(lib, ip))
  {
    match ip
    case Some(a) =>
      IPTextPlain(lib, a);
      AddressIsPlain(IPString(lib, a));
    case None =>
  }

  lemma AddressIsPlain(t: string)
    requires t != "" && forall c :: c in t ==> IsV6Char(c) || c == '.'
    ensures PlainText(t)
  {
    assert t[0] in t && t[|t| - 1] in t;
  }

  lemma TailEnd(lib: Lib, ev: Event)
    ensures var t := Tail(lib, ev); t != "" && IsDigit(t[|t| - 1])
  {
    var t, d := Tail(lib, ev), Decimal(ev.port);
    assert t[|t| - 1] == d[|d| - 1];
  }

  /** What follows the domain holds no further marker. */
  lemma RestIsFree(lib: Lib, ev: Event, r: string)
    requires Lawful(lib) && Free(r, DST)
    ensures Free(Bracketed(r, IPText(lib, ev.ip)) + ":" + Decimal(ev.port), DST)
    ensures Free(IPText(lib, ev.ip) + ":" + Decimal(ev.port), DST)
  {
    Markers();
    TextIsPlain(lib, ev.ip);
    DecimalPlain(ev.port, DST);
    var t, d := IPText(lib, ev.ip), Decimal(ev.port);
    FreeOfFirst(t + ":" + d, DST);
    var y := "(" + t + ")" + ":" + d;
    FreeOfFirst(y, DST);
    FreeAfterBlank(y, DST);
    FreeJoin(r, " " + y, DST);
    NamedAssoc(r, t, d);
  }

  lemma FreeAfterBlank(y: string, m: string)
    requires IsFieldMarker(m) && Free(y, m) && y != "" && y[0] != m[1]
    ensures Free(" " + y, m)
  {
    var s := " " + y;
    forall j | 0 <= j <= |s| - |m| ensures !At(s, m, j) {
      if j == 0 {
        assert s[0..|m|][1] == y[0];
      } else {
        assert s[j..j + |m|] == y[j - 1..j - 1 + |m|];
        assert !At(y, m, j - 1);
      }
    }
  }

  lemma Regroup(h: string, m: string, a: string, r: string, x: string)
    ensures h + m + ((a + m + r) + x) == (h + m + a) + m + (r + x)
  {
  }

  /** A domain that holds the marker: where the line is really cut. */
  lemma LateCut(lib: Lib, ev: Event) returns (r: string, head: string)
    requires !Free(ev.domain, DST)
    ensures |r| < |ev.domain| && Free(r, DST)
    ensures Head(ev) <= head
    ensures Print(lib, ev) == head + DST + (Bracketed(r, IPText(lib, ev.ip)) + ":" + Decimal(ev.port))
  {
    var d, t, dec := ev.domain, IPText(lib, ev.ip), Decimal(ev.port);
    LastIndexFinds(d, DST);
    AfterLast(d, DST);
    var j := LastIndex(d, DST);
    r, head := d[j + |DST|..], Head(ev) + DST + d[..j];
    NamedAssoc(d, t, dec);
    NamedAssoc(r, t, dec);
    Regroup(Head(ev), DST, d[..j], r, " " + ("(" + t + ")" + ":" + dec));
  }

  // ---------------------------------------------------------------- results of a line

  /** The line of an event whose domain does not hold the marker. */
  lemma PrintedParts(lib: Lib, ev: Event)
    requires Lawful(lib) && Free(ev.domain, DST)
    ensures ParseLine(lib, Print(lib, ev)) == ParseParts(lib, Head(ev), Tail(lib, ev))
  {
    RestIsFree(lib, ev, ev.domain);
    TailEnd(lib, ev);
    CutAtDst(lib, Head(ev), Tail(lib, ev));
  }

  lemma NilNeverParses(lib: Lib)
    ensures ParseIP(lib, "<nil>").None? && ParseIP(lib, "(" + "<nil>" + ")").None?
  {
  }

  lemma ParseTail(lib: Lib, ev: Event)
    requires Lawful(lib)
    ensures var res := ParseDst(lib, Tail(lib, ev));
            && (res.Ok? ==> ev.ip.Some? && res.value.0 == TrimLeft(ev.domain))
            && (ev.ip.Some? && (ev.domain == "" || !IsSpace(ev.domain[0])) ==>
                  res == Ok((ev.domain, To16(ev.ip.value), ev.port)))
  {
    TextIsPlain(lib, ev.ip);
    NilNeverParses(lib);
    if ev.domain == "" {
      ParseBareDst(lib, IPText(lib, ev.ip), ev.port);
    } else {
      ParseNamedDst(lib, ev.domain, IPText(lib, ev.ip), ev.port);
    }
    if ev.ip.Some? {
      ParsePrintedIP(lib, ev.ip.value);
    }
  }

  /** Putting the parts together, once each is known. */
  lemma PartsResult(lib: Lib, head: string, tail: string, f: Fields, pid: uint32, tgid: uint32,
                    domain: string, ip: IP, port: uint16)
    requires CutHead(head) == Ok(f) && f.verdict != ""
    requires f.pid == Decimal(pid) && f.tgid == Decimal(tgid)
    requires ParseDst(lib, tail) == Ok((domain, ip, port))
    ensures ParseParts(lib, head, tail)
         == Ok(Event(Sanitize(lib, f.verdict, MAX_DOMAIN), pid, tgid, Sanitize(lib, f.comm, MAX_COMM),
                     Sanitize(lib, domain, MAX_DOMAIN), Some(ip), port))
  {
  }

  /** The parts of a line that was accepted. */
  lemma PartsOk(lib: Lib, head: string, tail: string)
    requires ParseParts(lib, head, tail).Ok?
    ensures CutHead(head).Ok? && ParseDst(lib, tail).Ok? && CutHead(head).value.verdict != ""
    ensures var e := ParseParts(lib, head, tail).value;
            && e.verdict == Sanitize(lib, CutHead(head).value.verdict, MAX_DOMAIN)
            && e.comm == Sanitize(lib, CutHead(head).value.comm, MAX_COMM)
            && e.domain == Sanitize(lib, ParseDst(lib, tail).value.0, MAX_DOMAIN)
            && e.ip == Some(ParseDst(lib, tail).value.1)
  {
  }

  lemma WholeHead(ev: Event)
    requires Free(ev.verdict, PID) && Trimmed(ev.verdict) && Trimmed(ev.comm)
    ensures CutHead(Head(ev)) == Ok(Fields(ev.verdict, Decimal(ev.pid), Decimal(ev.tgid), ev.comm))
  {
    CutPrintedHead(ev);
    TrimSpaceIs(ev.verdict);
    TrimSpaceIs(ev.comm);
  }

  lemma WholeTail(lib: Lib, ev: Event)
    requires Lawful(lib) && ev.ip.Some?
    requires !(" " <= ev.domain) && Clean(lib, ev.domain, MAX_DOMAIN)
    ensures ParseDst(lib, Tail(lib, ev)) == Ok((ev.domain, To16(ev.ip.value), ev.port))
  {
    ParseTail(lib, ev);
    DomainStart(lib, ev.domain);
  }

  /** The line of a representable event gives it back. */
  lemma RepresentableComesBack(lib: Lib, ev: Event)
    requires Lawful(lib) && Representable(lib, ev)
    ensures ParseLine(lib, Print(lib, ev)) == Ok(Normal(ev))
  {
    PrintedParts(lib, ev);
    WholeHead(ev);
    WholeTail(lib, ev);
    var f := Fields(ev.verdict, Decimal(ev.pid), Decimal(ev.tgid), ev.comm);
    PartsResult(lib, Head(ev), Tail(lib, ev), f, ev.pid, ev.tgid, ev.domain, To16(ev.ip.value), ev.port);
    CleanIsFixed(lib, ev.verdict, MAX_DOMAIN);
    CleanIsFixed(lib, ev.comm, MAX_COMM);
    CleanIsFixed(lib, ev.domain, MAX_DOMAIN);
  }

  /** The only printable white space is the blank. */
  lemma DomainStart(lib: Lib, d: string)
    requires Lawful(lib) && Clean(lib, d, MAX_DOMAIN)
    ensures d != "" ==> (IsSpace(d[0]) <==> " " <= d)
  {
  }

  // ---------------------------------------------------------------- and no other

  /** Where the first field ends. */
  lemma FirstCut(head: string, k0: string, k1: string, k2: string, k3: string)
    requires CutFields(head, k0, k1, k2, k3).Ok?
    ensures k0 <= head
    ensures var i := Index(head[|k0|..], k1);
            i >= 0 && CutFields(head, k0, k1, k2, k3).value.verdict == TrimSpace(head[|k0|..][..i])
  {
    var (v0, h1) := CutField(head, k0, k1).value;
    var (v1, h2) := CutField(h1, k1, k2).value;
    var (v2, h3) := CutField(h2, k2, k3).value;
    CutCompose(k0, k1, k2, k3, head, h1, h2, h3, v0, v1, v2);
  }

  lemma HeadStarts(ev: Event)
    ensures exists rest :: Head(ev) == PREFIX + (ev.verdict + rest)
  {
    var pid := Field(PID, Decimal(ev.pid), 6, Field(TGID, Decimal(ev.tgid), 6, Field(COMM, ev.comm, 16, "")));
    var pad := Spaces(if |ev.verdict| < 20 then 20 - |ev.verdict| else 0);
    assert Pad(ev.verdict, 20) + pid == ev.verdict + (pad + pid);
    assert Head(ev) == PREFIX + (ev.verdict + (pad + pid));
  }

  /** A verdict that holds the next marker comes back shorter. */
  lemma EarlyCut(ev: Event)
    requires !Free(ev.verdict, PID) && CutHead(Head(ev)).Ok?
    ensures |CutHead(Head(ev)).value.verdict| < |ev.verdict|
  {
    var i :| At(ev.verdict, PID, i);
    HeadStarts(ev);
    var rest :| Head(ev) == PREFIX + (ev.verdict + rest);
    assert Head(ev)[|PREFIX|..] == ev.verdict + rest;
    EarlyMarker(ev.verdict, PID, rest, i);
    FirstCut(Head(ev), PREFIX, PID, TGID, COMM);
  }

  /** However the line is cut in front of it, a named destination gives at most its own name. */
  lemma CutLength(lib: Lib, head: string, r: string, t: string, port: uint16)
    requires PREFIX <= head && PlainText(t)
    requires Free(Bracketed(r, t) + ":" + Decimal(port), DST)
    requires ParseLine(lib, head + DST + (Bracketed(r, t) + ":" + Decimal(port))).Ok?
    ensures |ParseLine(lib, head + DST + (Bracketed(r, t) + ":" + Decimal(port))).value.domain| <= |r|
  {
    var tail := Bracketed(r, t) + ":" + Decimal(port);
    EndsInDigit(Bracketed(r, t), port);
    CutAtDst(lib, head, tail);
    ParseNamedDst(lib, r, t, port);
    PartsOk(lib, head, tail);
  }

  /** A domain that holds the last marker comes back shorter. */
  lemma LateCutIsShorter(lib: Lib, ev: Event)
    requires Lawful(lib) && !Free(ev.domain, DST)
    requires ParseLine(lib, Print(lib, ev)).Ok?
    ensures |ParseLine(lib, Print(lib, ev)).value.domain| < |ev.domain|
  {
    var r, head := LateCut(lib, ev);
    RestIsFree(lib, ev, r);
    HeadHasPrefix(ev, head);
    TextIsPlain(lib, ev.ip);
    CutLength(lib, head, r, IPText(lib, ev.ip), ev.port);
  }

  lemma HeadHasPrefix(ev: Event, head: string)
    requires Head(ev) <= head
    ensures PREFIX <= head
  {
    HeadStarts(ev);
  }

  lemma EndsInDigit(y: string, port: uint16)
    ensures var s := y + ":" + Decimal(port); s != "" && IsDigit(s[|s| - 1])
  {
    var s := y + ":" + Decimal(port);
    assert s[|s| - 1] == Decimal(port)[|Decimal(port)| - 1];
  }

  /** An event that comes back from its line, up to the form of its address, is representable. */
  lemma ComesBackOnlyIfRepresentable(lib: Lib, ev: Event)
    requires Lawful(lib)
    requires ParseLine(lib, Print(lib, ev)) == Ok(Normal(ev))
    ensures Representable(lib, ev)
  {
    if !Free(ev.domain, DST) {
      LateCutIsShorter(lib, ev);
    } else {
      PrintedParts(lib, ev);
      PartsOk(lib, Head(ev), Tail(lib, ev));
      ParseTail(lib, ev);
      if Free(ev.verdict, PID) {
        CutPrintedHead(ev);
        KeptWhole(lib, ev.verdict, MAX_DOMAIN);
        KeptWhole(lib, ev.comm, MAX_COMM);
        KeptLeft(lib, ev.domain);
      } else {
        EarlyCut(ev);
      }
    }
  }

  lemma KeptWhole(lib: Lib, s: string, max: nat)
    requires Lawful(lib)
    ensures Sanitize(lib, TrimSpace(s), max) == s ==> Trimmed(s) && Clean(lib, s, max)
  {
    TrimSpaceIs(s);
    CleanIsFixed(lib, s, max);
  }

  lemma KeptLeft(lib: Lib, d: string)
    requires Lawful(lib)
    ensures Sanitize(lib, TrimLeft(d), MAX_DOMAIN) == d ==> !(" " <= d) && Clean(lib, d, MAX_DOMAIN)
  {
    TrimLeftIs(d);
    CleanIsFixed(lib, d, MAX_DOMAIN);
  }

  /**
   * The round trip, exactly: printing and parsing gives an event back, up to the 16-byte form
   * of its address, if and only if its verdict is non-empty, trimmed, clean and free of
   * " pid=", its comm is trimmed and clean, its domain does not start with a blank and is
   * clean and free of " dst=", and it has an address.
   */
  lemma RoundTripExactly(lib: Lib, ev: Event)
    requires Lawful(lib)
    ensures ParseLine(lib, Print(lib, ev)) == Ok(Normal(ev)) <==> Representable(lib, ev)
  {
    if Representable(lib, ev) {
      RepresentableComesBack(lib, ev);
    }
    if ParseLine(lib, Print(lib, ev)) == Ok(Normal(ev)) {
      ComesBackOnlyIfRepresentable(lib, ev);
    }
  }

  // ---------------------------------------------------------------- normal form

  predicate EndsInBlank(s: string) {
    s != "" && s[|s| - 1] == ' '
  }

  /** Replacing characters by '?' makes no new occurrence of a marker without one. */
  lemma SanitizeFree(lib: Lib, s: string, max: nat, m: string)
    requires Free(s, m) && '?' !in m
    ensures Free(Sanitize(lib, s, max), m)
  {
    var r := Sanitize(lib, s, max);
    forall j | 0 <= j <= |r| - |m| ensures !At(r, m, j) {
      assert !At(s, m, j);
      if s[j..j + |m|] != m {
        var k :| 0 <= k < |m| && s[j + k] != m[k];
        assert m[k] in m && r[j + k] == SanitizeChar(lib, s[j + k]);
        assert r[j..j + |m|][k] == r[j + k];
      }
    }
  }

  /** A sanitised trimmed text is trimmed unless the cap cut it behind a blank. */
  lemma SanitizeTrimmed(lib: Lib, s: string, max: nat)
    requires Lawful(lib) && Trimmed(s) && max > 0
    ensures var r := Sanitize(lib, s, max);
            && Clean(lib, r, max) && (r == "" <==> s == "")
            && (Trimmed(r) <==> !EndsInBlank(r)) && (EndsInBlank(r) ==> |r| == max) && !(" " <= r)
  {
    var r := Sanitize(lib, s, max);
    CleanIsFixed(lib, s, max);
    if s != "" {
      assert r[0] == SanitizeChar(lib, s[0]);
      assert r[|r| - 1] == SanitizeChar(lib, s[|r| - 1]);
    }
  }

  /** The domain is a prefix of the trimmed destination. */
  lemma DomainIsPrefix(lib: Lib, tail: string)
    requires ParseDst(lib, tail).Ok?
    ensures var d := ParseDst(lib, tail).value.0; |d| <= |TrimSpace(tail)| && d == TrimSpace(tail)[..|d|]
  {
    var s := TrimSpace(tail);
    var colon := LastIndex(s, ":");
    var addr := s[..colon];
    var d := SplitDst(addr).0;
    assert d == addr[..|d|] == s[..|d|];
  }

  lemma PrefixIsClean(lib: Lib, s: string, d: string)
    requires Lawful(lib) && Trimmed(s) && Free(s, DST) && |d| <= |s| && d == s[..|d|]
    ensures var r := Sanitize(lib, d, MAX_DOMAIN);
            Free(r, DST) && Clean(lib, r, MAX_DOMAIN) && !(" " <= r)
  {
    FreeSlice(s, DST, 0, |d|);
    assert s[0..|d|] == d;
    SanitizeFree(lib, d, MAX_DOMAIN, DST);
    CleanIsFixed(lib, d, MAX_DOMAIN);
    if d != "" {
      assert d[0] == s[0];
      assert Sanitize(lib, d, MAX_DOMAIN)[0] == SanitizeChar(lib, d[0]);
    }
  }

  lemma ParsedDomain(lib: Lib, tail: string)
    requires Lawful(lib) && Free(tail, DST) && ParseDst(lib, tail).Ok?
    ensures var r := Sanitize(lib, ParseDst(lib, tail).value.0, MAX_DOMAIN);
            Free(r, DST) && Clean(lib, r, MAX_DOMAIN) && !(" " <= r)
  {
    DomainIsPrefix(lib, tail);
    TrimSpaceFree(tail, DST);
    TrimSpaceIs(tail);
    PrefixIsClean(lib, TrimSpace(tail), ParseDst(lib, tail).value.0);
  }

  lemma CutIsFree(lib: Lib, v: string, m: string, cut: string)
    requires Index(v, m) >= 0 && m != "" && '?' !in m && cut == TrimSpace(v[..Index(v, m)])
    ensures Free(Sanitize(lib, cut, MAX_DOMAIN), m)
  {
    BeforeFirst(v, m);
    TrimSpaceFree(v[..Index(v, m)], m);
    SanitizeFree(lib, cut, MAX_DOMAIN, m);
  }

  lemma ParsedFields(lib: Lib, head: string, k0: string, k1: string, k2: string, k3: string)
    requires CutFields(head, k0, k1, k2, k3).Ok? && k1 != "" && '?' !in k1
    ensures var f := CutFields(head, k0, k1, k2, k3).value;
            Trimmed(f.verdict) && Trimmed(f.comm) && Free(Sanitize(lib, f.verdict, MAX_DOMAIN), k1)
  {
    FirstCut(head, k0, k1, k2, k3);
    CutIsFree(lib, head[|k0|..], k1, CutFields(head, k0, k1, k2, k3).value.verdict);
    TrimSpaceIs(head[|k0|..][..Index(head[|k0|..], k1)]);
    CommIsTrimmed(head, k0, k1, k2, k3);
  }

  lemma ParsedVerdict(lib: Lib, head: string)
    requires CutHead(head).Ok?
    ensures var f := CutHead(head).value;
            Trimmed(f.verdict) && Trimmed(f.comm) && Free(Sanitize(lib, f.verdict, MAX_DOMAIN), PID)
  {
    ParsedFields(lib, head, PREFIX, PID, TGID, COMM);
  }

  lemma CommIsTrimmed(head: string, k0: string, k1: string, k2: string, k3: string)
    requires CutFields(head, k0, k1, k2, k3).Ok?
    ensures Trimmed(CutFields(head, k0, k1, k2, k3).value.comm)
  {
    var (v0, h1) := CutField(head, k0, k1).value;
    var (v1, h2) := CutField(h1, k1, k2).value;
    var (v2, h3) := CutField(h2, k2, k3).value;
    CutCompose(k0, k1, k2, k3, head, h1, h2, h3, v0, v1, v2);
    TrimSpaceIs(h3[|k3|..]);
  }

  lemma AddressIsLong(lib: Lib, tail: string)
    requires Lawful(lib) && ParseDst(lib, tail).Ok?
    ensures |ParseDst(lib, tail).value.1| == 16
  {
    var s := TrimSpace(tail);
    var colon := LastIndex(s, ":");
    assert ParseDst(lib, tail) == ParseAt(lib, s, colon);
    ParsedIsLong(lib, SplitDst(s[..colon]).1);
  }

  lemma ParsedIsLong(lib: Lib, text: string)
    requires Lawful(lib) && ParseIP(lib, text).Some?
    ensures |ParseIP(lib, text).value| == 16
  {
  }

  /**
   * Normal form: whatever text is accepted, the event is printable and within the caps, and
   * printing it and parsing again gives the same event if and only if neither the verdict nor
   * the comm ends in a blank, which only the cap can cause.
   */
  lemma NormalForm(lib: Lib, line: string)
    requires Lawful(lib) && ParseLine(lib, line).Ok?
    ensures var e := ParseLine(lib, line).value;
            && Clean(lib, e.verdict, MAX_DOMAIN) && Clean(lib, e.comm, MAX_COMM) && Clean(lib, e.domain, MAX_DOMAIN)
            && (EndsInBlank(e.verdict) ==> |e.verdict| == MAX_DOMAIN) && (EndsInBlank(e.comm) ==> |e.comm| == MAX_COMM)
            && (ParseLine(lib, Print(lib, e)) == Ok(e) <==> !EndsInBlank(e.verdict) && !EndsInBlank(e.comm))
  {
    var s := TrimNewlines(line);
    var e := ParseLine(lib, line).value;
    AfterLast(s, DST);
    var dstAt := LastIndex(s, DST);
    var head, tail := s[..dstAt], s[dstAt + |DST|..];
    PartsOk(lib, head, tail);
    var f := CutHead(head).value;
    ParsedVerdict(lib, head);
    ParsedDomain(lib, tail);
    AddressIsLong(lib, tail);
    SanitizeTrimmed(lib, f.verdict, MAX_DOMAIN);
    SanitizeTrimmed(lib, f.comm, MAX_COMM);
    assert Normal(e) == e;
    RoundTripExactly(lib, e);
  }
}
