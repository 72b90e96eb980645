/**
 * The log's lines as text: how a verdict line is laid out, exactly which texts are accepted as
 * one, where the mode of the startup diagnostic stands, and how a text is cut into lines.
 */
module LineText {
  import opened Basics
  import opened Strings
  import opened Net
  import opened LogLine
  import opened ScanLog

  // ---------------------------------------------------------------- the printed line

  /** The value at the left of a column that is at least that wide, filled up with blanks. */
  predicate IsColumn(column: string, value: string, width: nat) {
    && |column| == (if |value| < width then width else |value|)
    && value <= column && forall i :: |value| <= i < |column| ==> column[i] == ' '
  }

  lemma PadIsColumn(value: string, width: nat)
    ensures IsColumn(Pad(value, width), value, width)
  {
  }

  function Dest(domain: string, address: string): string {
    if domain != "" then domain + " (" + address + ")" else address
  }

  /** The five columns of a line, and the port behind the last. */
  function Laid(v: string, p: string, t: string, c: string, d: string, port: string): string {
    "verdict=" + v + " pid=" + p + " tgid=" + t + " comm=" + c + " dst=" + d + ":" + port
  }

  lemma HeadLaid(v: string, p: string, t: string, c: string)
    ensures PREFIX + (v + (PID + (p + (TGID + (t + (COMM + c))))))
         == "verdict=" + v + " pid=" + p + " tgid=" + t + " comm=" + c
  {
  }

  /** The layout of a printed line, in its own words. */
  lemma PrintedText(lib: Lib, ev: Event) returns (v: string, p: string, t: string, c: string)
    ensures IsColumn(v, ev.verdict, 20) && IsColumn(p, Decimal(ev.pid), 6)
    ensures IsColumn(t, Decimal(ev.tgid), 6) && IsColumn(c, ev.comm, 16)
    ensures Print(lib, ev) == Laid(v, p, t, c, Dest(ev.domain, IPText(lib, ev.ip)), Decimal(ev.port))
  {
    v, p, t, c := Pad(ev.verdict, 20), Pad(Decimal(ev.pid), 6), Pad(Decimal(ev.tgid), 6), Pad(ev.comm, 16);
    HeadLaid(v, p, t, c);
    assert c + "" == c;
    assert Head(ev) == "verdict=" + v + " pid=" + p + " tgid=" + t + " comm=" + c;
    DestLaid(ev.domain, IPText(lib, ev.ip));
    JoinLaid(Head(ev), Dest(ev.domain, IPText(lib, ev.ip)), Decimal(ev.port));
  }

  lemma DestLaid(domain: string, address: string)
    ensures Bracketed(domain, address) == domain + " (" + address + ")"
  {
  }

  lemma JoinLaid(head: string, dest: string, port: string)
    ensures head + DST + (dest + ":" + port) == head + " dst=" + dest + ":" + port
  {
  }

  // ---------------------------------------------------------------- one field

  lemma CutIs(s: string, key: string, next: string, v: string, rest: string)
    requires s == key + (v + rest) && IsFieldMarker(next) && Free(v, next) && next <= rest
    ensures CutField(s, key, next) == Ok((TrimSpace(v), rest))
  {
    assert Spaces(0) == "";
    assert Pad(v, 0) == v;
    CutPadded(key, v, 0, next, rest);
  }

  lemma CutWas(s: string, key: string, next: string) returns (v: string, rest: string)
    requires next != "" && CutField(s, key, next).Ok?
    ensures s == key + (v + rest) && Free(v, next) && next <= rest
    ensures CutField(s, key, next) == Ok((TrimSpace(v), rest))
  {
    var all := s[|key|..];
    var i := Index(all, next);
    BeforeFirst(all, next);
    IndexFinds(all, next);
    v, rest := all[..i], all[i..];
    assert rest[..|next|] == all[i..i + |next|];
  }

  // ---------------------------------------------------------------- the leading fields

  /** The text in front of the destination, its fields each ended by the first next marker. */
  predicate IsHead(head: string, v: string, p: string, t: string, c: string) {
    head == PREFIX + (v + (PID + (p + (TGID + (t + (COMM + c))))))
  }

  ghost predicate AreFree(v: string, p: string, t: string) {
    Free(v, PID) && Free(p, TGID) && Free(t, COMM)
  }

  lemma HeadIs(head: string, v: string, p: string, t: string, c: string)
    requires IsHead(head, v, p, t, c) && AreFree(v, p, t)
    ensures CutHead(head) == Ok(Fields(TrimSpace(v), TrimSpace(p), TrimSpace(t), TrimSpace(c)))
  {
    var h3 := COMM + c;
    var h2 := TGID + (t + h3);
    var h1 := PID + (p + h2);
    Markers();
    CutIs(head, PREFIX, PID, v, h1);
    CutIs(h1, PID, TGID, p, h2);
    CutIs(h2, TGID, COMM, t, h3);
    assert h3[|COMM|..] == c;
    CutCompose(PREFIX, PID, TGID, COMM, head, h1, h2, h3, TrimSpace(v), TrimSpace(p), TrimSpace(t));
  }

  lemma FieldsWere(head: string, k0: string, k1: string, k2: string, k3: string)
    returns (v: string, p: string, t: string, h1: string, h2: string, h3: string)
    requires CutFields(head, k0, k1, k2, k3).Ok? && k1 != "" && k2 != "" && k3 != ""
    ensures head == k0 + (v + h1) && h1 == k1 + (p + h2) && h2 == k2 + (t + h3) && k3 <= h3
    ensures Free(v, k1) && Free(p, k2) && Free(t, k3)
  {
    var (x0, r1) := CutField(head, k0, k1).value;
    v, h1 := CutWas(head, k0, k1);
    var (x1, r2) := CutField(h1, k1, k2).value;
    p, h2 := CutWas(h1, k1, k2);
    var (x2, r3) := CutField(h2, k2, k3).value;
    t, h3 := CutWas(h2, k2, k3);
  }

  lemma HeadWas(head: string) returns (v: string, p: string, t: string, c: string)
    requires CutHead(head).Ok?
    ensures IsHead(head, v, p, t, c) && AreFree(v, p, t)
    ensures CutHead(head) == Ok(Fields(TrimSpace(v), TrimSpace(p), TrimSpace(t), TrimSpace(c)))
  {
    var h1, h2, h3;
    v, p, t, h1, h2, h3 := FieldsWere(head, PREFIX, PID, TGID, COMM);
    c := h3[|COMM|..];
    assert h3 == COMM + c;
    HeadIs(head, v, p, t, c);
  }

  // ---------------------------------------------------------------- the destination

  /** "domain (text)", split at the last " ("; otherwise the text alone. */
  ghost predicate IsSplit(addr: string, domain: string, text: string) {
    || (addr == domain + " (" + text + ")" && Free(text + ")", " ("))
    || (domain == "" && text == addr && (Free(addr, " (") || !HasSuffix(addr, ")")))
  }

  lemma NamedSplit(domain: string, text: string)
    requires Free(text + ")", " (")
    ensures SplitDst(domain + " (" + text + ")") == (domain, text)
  {
    var addr := domain + " (" + text + ")";
    Markers();
    assert addr == domain + OPEN + (text + ")");
    LastMarker(domain, OPEN, text + ")");
    assert addr[|addr| - 1..] == ")";
    assert addr[..|domain|] == domain && addr[|domain| + 2..|addr| - 1] == text;
  }

  lemma BareSplit(addr: string)
    requires Free(addr, " (") || !HasSuffix(addr, ")")
    ensures SplitDst(addr) == ("", addr)
  {
    LastIndexFinds(addr, OPEN);
  }

  lemma SplitWas(addr: string)
    ensures IsSplit(addr, SplitDst(addr).0, SplitDst(addr).1)
  {
    var open := LastIndex(addr, OPEN);
    LastIndexFinds(addr, OPEN);
    if HasSuffix(addr, ")") && open >= 0 {
      AfterLast(addr, OPEN);
      var rest := addr[open + 2..];
      assert addr[open..open + |OPEN|][1] == '(' && addr[|addr| - 1..][0] == ')';
      assert rest == rest[..|rest| - 1] + ")";
      assert rest[..|rest| - 1] == addr[open + |OPEN|..|addr| - 1];
      assert addr == addr[..open] + " (" + rest;
    }
  }

  lemma SplitExactly(addr: string, domain: string, text: string)
    ensures SplitDst(addr) == (domain, text) <==> IsSplit(addr, domain, text)
  {
    SplitWas(addr);
    if addr == domain + " (" + text + ")" && Free(text + ")", " (") {
      NamedSplit(domain, text);
    } else if IsSplit(addr, domain, text) {
      BareSplit(addr);
    }
  }

  /** The trimmed destination: an address part, the last colon, a port of digits, an address. */
  ghost predicate IsDst(lib: Lib, x: string, domain: string, ip: IP, port: uint16) {
    exists addr, digits, text ::
      && x == addr + ":" + digits && ':' !in digits
      && ParseUint(digits, 65535) == Some(port)
      && IsSplit(addr, domain, text) && ParseIP(lib, text) == Some(ip)
  }

  lemma ColonWas(x: string) returns (addr: string, digits: string)
    requires LastIndex(x, ":") >= 0
    ensures addr == x[..LastIndex(x, ":")] && digits == x[LastIndex(x, ":") + 1..]
    ensures x == addr + ":" + digits && ':' !in digits
  {
    AfterLast(x, ":");
    var k := LastIndex(x, ":");
    addr, digits := x[..k], x[k + 1..];
    forall i | 0 <= i < |digits| ensures digits[i] != ':' {
      assert !At(digits, ":", i);
      assert digits[i..i + 1] == [digits[i]];
    }
  }

  lemma ColonIs(addr: string, digits: string)
    requires ':' !in digits
    ensures var x := addr + ":" + digits;
            LastIndex(x, ":") == |addr| && x[..|addr|] == addr && x[|addr| + 1..] == digits
  {
    Markers();
    FreeOfFirst(digits, ":");
    LastMarker(addr, ":", digits);
  }

  lemma DstExactly(lib: Lib, d: string, domain: string, ip: IP, port: uint16)
    ensures ParseDst(lib, d) == Ok((domain, ip, port)) <==> IsDst(lib, TrimSpace(d), domain, ip, port)
  {
    var x := TrimSpace(d);
    if ParseDst(lib, d) == Ok((domain, ip, port)) {
      var addr, digits := ColonWas(x);
      SplitExactly(addr, domain, SplitDst(addr).1);
    }
    if addr: string, digits: string, text: string :|
      && x == addr + ":" + digits && ':' !in digits
      && ParseUint(digits, 65535) == Some(port)
      && IsSplit(addr, domain, text) && ParseIP(lib, text) == Some(ip)
    {
      ColonIs(addr, digits);
      SplitExactly(addr, domain, text);
    }
  }

  // ---------------------------------------------------------------- the accepted lines

  /** The fields of a line, with the destination behind the last " dst=". */
  ghost predicate HasParts(s: string, v: string, p: string, t: string, c: string, d: string) {
    && s == "verdict=" + v + " pid=" + p + " tgid=" + t + " comm=" + c + " dst=" + d
    && Free(v, " pid=") && Free(p, " tgid=") && Free(t, " comm=") && Free(d, " dst=")
  }

  /** What the trimmed fields must be, and the event they make. */
  ghost predicate Denotes(lib: Lib, v: string, p: string, t: string, c: string, d: string, e: Event) {
    && TrimSpace(v) != "" && e.verdict == Sanitize(lib, TrimSpace(v), 253)
    && ParseUint(TrimSpace(p), 4294967295) == Some(e.pid)
    && ParseUint(TrimSpace(t), 4294967295) == Some(e.tgid)
    && e.comm == Sanitize(lib, TrimSpace(c), 16)
    && e.ip.Some?
    && exists domain :: IsDst(lib, TrimSpace(d), domain, e.ip.value, e.port) && e.domain == Sanitize(lib, domain, 253)
  }

  lemma LineIs(lib: Lib, s: string, head: string, v: string, p: string, t: string, c: string, d: string)
    requires IsHead(head, v, p, t, c) && Free(d, DST) && s == head + DST + d && TrimNewlines(s) == s
    ensures ParseLine(lib, s) == ParseParts(lib, head, d)
  {
    Markers();
    LastMarker(head, DST, d);
    assert s[..|head|] == head && s[|head| + |DST|..] == d;
    assert PREFIX <= head <= s;
  }

  lemma PartsDenote(lib: Lib, head: string, v: string, p: string, t: string, c: string, d: string, e: Event)
    requires CutHead(head) == Ok(Fields(TrimSpace(v), TrimSpace(p), TrimSpace(t), TrimSpace(c)))
    ensures ParseParts(lib, head, d) == Ok(e) <==> Denotes(lib, v, p, t, c, d, e)
  {
    var r := ParseDst(lib, d);
    if r.Ok? {
      DstExactly(lib, d, r.value.0, r.value.1, r.value.2);
    }
    if e.ip.Some? {
      forall domain
        ensures IsDst(lib, TrimSpace(d), domain, e.ip.value, e.port) <==> r == Ok((domain, e.ip.value, e.port))
      {
        DstExactly(lib, d, domain, e.ip.value, e.port);
      }
    }
  }

  lemma TrimmedAgain(s: string)
    ensures TrimNewlines(TrimNewlines(s)) == TrimNewlines(s)
  {
  }

  lemma SameOnTrimmed(lib: Lib, line: string)
    ensures ParseLine(lib, line) == ParseLine(lib, TrimNewlines(line))
  {
    TrimmedAgain(line);
  }

  lemma PartsJoin(head: string, v: string, p: string, t: string, c: string, d: string)
    ensures IsHead(head, v, p, t, c) ==>
              head + DST + d == "verdict=" + v + " pid=" + p + " tgid=" + t + " comm=" + c + " dst=" + d
  {
    HeadLaid(v, p, t, c);
  }

  lemma AcceptedHasParts(lib: Lib, s: string, e: Event)
    returns (v: string, p: string, t: string, c: string, d: string)
    requires TrimNewlines(s) == s && ParseLine(lib, s) == Ok(e)
    ensures HasParts(s, v, p, t, c, d) && Denotes(lib, v, p, t, c, d, e)
  {
    var k := LastIndex(s, DST);
    AfterLast(s, DST);
    var head := s[..k];
    d := s[k + |DST|..];
    v, p, t, c := HeadWas(head);
    PartsDenote(lib, head, v, p, t, c, d, e);
    PartsJoin(head, v, p, t, c, d);
  }

  lemma PartsAreAccepted(lib: Lib, s: string, v: string, p: string, t: string, c: string, d: string, e: Event)
    requires TrimNewlines(s) == s && HasParts(s, v, p, t, c, d)
    ensures ParseLine(lib, s) == Ok(e) <==> Denotes(lib, v, p, t, c, d, e)
  {
    var head := PREFIX + (v + (PID + (p + (TGID + (t + (COMM + c))))));
    PartsJoin(head, v, p, t, c, d);
    LineIs(lib, s, head, v, p, t, c, d);
    HeadIs(head, v, p, t, c);
    PartsDenote(lib, head, v, p, t, c, d, e);
  }

  /**
   * Exactly which lines are accepted, and as what: without its line ends, a line is the event e
   * if and only if it has the five fields, each ended by the first marker of the next, the
   * destination behind the last " dst=", and the fields denote e.
   */
  lemma AcceptedExactly(lib: Lib, line: string, e: Event)
    ensures ParseLine(lib, line) == Ok(e) <==>
              exists v, p, t, c, d :: HasParts(TrimNewlines(line), v, p, t, c, d) && Denotes(lib, v, p, t, c, d, e)
  {
    var s := TrimNewlines(line);
    TrimmedAgain(line);
    SameOnTrimmed(lib, line);
    if ParseLine(lib, s) == Ok(e) {
      var v, p, t, c, d := AcceptedHasParts(lib, s, e);
    }
    if v: string, p: string, t: string, c: string, d: string :|
      HasParts(s, v, p, t, c, d) && Denotes(lib, v, p, t, c, d, e)
    {
      PartsAreAccepted(lib, s, v, p, t, c, d, e);
    }
  }

  /** What sanitising does to each character, and where it cuts. */
  lemma SanitizedText(lib: Lib, s: string, max: nat)
    ensures var r := Sanitize(lib, s, max);
            && |r| == (if |s| < max then |s| else max)
            && forall i :: 0 <= i < |r| ==>
                 r[i] == if lib.isPrint(s[i]) && s[i] != '\U{FFFD}' then s[i] else '?'
  {
  }

  /** Exactly the carriage returns and line feeds at its end are taken off a line. */
  lemma {:induction false} NewlinesTrimmed(s: string)
    ensures var r := TrimNewlines(s);
            && r <= s && (r != "" ==> r[|r| - 1] != '\r' && r[|r| - 1] != '\n')
            && forall i :: |r| <= i < |s| ==> s[i] == '\r' || s[i] == '\n'
  {
    if s != "" && (s[|s| - 1] == '\r' || s[|s| - 1] == '\n') {
      NewlinesTrimmed(s[..|s| - 1]);
    }
  }

  // ---------------------------------------------------------------- the mode

  ghost predicate IsStartupLine(line: string) {
    !Free(line, "msg=\"watching outbound connections")
  }

  lemma ContainsExactly(s: string, m: string)
    ensures Contains(s, m) <==> !Free(s, m)
  {
    IndexFinds(s, m);
  }

  lemma ModeKeyIsMarker()
    ensures IsFieldMarker(" mode=")
  {
  }

  lemma ModeFound(front: string, rest: string)
    requires Free(front, " mode=")
    ensures var line := front + " mode=" + rest;
            Index(line, MODE_KEY) == |front| && line[|front| + |MODE_KEY|..] == rest
  {
    assert Spaces(0) == "" && Pad(front, 0) == front;
    ModeKeyIsMarker();
    FirstMarker(front, 0, " mode=", rest);
  }

  function ModeText(lib: Lib, m: string): Option<string> {
    var mode := Sanitize(lib, TrimSpace(m), 64);
    if mode == "" then None else Some(mode)
  }

  lemma BeforeIs(m: string, mark: char, rest: string)
    requires mark !in m
    ensures Before(m + [mark] + rest, [mark]) == m && Before(m, [mark]) == m
  {
    var s := m + [mark] + rest;
    IndexFinds(s, [mark]);
    IndexFinds(m, [mark]);
    FreeOfFirst(m, [mark]);
    assert At(s, [mark], |m|);
    forall j | 0 <= j < |m| ensures !At(s, [mark], j) {
      assert s[j..j + 1][0] == m[j];
    }
  }

  lemma ModeLineIs(lib: Lib, front: string, rest: string)
    requires Free(front, " mode=") && IsStartupLine(front + " mode=" + rest)
    ensures ParseModeLine(lib, front + " mode=" + rest)
         == ModeText(lib, if "\"" <= rest then Before(rest[1..], "\"") else Before(rest, " "))
  {
    ModeFound(front, rest);
    ContainsExactly(front + " mode=" + rest, MODE_MARKER);
  }

  /** A quoted mode ends at the next quote; it may hold blanks. */
  lemma QuotedMode(lib: Lib, front: string, m: string, after: string)
    requires Free(front, " mode=") && '"' !in m
    requires IsStartupLine(front + " mode=" + ("\"" + m + "\"" + after))
    ensures ParseModeLine(lib, front + " mode=" + ("\"" + m + "\"" + after)) == ModeText(lib, m)
  {
    var rest := "\"" + m + "\"" + after;
    ModeLineIs(lib, front, rest);
    assert rest[1..] == m + ['"'] + after;
    BeforeIs(m, '"', after);
  }

  /** A quote that is not closed: the mode is what follows it. */
  lemma OpenMode(lib: Lib, front: string, m: string)
    requires Free(front, " mode=") && '"' !in m && IsStartupLine(front + " mode=" + ("\"" + m))
    ensures ParseModeLine(lib, front + " mode=" + ("\"" + m)) == ModeText(lib, m)
  {
    ModeLineIs(lib, front, "\"" + m);
    assert ("\"" + m)[1..] == m;
    BeforeIs(m, '"', "");
  }

  /** A bare one ends at the next blank, or with the line. */
  lemma BareMode(lib: Lib, front: string, m: string, after: string)
    requires Free(front, " mode=") && ' ' !in m && !("\"" <= m) && m != "" && (after == "" || after[0] == ' ')
    requires IsStartupLine(front + " mode=" + (m + after))
    ensures ParseModeLine(lib, front + " mode=" + (m + after)) == ModeText(lib, m)
  {
    ModeLineIs(lib, front, m + after);
    assert (m + after)[0] == m[0];
    if after == "" {
      BeforeIs(m, ' ', "");
      assert m + after == m;
    } else {
      assert m + after == m + [' '] + after[1..];
      BeforeIs(m, ' ', after[1..]);
    }
  }

  /** No other line has a mode. */
  lemma NoMode(lib: Lib, line: string)
    requires !IsStartupLine(line) || Free(line, " mode=")
    ensures ParseModeLine(lib, line).None?
  {
    ContainsExactly(line, MODE_MARKER);
    ContainsExactly(line, MODE_KEY);
  }

  // ---------------------------------------------------------------- lines of a text

  lemma FirstFeed(line: string, rest: string)
    requires '\n' !in line
    ensures Index(line + "\n" + rest, "\n") == |line|
  {
    var s := line + "\n" + rest;
    IndexFinds(s, "\n");
    assert At(s, "\n", |line|);
    forall j | 0 <= j < |line| ensures !At(s, "\n", j) {
      assert s[j..j + 1][0] == line[j];
    }
  }

  /** Every line feed ends a line. */
  lemma LineEnds(line: string, rest: string)
    requires '\n' !in line
    ensures RawLines(line + "\n" + rest) == [line] + RawLines(rest)
  {
    var s := line + "\n" + rest;
    FirstFeed(line, rest);
    assert s[..|line|] == line && s[|line| + 1..] == rest;
  }

  /** Text without one is a line unless it is empty. */
  lemma LastLine(line: string)
    requires '\n' !in line
    ensures RawLines(line) == if line == "" then [] else [line]
  {
    FreeOfFirst(line, "\n");
    IndexFinds(line, "\n");
  }

  /** One carriage return in front of the line feed belongs to the line's end. */
  lemma ReturnDropped(line: string)
    ensures DropCR(line + "\r") == line
    ensures !HasSuffix(line, "\r") ==> DropCR(line) == line
  {
    if line != "" && line[|line| - 1] == '\r' {
      assert line[|line| - 1..] == "\r";
    }
  }
}
