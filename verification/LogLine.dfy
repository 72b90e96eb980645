/**
 * The per-connection log line: its printer, its parser, and exactly which events survive
 * being printed and parsed.
 */
module LogLine {
  import opened Basics
  import opened Strings
  import opened Net

  // ---------------------------------------------------------------- data

  const PREFIX := "verdict="
  const PID := " pid="
  const TGID := " tgid="
  const COMM := " comm="
  const DST := " dst="
  const OPEN := " ("

  const MAX_DOMAIN: nat := 253
  const MAX_COMM: nat := 16
  const MAX_U32: nat := 0xFFFF_FFFF
  const MAX_U16: nat := 0xFFFF

  type uint32 = n: nat | n <= MAX_U32

  /** domain is empty when no name was observed; ip is absent when it is nil. */
  datatype Event = Event(
    verdict: string, pid: uint32, tgid: uint32, comm: string, domain: string, ip: Option<IP>, port: uint16)

  datatype ParseError =
    | NotAVerdictLine
    | MissingField(name: string)
    | InvalidNumber(field: string)
    | MissingPort
    | InvalidIP
    | EmptyVerdict

  // ---------------------------------------------------------------- printing

  function IPText(lib: Lib, ip: Option<IP>): string {
    match ip case Some(a) => IPString(lib, a) case None => "<nil>"
  }

  function Bracketed(r: string, t: string): string {
    r + OPEN + (t + ")")
  }

  /** Dst: "domain (ip)" when the domain is known, otherwise the address alone. */
  function Dst(lib: Lib, domain: string, ip: Option<IP>): string {
    if domain != "" then Bracketed(domain, IPText(lib, ip)) else IPText(lib, ip)
  }

  /** One "key=%-<width>s" of the format, and what follows it. */
  function Field(key: string, value: string, width: nat, rest: string): string {
    key + (Pad(value, width) + rest)
  }

  function Head(ev: Event): string {
    Field(PREFIX, ev.verdict, 20,
      Field(PID, Decimal(ev.pid), 6,
        Field(TGID, Decimal(ev.tgid), 6,
          Field(COMM, ev.comm, 16, ""))))
  }

  /** The destination column with its port. */
  function Tail(lib: Lib, ev: Event): string {
    Dst(lib, ev.domain, ev.ip) + ":" + Decimal(ev.port)
  }

  /** Line.String for the line that reports the event. */
  function Print(lib: Lib, ev: Event): string {
    Head(ev) + DST + Tail(lib, ev)
  }

  // ---------------------------------------------------------------- parsing

  function SanitizeChar(lib: Lib, c: char): char {
    if c == '\U{FFFD}' || !lib.isPrint(c) then '?' else c
  }

  /** At most max runes, every one that is not printable replaced. */
  function Sanitize(lib: Lib, s: string, max: nat): (r: string)
    ensures |r| == if |s| <= max then |s| else max
  {
    seq(if |s| <= max then |s| else max, i requires 0 <= i < |s| => SanitizeChar(lib, s[i]))
  }

  /** The value introduced by key, up to the next marker, and the text from that marker on. */
  function CutField(s: string, key: string, next: string): Result<(string, string), ParseError> {
    if !(key <= s) then Err(MissingField(key))
    else
      var v := s[|key|..];
      var i := Index(v, next);
      if i < 0 then Err(MissingField(next)) else Ok((TrimSpace(v[..i]), v[i..]))
  }

  /** The texts of the four leading fields. */
  datatype Fields = Fields(verdict: string, pid: string, tgid: string, comm: string)

  function CutFields(head: string, k0: string, k1: string, k2: string, k3: string): Result<Fields, ParseError> {
    var (v0, after0) :- CutField(head, k0, k1);
    var (v1, after1) :- CutField(after0, k1, k2);
    var (v2, after2) :- CutField(after1, k2, k3);
    if !(k3 <= after2) then Err(MissingField(k3)) else Ok(Fields(v0, v1, v2, TrimSpace(after2[|k3|..])))
  }

  function CutHead(head: string): Result<Fields, ParseError> {
    CutFields(head, PREFIX, PID, TGID, COMM)
  }

  /** A domain and an address text, from the destination without its port. */
  function SplitDst(addr: string): (string, string) {
    var open := LastIndex(addr, OPEN);
    if HasSuffix(addr, ")") && open >= 0 then
      LastIndexFinds(addr, OPEN);
      assert addr[open..open + |OPEN|][1] == '(' && addr[|addr| - 1..][0] == ')';
      (addr[..open], addr[open + |OPEN|..|addr| - 1])
    else ("", addr)
  }

  /** A trimmed destination whose port comes after the colon at the given place. */
  function ParseAt(lib: Lib, s: string, colon: nat): Result<(string, IP, uint16), ParseError>
    requires colon < |s|
  {
    var port := ParseUint(s[colon + 1..], MAX_U16);
    if port.None? then Err(InvalidNumber("port"))
    else
      var (domain, text) := SplitDst(s[..colon]);
      var ip := ParseIP(lib, text);
      if ip.None? then Err(InvalidIP) else Ok((domain, ip.value, port.value))
  }

  function ParseDst(lib: Lib, dst: string): Result<(string, IP, uint16), ParseError> {
    var s := TrimSpace(dst);
    var colon := LastIndex(s, ":");
    if colon < 0 then Err(MissingPort) else ParseAt(lib, s, colon)
  }

  /** The fields before the last " dst=" and the destination after it. */
  function ParseParts(lib: Lib, head: string, tail: string): Result<Event, ParseError> {
    var f :- CutHead(head);
    var pid, tgid := ParseUint(f.pid, MAX_U32), ParseUint(f.tgid, MAX_U32);
    if pid.None? then Err(InvalidNumber("pid"))
    else if tgid.None? then Err(InvalidNumber("tgid"))
    else
      var (domain, ip, port) :- ParseDst(lib, tail);
      if f.verdict == "" then Err(EmptyVerdict)
      else
        Ok(Event(Sanitize(lib, f.verdict, MAX_DOMAIN), pid.value, tgid.value,
                 Sanitize(lib, f.comm, MAX_COMM), Sanitize(lib, domain, MAX_DOMAIN), Some(ip), port))
  }

  function ParseLine(lib: Lib, line: string): Result<Event, ParseError> {
    var s := TrimNewlines(line);
    if !(PREFIX <= s) then Err(NotAVerdictLine)
    else
      var dstAt := LastIndex(s, DST);
      if dstAt < 0 then Err(MissingField(DST)) else ParseParts(lib, s[..dstAt], s[dstAt + |DST|..])
  }

  // ---------------------------------------------------------------- the markers

  lemma Markers()
    ensures IsFieldMarker(PID) && IsFieldMarker(TGID) && IsFieldMarker(COMM)
    ensures IsFieldMarker(DST) && IsFieldMarker(OPEN)
    ensures IsMarker(":")
  {
  }

  /** Cutting a padded value that is free of the marker that follows it. */
  lemma CutPadded(key: string, value: string, width: nat, next: string, rest: string)
    requires IsFieldMarker(next) && Free(value, next) && next <= rest
    ensures CutField(Field(key, value, width, rest), key, next) == Ok((TrimSpace(value), rest))
  {
    var p := Pad(value, width);
    var s := Field(key, value, width, rest);
    assert s[|key|..] == p + rest;
    assert rest == next + rest[|next|..];
    assert p + rest == p + next + rest[|next|..];
    FirstMarker(value, width, next, rest[|next|..]);
    assert (p + rest)[..|p|] == p;
    assert (p + rest)[|p|..] == rest;
    TrimPadded(value, width);
  }

  lemma CutNext(k0: string, v0: string, w0: nat, k1: string, v1: string, w1: nat, rest: string)
    requires IsFieldMarker(k1) && Free(v0, k1)
    ensures var after := Field(k1, v1, w1, rest);
            CutField(Field(k0, v0, w0, after), k0, k1) == Ok((TrimSpace(v0), after))
  {
    CutPadded(k0, v0, w0, k1, Field(k1, v1, w1, rest));
  }

  lemma LastField(key: string, value: string, width: nat)
    ensures key <= Field(key, value, width, "")
    ensures TrimSpace(Field(key, value, width, "")[|key|..]) == TrimSpace(value)
  {
    assert Field(key, value, width, "")[|key|..] == Pad(value, width);
    TrimPadded(value, width);
  }

  lemma CutCompose(k0: string, k1: string, k2: string, k3: string, h0: string, h1: string, h2: string, h3: string,
                   v0: string, v1: string, v2: string)
    requires CutField(h0, k0, k1) == Ok((v0, h1))
    requires CutField(h1, k1, k2) == Ok((v1, h2))
    requires CutField(h2, k2, k3) == Ok((v2, h3)) && k3 <= h3
    ensures CutFields(h0, k0, k1, k2, k3) == Ok(Fields(v0, v1, v2, TrimSpace(h3[|k3|..])))
  {
  }

  /** The leading fields of a printed line, when the verdict does not hold the next marker. */
  lemma CutPrintedHead(ev: Event)
    requires Free(ev.verdict, PID)
    ensures CutHead(Head(ev))
         == Ok(Fields(TrimSpace(ev.verdict), Decimal(ev.pid), Decimal(ev.tgid), TrimSpace(ev.comm)))
  {
    var comm := Field(COMM, ev.comm, 16, "");
    var tgid := Field(TGID, Decimal(ev.tgid), 6, comm);
    var pid := Field(PID, Decimal(ev.pid), 6, tgid);
    Markers();
    DecimalPlain(ev.pid, TGID);
    DecimalPlain(ev.tgid, COMM);
    CutNext(PREFIX, ev.verdict, 20, PID, Decimal(ev.pid), 6, tgid);
    CutNext(PID, Decimal(ev.pid), 6, TGID, Decimal(ev.tgid), 6, comm);
    CutNext(TGID, Decimal(ev.tgid), 6, COMM, ev.comm, 16, "");
    LastField(COMM, ev.comm, 16);
    CutCompose(PREFIX, PID, TGID, COMM, Head(ev), pid, tgid, comm,
               TrimSpace(ev.verdict), Decimal(ev.pid), Decimal(ev.tgid));
  }

  // ---------------------------------------------------------------- the destination

  lemma {:induction false} TrimLeftConcat(r: string, x: string)
    ensures TrimLeft(r + x) == if TrimLeft(r) != "" then TrimLeft(r) + x else TrimLeft(x)
  {
    if r == "" {
      assert r + x == x;
    } else if IsSpace(r[0]) {
      assert (r + x)[1..] == r[1..] + x;
      TrimLeftConcat(r[1..], x);
    }
  }

  /** The part of the destination after any domain: it ends in a digit, so only its left is trimmed. */
  lemma TrimBeforePort(y: string, port: uint16)
    ensures TrimSpace(y + ":" + Decimal(port)) == TrimLeft(y + ":" + Decimal(port))
  {
    var s := y + ":" + Decimal(port);
    assert s[|s| - 1] == Decimal(port)[|Decimal(port)| - 1];
    TrimOnlyLeft(s);
  }

  lemma CutPort(y: string, port: uint16)
    ensures var s := y + ":" + Decimal(port);
            var colon := LastIndex(s, ":");
            colon == |y| && s[..colon] == y && s[colon + 1..] == Decimal(port)
            && ParseUint(s[colon + 1..], MAX_U16) == Some(port)
  {
    Markers();
    DecimalPlain(port, ":");
    LastMarker(y, ":", Decimal(port));
  }

  /** What is parsed once the text before the port is known. */
  lemma ParseTrimmed(lib: Lib, dst: string, y: string, port: uint16)
    requires TrimSpace(dst) == y + ":" + Decimal(port)
    ensures ParseDst(lib, dst) ==
              match ParseIP(lib, SplitDst(y).1)
              case Some(ip) => Ok((SplitDst(y).0, ip, port))
              case None => Err(InvalidIP)
  {
    CutPort(y, port);
  }

  /** Address text as it stands in the destination. */
  predicate PlainText(t: string) {
    t != "" && !IsSpace(t[0]) && t[|t| - 1] != ')' && ' ' !in t
  }

  lemma SplitNamed(r: string, t: string)
    requires PlainText(t)
    ensures SplitDst(Bracketed(r, t)) == (r, t)
  {
    Markers();
    FreeOfFirst(t + ")", OPEN);
    LastMarker(r, OPEN, t + ")");
    var addr := r + OPEN + (t + ")");
    assert addr[|addr| - 1..] == ")";
    assert addr[..|r|] == r && addr[|r| + 2..|addr| - 1] == t;
  }

  lemma SplitBare(t: string)
    requires PlainText(t)
    ensures SplitDst(t) == ("", t)
    ensures SplitDst("(" + t + ")") == ("", "(" + t + ")")
  {
    assert t[|t| - 1..][0] != ')';
    FreeOfFirst("(" + t + ")", OPEN);
    LastIndexFinds("(" + t + ")", OPEN);
  }

  lemma ParseBareDst(lib: Lib, t: string, port: uint16)
    requires PlainText(t)
    ensures ParseDst(lib, t + ":" + Decimal(port)) ==
              match ParseIP(lib, t) case Some(ip) => Ok(("", ip, port)) case None => Err(InvalidIP)
  {
    var dst := t + ":" + Decimal(port);
    TrimBeforePort(t, port);
    assert dst[0] == t[0];
    ParseTrimmed(lib, dst, t, port);
    SplitBare(t);
  }

  lemma TrimOpen(x: string)
    requires x != "" && !IsSpace(x[0])
    ensures TrimLeft(" " + x) == x
  {
    assert (" " + x)[1..] == x;
  }

  lemma NamedAssoc(r: string, t: string, d: string)
    ensures Bracketed(r, t) + ":" + d == r + (" " + ("(" + t + ")" + ":" + d))
  {
  }

  lemma TrimNamed(r: string, t: string, port: uint16)
    requires PlainText(t)
    ensures TrimSpace(Bracketed(r, t) + ":" + Decimal(port))
         == (if TrimLeft(r) != "" then Bracketed(TrimLeft(r), t) else "(" + t + ")") + ":" + Decimal(port)
  {
    var y := "(" + t + ")" + ":" + Decimal(port);
    assert y[0] == '(';
    TrimBeforePort(Bracketed(r, t), port);
    NamedAssoc(r, t, Decimal(port));
    TrimLeftConcat(r, " " + y);
    TrimOpen(y);
    NamedAssoc(TrimLeft(r), t, Decimal(port));
  }

  /** With a name in front: what precedes the address, without its leading blanks. */
  lemma ParseNamedDst(lib: Lib, r: string, t: string, port: uint16)
    requires PlainText(t)
    ensures var res := ParseDst(lib, Bracketed(r, t) + ":" + Decimal(port));
            var text := if TrimLeft(r) != "" then t else "(" + t + ")";
            res == match ParseIP(lib, text)
                   case Some(ip) => Ok((TrimLeft(r), ip, port))
                   case None => Err(InvalidIP)
  {
    var dst := Bracketed(r, t) + ":" + Decimal(port);
    TrimNamed(r, t, port);
    if TrimLeft(r) != "" {
      ParseTrimmed(lib, dst, Bracketed(TrimLeft(r), t), port);
      SplitNamed(TrimLeft(r), t);
    } else {
      ParseTrimmed(lib, dst, "(" + t + ")", port);
      SplitBare(t);
    }
  }
}
