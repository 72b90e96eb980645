/**
 * Scanning an agent log: the reader's line splitting, the mode of the startup diagnostic, and
 * the loop that hands every verdict line that parses to the collector.
 */
module ScanLog {
  import opened Basics
  import opened Strings
  import opened Net
  import opened LogLine
  import opened Collector

  const LINE_LIMIT: nat := 0x10_0000 // bytes
  const MAX_MODE: nat := 64
  const MODE_MARKER := "msg=\"watching outbound connections"
  const MODE_KEY := " mode="

  // ---------------------------------------------------------------- lines

  /** Bytes of a rune in UTF-8. */
  function RuneBytes(c: char): (n: nat)
    ensures 1 <= n <= 4
  {
    if c < '\U{80}' then 1 else if c < '\U{800}' then 2 else if c < '\U{10000}' then 3 else 4
  }

  function Bytes(s: string): (n: nat)
    ensures |s| <= n <= 4 * |s|
  {
    if s == "" then 0 else Bytes(s[..|s| - 1]) + RuneBytes(s[|s| - 1])
  }

  /** The lines of a text without their line feeds; an unfinished last line counts. */
  function RawLines(text: string): seq<string>
    decreases |text|
  {
    if text == "" then []
    else
      var i := Index(text, "\n");
      if i < 0 then [text] else [text[..i]] + RawLines(text[i + 1..])
  }

  function DropCR(line: string): string {
    if line != "" && line[|line| - 1] == '\r' then line[..|line| - 1] else line
  }

  predicate TooLong(raw: string) {
    Bytes(raw) >= LINE_LIMIT
  }

  /** What the reader delivers: it stops for good at the first line over the limit. */
  function Readable(raws: seq<string>): seq<string> {
    if raws == [] || TooLong(raws[0]) then [] else [DropCR(raws[0])] + Readable(raws[1..])
  }

  // ---------------------------------------------------------------- the mode

  /** The effective mode a startup diagnostic carries, quoted or not. */
  function ParseModeLine(lib: Lib, line: string): Option<string> {
    var i := Index(line, MODE_KEY);
    if !Contains(line, MODE_MARKER) || i < 0 then None
    else
      var v := line[i + |MODE_KEY|..];
      var m := if "\"" <= v then Before(v[1..], "\"") else Before(v, " ");
      var mode := Sanitize(lib, TrimSpace(m), MAX_MODE);
      if mode == "" then None else Some(mode)
  }

  /** The text in front of the first occurrence, or all of it. */
  function Before(s: string, m: string): string {
    if Index(s, m) < 0 then s else s[..Index(s, m)]
  }

  // ---------------------------------------------------------------- the scan

  datatype Scan = Scan(mode: string, malformed: nat, events: seq<Event>)

  function ScanLine(lib: Lib, st: Scan, line: string): Scan {
    if PREFIX <= line then
      match ParseLine(lib, line)
      case Ok(e) => st.(events := st.events + [e])
      case Err(_) => st.(malformed := st.malformed + 1)
    else
      match ParseModeLine(lib, line)
      case Some(m) => if st.mode == "" then st.(mode := m) else st
      case None => st
  }

  function ScanLines(lib: Lib, lines: seq<string>): Scan {
    if lines == [] then Scan("", 0, [])
    else ScanLine(lib, ScanLines(lib, lines[..|lines| - 1]), lines[|lines| - 1])
  }

  lemma ScanNext(lib: Lib, lines: seq<string>, n: nat)
    requires n < |lines|
    ensures ScanLines(lib, lines[..n + 1]) == ScanLine(lib, ScanLines(lib, lines[..n]), lines[n])
  {
    assert lines[..n + 1][..n] == lines[..n];
  }

  lemma ScanAppend(lib: Lib, lines: seq<string>, line: string)
    ensures ScanLines(lib, lines + [line]) == ScanLine(lib, ScanLines(lib, lines), line)
  {
    assert (lines + [line])[..|lines|] == lines;
  }

  /** One turn of the loop; st is the scan so far, which started from the history base. */
  method ScanOne(ghost base: seq<Event>, ghost st: Scan, mode: string, malformed: nat, line: string, c: Collector)
    returns (mode': string, malformed': nat, ghost st': Scan)
    requires c.Valid() && st.mode == mode && st.malformed == malformed && c.history == base + st.events
    modifies c
    ensures c.Valid() && c.mode == old(c.mode) && c.malformed == old(c.malformed)
    ensures st' == ScanLine(c.lib, st, line) && mode' == st'.mode && malformed' == st'.malformed
    ensures c.history == base + st'.events
  {
    mode', malformed', st' := mode, malformed, ScanLine(c.lib, st, line);
    if PREFIX <= line {
      var ev := ParseLine(c.lib, line);
      if ev.Err? {
        malformed' := malformed + 1;
      } else {
        c.Add(ev.value);
        assert base + st'.events == base + st.events + [ev.value];
      }
    } else {
      var m := ParseModeLine(c.lib, line);
      if m.Some? && mode == "" {
        mode' := m.value;
      }
    }
  }

  /**
   * ScanLog with Collector.Add as its callback: the collector receives exactly the events of
   * the lines the reader delivers, in order; ok is false when the reader gave up on a line.
   */
  method ScanLog(text: string, c: Collector) returns (mode: string, malformed: nat, ok: bool)
    requires c.Valid()
    modifies c
    ensures c.Valid() && c.mode == old(c.mode) && c.malformed == old(c.malformed)
    ensures var r := ScanLines(c.lib, Readable(RawLines(text)));
            mode == r.mode && malformed == r.malformed && c.history == old(c.history) + r.events
    ensures ok <==> |Readable(RawLines(text))| == |RawLines(text)|
  {
    var raws := RawLines(text);
    var lines := Readable(raws);
    mode, malformed := ScanDelivered(lines, c);
    ok := |lines| == |raws|;
  }

  /** Its loop over the lines the reader delivers. */
  method ScanDelivered(lines: seq<string>, c: Collector) returns (mode: string, malformed: nat)
    requires c.Valid()
    modifies c
    ensures c.Valid() && c.mode == old(c.mode) && c.malformed == old(c.malformed)
    ensures var r := ScanLines(c.lib, lines);
            mode == r.mode && malformed == r.malformed && c.history == old(c.history) + r.events
  {
    mode, malformed := "", 0;
    ghost var st := Scan("", 0, []);
    for n := 0 to |lines|
      invariant c.Valid() && c.mode == old(c.mode) && c.malformed == old(c.malformed)
      invariant st == ScanLines(c.lib, lines[..n]) && mode == st.mode && malformed == st.malformed
      invariant c.history == old(c.history) + st.events
    {
      ScanNext(c.lib, lines, n);
      mode, malformed, st := ScanOne(old(c.history), st, mode, malformed, lines[n], c);
    }
    assert lines[..|lines|] == lines;
  }

  /** A line has its bytes in UTF-8: one to four a rune, by the range it is in. */
  lemma BytesByRange(s: string, c: char)
    ensures Bytes(s + [c]) == Bytes(s)
              + if c as int < 128 then 1 else if c as int < 2048 then 2 else if c as int < 65536 then 3 else 4
    ensures Bytes("") == 0
  {
    assert (s + [c])[..|s|] == s;
  }

  lemma {:induction false} ReadsPrefix(raws: seq<string>)
    ensures |Readable(raws)| <= |raws|
    ensures forall i :: 0 <= i < |Readable(raws)| ==> !TooLong(raws[i]) && Readable(raws)[i] == DropCR(raws[i])
    ensures |Readable(raws)| < |raws| ==> TooLong(raws[|Readable(raws)|])
  {
    if raws != [] && !TooLong(raws[0]) {
      var rest := Readable(raws[1..]);
      ReadsPrefix(raws[1..]);
      assert Readable(raws) == [DropCR(raws[0])] + rest;
      forall i | 0 <= i < |rest| ensures !TooLong(raws[i + 1]) && rest[i] == DropCR(raws[i + 1]) {
        assert raws[1..][i] == raws[i + 1];
      }
    }
  }

  lemma TooLongMeans(raw: string)
    ensures TooLong(raw) <==> Bytes(raw) >= 1048576
  {
  }

  /**
   * The reader delivers the lines up to the first of a mebibyte or more, in order, without the
   * carriage return one may end in; so all of them exactly when every line is shorter.
   */
  lemma ReadsAll(raws: seq<string>)
    ensures |Readable(raws)| <= |raws|
    ensures forall i :: 0 <= i < |Readable(raws)| ==> Bytes(raws[i]) < 1048576 && Readable(raws)[i] == DropCR(raws[i])
    ensures |Readable(raws)| < |raws| ==> Bytes(raws[|Readable(raws)|]) >= 1048576
    ensures |Readable(raws)| == |raws| <==> forall raw :: raw in raws ==> Bytes(raw) < 1048576
  {
    ReadsPrefix(raws);
    forall i | 0 <= i < |raws| ensures TooLong(raws[i]) <==> Bytes(raws[i]) >= 1048576 {
      TooLongMeans(raws[i]);
    }
    if |Readable(raws)| < |raws| {
      assert raws[|Readable(raws)|] in raws;
    }
  }

  // ---------------------------------------------------------------- conservation

  function VerdictLines(lines: seq<string>): nat {
    if lines == [] then 0
    else VerdictLines(lines[..|lines| - 1]) + if PREFIX <= lines[|lines| - 1] then 1 else 0
  }

  /** Every verdict line is either delivered or counted as malformed. */
  lemma {:induction false} NoLineIsLost(lib: Lib, lines: seq<string>)
    ensures var r := ScanLines(lib, lines); |r.events| + r.malformed == VerdictLines(lines)
  {
    if lines != [] {
      NoLineIsLost(lib, lines[..|lines| - 1]);
    }
  }
}
