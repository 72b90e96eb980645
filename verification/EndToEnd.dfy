/** From the agent's output to the report: what a log of printed events is read back as. */
module EndToEnd {
  import opened Basics
  import opened Strings
  import opened Net
  import opened Policy
  import opened Verdict
  import opened LogLine
  import opened RoundTrip
  import opened Ordering
  import opened Summary
  import opened ScanLog
  import opened LineText

  /** One line of the log file: a printed event, or a diagnostic. */
  datatype Item = Printed(ev: Event) | Noise(line: string)

  function LineOf(lib: Lib, item: Item): string {
    match item case Printed(ev) => Print(lib, ev) case Noise(line) => line
  }

  function Unlines(lines: seq<string>): string {
    if lines == [] then "" else lines[0] + "\n" + Unlines(lines[1..])
  }

  /** The log file: one line an item. */
  function Render(lib: Lib, items: seq<Item>): string {
    Unlines(seq(|items|, i requires 0 <= i < |items| => LineOf(lib, items[i])))
  }

  function EventsOf(items: seq<Item>): seq<Event> {
    if items == [] then []
    else
      var front, last := EventsOf(items[..|items| - 1]), items[|items| - 1];
      match last case Printed(ev) => front + [ev] case Noise(_) => front
  }

  /** Events that survive their line, and diagnostics that are lines of readable length. */
  ghost predicate Fine(lib: Lib, item: Item) {
    match item
    case Printed(ev) => Representable(lib, ev)
    case Noise(line) => '\n' !in line && !(PREFIX <= line) && !TooLong(line)
  }

  // ---------------------------------------------------------------- one line

  lemma {:induction false} DecimalWidth(n: nat, k: nat)
    requires k >= 1 && n < Pow10(k)
    ensures |Decimal(n)| <= k
  {
    if n >= 10 {
      DecimalWidth(n / 10, k - 1);
    }
  }

  function Pow10(k: nat): nat {
    if k == 0 then 1 else 10 * Pow10(k - 1)
  }

  lemma NumberWidth(n: nat)
    requires n <= MAX_U32
    ensures |Decimal(n)| <= 10
  {
    assert Pow10(3) == 1000;
    assert Pow10(6) == 1_000_000;
    assert Pow10(8) == 100_000_000;
    assert Pow10(10) == 10_000_000_000;
    DecimalWidth(n, 10);
  }

  lemma TextWidth(lib: Lib, ip: IP)
    requires Lawful(lib)
    ensures |IPString(lib, ip)| <= 43
  {
    if To4(ip).Some? {
      var b := To4(ip).value;
      NumberWidth(b[0] as nat);
      NumberWidth(b[1] as nat);
      NumberWidth(b[2] as nat);
      NumberWidth(b[3] as nat);
    }
  }

  lemma PrintWidth(lib: Lib, ev: Event)
    requires Lawful(lib) && Representable(lib, ev)
    ensures |Print(lib, ev)| <= 1000
  {
    NumberWidth(ev.pid);
    NumberWidth(ev.tgid);
    NumberWidth(ev.port);
    TextWidth(lib, ev.ip.value);
    assert |Head(ev)| <= 400;
    assert |Tail(lib, ev)| <= 400;
  }

  lemma CleanHasNoFeed(lib: Lib, s: string, max: nat)
    requires Lawful(lib) && Clean(lib, s, max)
    ensures '\n' !in s
  {
  }

  lemma FieldHasNoFeed(key: string, value: string, width: nat, rest: string)
    requires '\n' !in key && '\n' !in value && '\n' !in rest
    ensures '\n' !in Field(key, value, width, rest)
  {
  }

  lemma HeadHasNoFeed(ev: Event)
    requires '\n' !in ev.verdict && '\n' !in ev.comm
    ensures '\n' !in Head(ev)
  {
    var comm := Field(COMM, ev.comm, 16, "");
    var tgid := Field(TGID, Decimal(ev.tgid), 6, comm);
    FieldHasNoFeed(COMM, ev.comm, 16, "");
    FieldHasNoFeed(TGID, Decimal(ev.tgid), 6, comm);
    FieldHasNoFeed(PID, Decimal(ev.pid), 6, tgid);
    FieldHasNoFeed(PREFIX, ev.verdict, 20, Field(PID, Decimal(ev.pid), 6, tgid));
  }

  lemma TailHasNoFeed(lib: Lib, ev: Event)
    requires '\n' !in ev.domain && '\n' !in IPText(lib, ev.ip)
    ensures '\n' !in Tail(lib, ev)
  {
  }

  /** No line feed in any part of a printed line. */
  lemma NoLineFeed(lib: Lib, ev: Event)
    requires Lawful(lib) && Representable(lib, ev)
    ensures '\n' !in Print(lib, ev)
  {
    CleanHasNoFeed(lib, ev.verdict, MAX_DOMAIN);
    CleanHasNoFeed(lib, ev.comm, MAX_COMM);
    CleanHasNoFeed(lib, ev.domain, MAX_DOMAIN);
    IPTextPlain(lib, ev.ip.value);
    HeadHasNoFeed(ev);
    TailHasNoFeed(lib, ev);
    JoinHasNoFeed(Head(ev), DST, Tail(lib, ev));
  }

  lemma JoinHasNoFeed(a: string, b: string, c: string)
    requires '\n' !in a && '\n' !in b && '\n' !in c
    ensures '\n' !in a + b + c
  {
  }

  lemma NoCRToDrop(head: string, tail: string)
    requires tail != "" && IsDigit(tail[|tail| - 1])
    ensures DropCR(head + DST + tail) == head + DST + tail
  {
    var s := head + DST + tail;
    assert s[|s| - 1] == tail[|tail| - 1];
  }

  lemma ShortIsNotTooLong(s: string)
    requires |s| <= 1000
    ensures !TooLong(s)
  {
  }

  lemma PrintedLine(lib: Lib, ev: Event)
    requires Lawful(lib) && Representable(lib, ev)
    ensures '\n' !in Print(lib, ev) && !TooLong(Print(lib, ev)) && DropCR(Print(lib, ev)) == Print(lib, ev)
    ensures PREFIX <= Print(lib, ev)
  {
    NoLineFeed(lib, ev);
    PrintWidth(lib, ev);
    ShortIsNotTooLong(Print(lib, ev));
    TailEnd(lib, ev);
    NoCRToDrop(Head(ev), Tail(lib, ev));
    HeadStarts(ev);
  }

  // ---------------------------------------------------------------- all lines

  function DeliveredOf(lib: Lib, items: seq<Item>): seq<string> {
    seq(|items|, i requires 0 <= i < |items| => DropCR(LineOf(lib, items[i])))
  }

  lemma ReadableCons(raw: string, rest: seq<string>)
    requires !TooLong(raw)
    ensures Readable([raw] + rest) == [DropCR(raw)] + Readable(rest)
  {
    assert ([raw] + rest)[1..] == rest;
  }

  lemma FineLine(lib: Lib, item: Item)
    requires Lawful(lib) && Fine(lib, item)
    ensures '\n' !in LineOf(lib, item) && !TooLong(LineOf(lib, item))
  {
    if item.Printed? {
      PrintedLine(lib, item.ev);
    }
  }

  lemma {:induction false} LinesOfUnlines(lines: seq<string>)
    requires forall l :: l in lines ==> '\n' !in l
    ensures RawLines(Unlines(lines)) == lines
  {
    if lines != [] {
      assert lines == [lines[0]] + lines[1..] && lines[0] in lines;
      LinesOfUnlines(lines[1..]);
      LineEnds(lines[0], Unlines(lines[1..]));
    }
  }

  function Delivered(lines: seq<string>): seq<string> {
    seq(|lines|, i requires 0 <= i < |lines| => DropCR(lines[i]))
  }

  lemma DeliveredCons(line: string, rest: seq<string>)
    ensures Delivered([line] + rest) == [DropCR(line)] + Delivered(rest)
  {
  }

  lemma {:induction false} ReadsUnlines(lines: seq<string>)
    requires forall l :: l in lines ==> !TooLong(l)
    ensures Readable(lines) == Delivered(lines)
  {
    if lines != [] {
      var line, rest := lines[0], lines[1..];
      assert lines == [line] + rest && line in lines;
      ReadsUnlines(rest);
      ReadableCons(line, rest);
      DeliveredCons(line, rest);
    }
  }

  lemma RenderedLines(lib: Lib, items: seq<Item>)
    requires Lawful(lib) && forall item :: item in items ==> Fine(lib, item)
    ensures Readable(RawLines(Render(lib, items))) == DeliveredOf(lib, items)
    ensures |RawLines(Render(lib, items))| == |items|
  {
    var lines := seq(|items|, i requires 0 <= i < |items| => LineOf(lib, items[i]));
    forall i | 0 <= i < |items| ensures '\n' !in lines[i] && !TooLong(lines[i]) {
      FineLine(lib, items[i]);
    }
    LinesOfUnlines(lines);
    ReadsUnlines(lines);
  }

  /** The first mode of a list, or empty when there is none. */
  ghost predicate IsFirst(modes: seq<Option<string>>, mode: string) {
    || (mode == "" && forall i :: 0 <= i < |modes| ==> modes[i].None?)
    || (exists i :: 0 <= i < |modes| && modes[i] == Some(mode) && forall j :: 0 <= j < i ==> modes[j].None?)
  }

  /** What each line says of the mode. */
  function Modes(lib: Lib, items: seq<Item>): seq<Option<string>> {
    seq(|items|, i requires 0 <= i < |items| => ModeOf(lib, items[i]))
  }

  function ModeOf(lib: Lib, item: Item): Option<string> {
    match item case Printed(_) => None case Noise(line) => ParseModeLine(lib, DropCR(line))
  }

  function NormalAll(h: seq<Event>): (r: seq<Event>)
    ensures |r| == |h|
  {
    seq(|h|, i requires 0 <= i < |h| => Normal(h[i]))
  }

  lemma NormalAppend(h: seq<Event>, e: Event)
    ensures NormalAll(h + [e]) == NormalAll(h) + [Normal(e)]
  {
  }

  lemma ModeStep(modes: seq<Option<string>>, last: Option<string>, mode: string)
    requires IsFirst(modes, mode) && forall m :: m in modes ==> m != Some("")
    ensures IsFirst(modes + [last], if mode == "" && last.Some? then last.value else mode)
  {
    var all := modes + [last];
    assert all[|modes|] == last;
    if mode != "" {
      var i :| 0 <= i < |modes| && modes[i] == Some(mode) && forall j :: 0 <= j < i ==> modes[j].None?;
      assert all[i] == Some(mode) && forall j :: 0 <= j < i ==> all[j] == modes[j];
    } else {
      forall i | 0 <= i < |modes| ensures modes[i] != Some("") {
        assert modes[i] in modes;
      }
    }
  }

  lemma ModeIsNotEmpty(lib: Lib, item: Item)
    ensures ModeOf(lib, item).Some? ==> ModeOf(lib, item).value != ""
  {
  }

  /** One more line of the log. */
  lemma ItemStep(lib: Lib, st: Scan, item: Item)
    requires Lawful(lib) && Fine(lib, item)
    ensures ScanLine(lib, st, DropCR(LineOf(lib, item))) ==
              match item
              case Printed(ev) => st.(events := st.events + [Normal(ev)])
              case Noise(_) =>
                if st.mode == "" && ModeOf(lib, item).Some? then st.(mode := ModeOf(lib, item).value) else st
  {
    match item
    case Printed(ev) =>
      PrintedLine(lib, ev);
      RoundTripExactly(lib, ev);
    case Noise(line) =>
  }

  /** What a scan of the items so far must have found. */
  ghost predicate Found(lib: Lib, items: seq<Item>, st: Scan) {
    st.events == NormalAll(EventsOf(items)) && st.malformed == 0 && IsFirst(Modes(lib, items), st.mode)
  }

  lemma ModesAppend(lib: Lib, items: seq<Item>, last: Item, mode: string)
    requires IsFirst(Modes(lib, items), mode)
    ensures var m := ModeOf(lib, last);
            IsFirst(Modes(lib, items + [last]), if mode == "" && m.Some? then m.value else mode)
  {
    var modes := Modes(lib, items);
    assert Modes(lib, items + [last]) == modes + [ModeOf(lib, last)];
    forall i | 0 <= i < |modes| ensures modes[i] != Some("") {
      ModeIsNotEmpty(lib, items[i]);
    }
    ModeStep(modes, ModeOf(lib, last), mode);
  }

  lemma FoundStep(lib: Lib, items: seq<Item>, last: Item, st: Scan, n: Scan)
    requires Found(lib, items, st)
    requires n == match last
                  case Printed(ev) => st.(events := st.events + [Normal(ev)])
                  case Noise(_) =>
                    if st.mode == "" && ModeOf(lib, last).Some? then st.(mode := ModeOf(lib, last).value) else st
    ensures Found(lib, items + [last], n)
  {
    assert (items + [last])[..|items|] == items;
    ModesAppend(lib, items, last, st.mode);
    match last
    case Printed(ev) => NormalAppend(EventsOf(items), ev);
    case Noise(_) =>
  }

  lemma {:induction false} ScanItems(lib: Lib, items: seq<Item>)
    requires Lawful(lib) && forall item :: item in items ==> Fine(lib, item)
    ensures Found(lib, items, ScanLines(lib, DeliveredOf(lib, items)))
  {
    if items != [] {
      var front, last := items[..|items| - 1], items[|items| - 1];
      assert items == front + [last] && last in items;
      ScanItems(lib, front);
      var lines, line := DeliveredOf(lib, front), DropCR(LineOf(lib, last));
      assert DeliveredOf(lib, items) == lines + [line];
      ScanAppend(lib, lines, line);
      ScanOneItem(lib, front, last, ScanLines(lib, lines));
    }
  }

  lemma ScanOneItem(lib: Lib, front: seq<Item>, last: Item, st: Scan)
    requires Lawful(lib) && Fine(lib, last) && Found(lib, front, st)
    ensures Found(lib, front + [last], ScanLine(lib, st, DropCR(LineOf(lib, last))))
  {
    ItemStep(lib, st, last);
    FoundStep(lib, front, last, st, ScanLine(lib, st, DropCR(LineOf(lib, last))));
  }

  // ---------------------------------------------------------------- the same report

  lemma NormalSays(lib: Lib, e: Event)
    ensures KeyOf(lib, Normal(e)) == KeyOf(lib, e) && Normal(e).comm == e.comm && Normal(e).verdict == e.verdict
  {
    if e.ip.Some? {
      To16Canon(e.ip.value);
      CanonText(lib, e.ip.value);
      CanonText(lib, To16(e.ip.value));
    }
  }

  lemma {:induction false} NormalCounts(lib: Lib, h: seq<Event>, vs: set<string>, ks: set<DestKey>)
    ensures CountVerdicts(NormalAll(h), vs) == CountVerdicts(h, vs)
    ensures CountKeys(lib, NormalAll(h), ks) == CountKeys(lib, h, ks)
  {
    if h != [] {
      NormalCounts(lib, h[..|h| - 1], vs, ks);
      NormalLast(lib, h);
    }
  }

  lemma {:induction false} NormalComms(lib: Lib, h: seq<Event>, k: DestKey)
    ensures Comms(lib, NormalAll(h), k) == Comms(lib, h, k)
  {
    if h != [] {
      NormalComms(lib, h[..|h| - 1], k);
      NormalLast(lib, h);
    }
  }

  lemma NormalLast(lib: Lib, h: seq<Event>)
    requires h != []
    ensures var n, k := NormalAll(h), |h| - 1;
            && n[..k] == NormalAll(h[..k]) && n[k] == Normal(h[k])
            && KeyOf(lib, n[k]) == KeyOf(lib, h[k]) && n[k].comm == h[k].comm && n[k].verdict == h[k].verdict
  {
    NormalSays(lib, h[|h| - 1]);
  }

  lemma NormalIn(lib: Lib, h: seq<Event>, i: nat)
    requires i < |h|
    ensures h[i].verdict in Verdicts(NormalAll(h)) && KeyOf(lib, h[i]) in Keys(lib, NormalAll(h))
    ensures NormalAll(h)[i].verdict in Verdicts(h) && KeyOf(lib, NormalAll(h)[i]) in Keys(lib, h)
  {
    NormalSays(lib, h[i]);
    assert NormalAll(h)[i] in NormalAll(h) && h[i] in h;
  }

  lemma NormalSets(lib: Lib, h: seq<Event>)
    ensures Verdicts(NormalAll(h)) == Verdicts(h) && Keys(lib, NormalAll(h)) == Keys(lib, h)
  {
    var n := NormalAll(h);
    forall e | e in h ensures e.verdict in Verdicts(n) && KeyOf(lib, e) in Keys(lib, n) {
      var i :| 0 <= i < |h| && h[i] == e;
      NormalIn(lib, h, i);
    }
    forall e | e in n ensures e.verdict in Verdicts(h) && KeyOf(lib, e) in Keys(lib, h) {
      var i :| 0 <= i < |n| && n[i] == e;
      NormalIn(lib, h, i);
    }
  }

  lemma NormalRows(lib: Lib, h: seq<Event>, k: DestKey)
    ensures Row(lib, NormalAll(h), k) == Row(lib, h, k)
  {
    NormalCounts(lib, h, {}, {k});
    NormalComms(lib, h, k);
  }

  lemma NormalTally(lib: Lib, h: seq<Event>)
    ensures Tally(NormalAll(h)) == Tally(h)
  {
    NormalSets(lib, h);
    forall v ensures CountVerdicts(NormalAll(h), {v}) == CountVerdicts(h, {v}) {
      NormalCounts(lib, h, {v}, {});
    }
  }

  lemma NormalRowsOf(lib: Lib, h: seq<Event>, rows: seq<DestStat>)
    ensures RowsOf(lib, NormalAll(h), rows) <==> RowsOf(lib, h, rows)
  {
    NormalSets(lib, h);
    forall k ensures Row(lib, NormalAll(h), k) == Row(lib, h, k) {
      NormalRows(lib, h, k);
    }
  }

  /** The report does not see which form an address was in. */
  lemma SameReport(lib: Lib, h: seq<Event>, mode: string, malformed: nat, s: Summary)
    ensures IsSummary(lib, NormalAll(h), mode, malformed, s) <==> IsSummary(lib, h, mode, malformed, s)
  {
    NormalTally(lib, h);
    NormalSets(lib, h);
    NormalRowsOf(lib, h, s.destinations);
  }

  /**
   * End to end: printed representable events, one per line and interleaved with diagnostics,
   * are all delivered, none malformed; the mode is the first diagnostic's; and the summaries
   * of what was scanned are the summaries of the events themselves.
   */
  lemma LogToReport(lib: Lib, items: seq<Item>, mode: string, s: Summary)
    requires Lawful(lib) && forall item :: item in items ==> Fine(lib, item)
    ensures var raws := RawLines(Render(lib, items));
            var r := ScanLines(lib, Readable(raws));
            && |Readable(raws)| == |raws|
            && r.events == NormalAll(EventsOf(items)) && r.malformed == 0 && IsFirst(Modes(lib, items), r.mode)
            && (IsSummary(lib, r.events, mode, r.malformed, s) <==> IsSummary(lib, EventsOf(items), mode, 0, s))
  {
    RenderedLines(lib, items);
    ScanItems(lib, items);
    SameReport(lib, EventsOf(items), mode, 0, s);
  }

  // ---------------------------------------------------------------- the agent's own lines

  lemma PlainVerdictSurvives(lib: Lib, v: string)
    requires Lawful(lib) && IsPlainVerdict(v)
    ensures VerdictSurvives(lib, v)
  {
    assert v[0] in v && v[|v| - 1] in v;
    Markers();
    FreeOfFirst(v, PID);
    forall i | 0 <= i < |v| ensures v[i] != '\U{FFFD}' && lib.isPrint(v[i]) {
      assert v[i] in v;
    }
  }

  lemma KnownVerdictSurvives(lib: Lib, v: string)
    requires Lawful(lib) && v in KNOWN
    ensures VerdictSurvives(lib, v)
  {
    KnownIsPlain();
    PlainVerdictSurvives(lib, v);
  }

  predicate IsPlainVerdict(v: string) {
    0 < |v| <= 20 && forall c :: c in v ==> '!' <= c <= '~'
  }

  lemma KnownIsPlain()
    ensures forall v :: v in KNOWN ==> IsPlainVerdict(v)
  {
    assert IsPlainVerdict(ALLOW);
    assert IsPlainVerdict(DENY_POLICY);
    assert IsPlainVerdict(DENY_NO_DOMAIN);
    assert IsPlainVerdict(SKIP_DNS);
    assert IsPlainVerdict(SKIP_LOOPBACK);
    assert IsPlainVerdict(SKIP_SELF);
  }

  /**
   * The line the agent prints for a connection comes back exactly when the process name and the
   * domain it was given survive: whatever the verdict is, it does.
   */
  lemma AgentLineComesBack(lib: Lib, ev: Event, self: nat, engine: Option<Engine>, resolvers: seq<IP>)
    requires Lawful(lib) && ev.ip.Some?
    requires ev.verdict == VerdictForEvent(lib, ev.tgid, ev.port, ev.ip.value, ev.domain, self, engine, resolvers)
    ensures ParseLine(lib, Print(lib, ev)) == Ok(Normal(ev))
       <==> CommSurvives(lib, ev.comm) && DomainSurvives(lib, ev.domain)
    ensures Fine(lib, Printed(ev)) <==> CommSurvives(lib, ev.comm) && DomainSurvives(lib, ev.domain)
  {
    VerdictIsKnown(lib, ev.tgid, ev.port, ev.ip.value, ev.domain, self, engine, resolvers);
    KnownVerdictSurvives(lib, ev.verdict);
    RoundTripExactly(lib, ev);
  }
}
