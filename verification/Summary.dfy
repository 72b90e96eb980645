/**
 * The collector that aggregates events per destination, and the summary rendered from it.
 * The reference is the history: what each count and each process list says about the
 * sequence of events added so far.
 */
module Summary {
  import opened Basics
  import opened Net
  import opened Verdict
  import opened LogLine
  import opened Sorting
  import opened Ordering

  const MAX_PROCESSES: nat := 10

  datatype DestKey = DestKey(verdict: string, domain: string, ip: string, port: nat)

  datatype DestAgg = DestAgg(count: nat, procs: seq<string>, procSeen: set<string>, procsMore: nat)

  datatype Summary = Summary(
    mode: string, total: nat, malformed: nat, byVerdict: map<string, nat>,
    destinations: seq<DestStat>, suggested: seq<string>)

  /** Event.IPString: empty when the address is nil. */
  function EventIP(lib: Lib, e: Event): string {
    match e.ip case Some(a) => IPString(lib, a) case None => ""
  }

  function KeyOf(lib: Lib, e: Event): DestKey {
    DestKey(e.verdict, e.domain, EventIP(lib, e), e.port)
  }

  // ---------------------------------------------------------------- the history

  /** How many events have one of these verdicts. */
  function CountVerdicts(h: seq<Event>, vs: set<string>): nat {
    if h == [] then 0
    else CountVerdicts(h[..|h| - 1], vs) + if h[|h| - 1].verdict in vs then 1 else 0
  }

  /** How many events have one of these keys. */
  function CountKeys(lib: Lib, h: seq<Event>, ks: set<DestKey>): nat {
    if h == [] then 0
    else CountKeys(lib, h[..|h| - 1], ks) + if KeyOf(lib, h[|h| - 1]) in ks then 1 else 0
  }

  /** The distinct non-empty comms of a key's events, in order of first appearance. */
  function Comms(lib: Lib, h: seq<Event>, k: DestKey): seq<string> {
    if h == [] then []
    else
      var front, last := Comms(lib, h[..|h| - 1], k), h[|h| - 1];
      if KeyOf(lib, last) == k && last.comm != "" && last.comm !in front then front + [last.comm] else front
  }

  function Verdicts(h: seq<Event>): set<string> {
    set e | e in h :: e.verdict
  }

  function Keys(lib: Lib, h: seq<Event>): set<DestKey> {
    set e | e in h :: KeyOf(lib, e)
  }

  function Capped(c: seq<string>): seq<string> {
    if |c| <= MAX_PROCESSES then c else c[..MAX_PROCESSES]
  }

  function Elements(c: seq<string>): set<string> {
    set x | x in c
  }

  function AggOf(lib: Lib, h: seq<Event>, k: DestKey): DestAgg {
    var c := Comms(lib, h, k);
    DestAgg(CountKeys(lib, h, {k}), Capped(c), Elements(c), |c| - |Capped(c)|)
  }

  function Tally(h: seq<Event>): map<string, nat> {
    map v | v in Verdicts(h) :: CountVerdicts(h, {v})
  }

  function Aggregates(lib: Lib, h: seq<Event>): map<DestKey, DestAgg> {
    map k | k in Keys(lib, h) :: AggOf(lib, h, k)
  }

  // ---------------------------------------------------------------- one more event

  lemma AppendSlices(h: seq<Event>, e: Event)
    ensures (h + [e])[..|h|] == h && (h + [e])[|h|] == e
  {
  }

  lemma VerdictsAppend(h: seq<Event>, e: Event)
    ensures Verdicts(h + [e]) == Verdicts(h) + {e.verdict}
  {
    assert forall x :: x in h + [e] <==> x in h || x == e;
  }

  lemma CountAppend(h: seq<Event>, e: Event, v: string)
    ensures CountVerdicts(h + [e], {v}) == CountVerdicts(h, {v}) + if e.verdict == v then 1 else 0
  {
    AppendSlices(h, e);
  }

  lemma TallyStep(h: seq<Event>, e: Event)
    ensures var t := Tally(h);
            Tally(h + [e]) == t[e.verdict := (if e.verdict in t then t[e.verdict] else 0) + 1]
  {
    VerdictsAppend(h, e);
    if e.verdict !in Verdicts(h) {
      NoSuchVerdict(h, e.verdict);
    }
    forall v ensures CountVerdicts(h + [e], {v}) == CountVerdicts(h, {v}) + if e.verdict == v then 1 else 0 {
      CountAppend(h, e, v);
    }
  }

  lemma {:induction false} NoSuchVerdict(h: seq<Event>, v: string)
    requires v !in Verdicts(h)
    ensures CountVerdicts(h, {v}) == 0
  {
    if h != [] {
      assert h[|h| - 1] in h;
      NoSuchVerdict(h[..|h| - 1], v);
    }
  }

  lemma {:induction false} NoSuchKey(lib: Lib, h: seq<Event>, k: DestKey)
    requires k !in Keys(lib, h)
    ensures CountKeys(lib, h, {k}) == 0 && Comms(lib, h, k) == []
  {
    if h != [] {
      assert h[|h| - 1] in h;
      NoSuchKey(lib, h[..|h| - 1], k);
    }
  }

  /** What Add does to the aggregate of the event's key. */
  function Bump(agg: DestAgg, comm: string): DestAgg {
    var counted := agg.(count := agg.count + 1);
    if comm == "" || comm in agg.procSeen then counted
    else if |agg.procs| < MAX_PROCESSES then
      counted.(procSeen := agg.procSeen + {comm}, procs := agg.procs + [comm])
    else counted.(procSeen := agg.procSeen + {comm}, procsMore := agg.procsMore + 1)
  }

  lemma AggStep(lib: Lib, h: seq<Event>, e: Event, k: DestKey)
    ensures AggOf(lib, h + [e], k) ==
              if KeyOf(lib, e) == k then Bump(AggOf(lib, h, k), e.comm) else AggOf(lib, h, k)
  {
    AppendSlices(h, e);
    var c := Comms(lib, h, k);
    if KeyOf(lib, e) == k && e.comm != "" && e.comm !in c {
      assert Elements(c + [e.comm]) == Elements(c) + {e.comm};
      if |c| < MAX_PROCESSES {
        assert Capped(c + [e.comm]) == Capped(c) + [e.comm];
      } else {
        assert Capped(c + [e.comm]) == Capped(c);
      }
    }
  }

  lemma KeysAppend(lib: Lib, h: seq<Event>, e: Event)
    ensures Keys(lib, h + [e]) == Keys(lib, h) + {KeyOf(lib, e)}
  {
    assert forall x :: x in h + [e] <==> x in h || x == e;
  }

  lemma FreshAgg(lib: Lib, h: seq<Event>, k: DestKey)
    requires k !in Keys(lib, h)
    ensures AggOf(lib, h, k) == DestAgg(0, [], {}, 0)
  {
    NoSuchKey(lib, h, k);
  }

  lemma AggAt(lib: Lib, h: seq<Event>, e: Event, j: DestKey)
    requires j in Keys(lib, h) + {KeyOf(lib, e)}
    ensures j in Aggregates(lib, h + [e])
    ensures var a := Aggregates(lib, h);
            Aggregates(lib, h + [e])[j] ==
              if j == KeyOf(lib, e) then Bump(if j in a then a[j] else DestAgg(0, [], {}, 0), e.comm) else a[j]
  {
    KeysAppend(lib, h, e);
    AggStep(lib, h, e, j);
    if j !in Keys(lib, h) {
      FreshAgg(lib, h, j);
    }
  }

  lemma UpdatedMap<K, V>(a: map<K, V>, b: map<K, V>, k: K, v: V)
    requires b.Keys == a.Keys + {k} && forall j :: j in b.Keys ==> b[j] == if j == k then v else a[j]
    ensures b == a[k := v]
  {
  }

  lemma AggregatesStep(lib: Lib, h: seq<Event>, e: Event)
    ensures var a, k := Aggregates(lib, h), KeyOf(lib, e);
            Aggregates(lib, h + [e])
            == a[k := Bump(if k in a then a[k] else DestAgg(0, [], {}, 0), e.comm)]
  {
    var a, b, k := Aggregates(lib, h), Aggregates(lib, h + [e]), KeyOf(lib, e);
    var bumped := Bump(if k in a then a[k] else DestAgg(0, [], {}, 0), e.comm);
    KeysAppend(lib, h, e);
    assert b.Keys == Keys(lib, h + [e]) && a.Keys == Keys(lib, h);
    forall j | j in b.Keys ensures b[j] == if j == k then bumped else a[j] {
      AggAt(lib, h, e, j);
    }
    UpdatedMap(a, b, k, bumped);
  }

  /** What the collector keeps. */
  datatype Tallies = Tallies(total: nat, byVerdict: map<string, nat>, dests: map<DestKey, DestAgg>)

  function Added(lib: Lib, t: Tallies, e: Event): Tallies {
    var k := KeyOf(lib, e);
    Tallies(
      t.total + 1,
      t.byVerdict[e.verdict := (if e.verdict in t.byVerdict then t.byVerdict[e.verdict] else 0) + 1],
      t.dests[k := Bump(if k in t.dests then t.dests[k] else DestAgg(0, [], {}, 0), e.comm)])
  }

  /** The tallies after adding the events one by one. */
  function TalliesOf(lib: Lib, h: seq<Event>): Tallies {
    if h == [] then Tallies(0, map[], map[]) else Added(lib, TalliesOf(lib, h[..|h| - 1]), h[|h| - 1])
  }

  lemma TalliesAppend(lib: Lib, h: seq<Event>, e: Event)
    ensures TalliesOf(lib, h + [e]) == Added(lib, TalliesOf(lib, h), e)
  {
    AppendSlices(h, e);
  }

  function Counted(lib: Lib, h: seq<Event>): Tallies {
    Tallies(|h|, Tally(h), Aggregates(lib, h))
  }

  lemma CountedStep(lib: Lib, h: seq<Event>, e: Event)
    ensures Counted(lib, h + [e]) == Added(lib, Counted(lib, h), e)
  {
    TallyStep(h, e);
    AggregatesStep(lib, h, e);
    AddedIs(lib, e, |h|, Tally(h), Aggregates(lib, h), Tally(h + [e]), Aggregates(lib, h + [e]));
  }

  /** What Add has stored, once each field is known. */
  lemma AddedIs(lib: Lib, e: Event, n: nat, b: map<string, nat>, d: map<DestKey, DestAgg>,
                byVerdict: map<string, nat>, dests: map<DestKey, DestAgg>)
    requires byVerdict == b[e.verdict := (if e.verdict in b then b[e.verdict] else 0) + 1]
    requires var k := KeyOf(lib, e);
             dests == d[k := Bump(if k in d then d[k] else DestAgg(0, [], {}, 0), e.comm)]
    ensures Tallies(n + 1, byVerdict, dests) == Added(lib, Tallies(n, b, d), e)
  {
  }

  /** Adding one by one counts what the history says. */
  lemma {:induction false} TalliesMeaning(lib: Lib, h: seq<Event>)
    ensures TalliesOf(lib, h) == Counted(lib, h)
  {
    if h == [] {
      NothingCounted(lib);
    } else {
      var front, last := h[..|h| - 1], h[|h| - 1];
      assert h == front + [last];
      TalliesMeaning(lib, front);
      TalliesAppend(lib, front, last);
      CountedStep(lib, front, last);
    }
  }

  lemma NothingCounted(lib: Lib)
    ensures TalliesOf(lib, []) == Counted(lib, [])
  {
    assert Tally([]) == map[] && Aggregates(lib, []) == map[];
  }

  // ---------------------------------------------------------------- conservation

  lemma {:induction false} CountVerdictsSplit(h: seq<Event>, vs: set<string>, v: string)
    requires v !in vs
    ensures CountVerdicts(h, vs + {v}) == CountVerdicts(h, vs) + CountVerdicts(h, {v})
  {
    if h != [] {
      CountVerdictsSplit(h[..|h| - 1], vs, v);
    }
  }

  lemma {:induction false} CountKeysSplit(lib: Lib, h: seq<Event>, ks: set<DestKey>, k: DestKey)
    requires k !in ks
    ensures CountKeys(lib, h, ks + {k}) == CountKeys(lib, h, ks) + CountKeys(lib, h, {k})
  {
    if h != [] {
      CountKeysSplit(lib, h[..|h| - 1], ks, k);
    }
  }

  /** Keys that are exactly those of a verdict count the events of that verdict. */
  lemma {:induction false} KeysOfVerdict(lib: Lib, h: seq<Event>, ks: set<DestKey>, v: string)
    requires forall e :: e in h ==> (KeyOf(lib, e) in ks <==> e.verdict == v)
    ensures CountKeys(lib, h, ks) == CountVerdicts(h, {v})
  {
    if h != [] {
      assert h[|h| - 1] in h;
      KeysOfVerdict(lib, h[..|h| - 1], ks, v);
    }
  }

  lemma {:induction false} AllVerdicts(h: seq<Event>, vs: set<string>)
    requires Verdicts(h) <= vs
    ensures CountVerdicts(h, vs) == |h|
  {
    if h != [] {
      assert h[|h| - 1] in h;
      assert Verdicts(h[..|h| - 1]) <= Verdicts(h);
      AllVerdicts(h[..|h| - 1], vs);
    }
  }

  function RowKey(r: DestStat): DestKey {
    DestKey(r.verdict, r.domain, r.ip, r.port)
  }

  function RowKeys(rows: seq<DestStat>, v: string): set<DestKey> {
    set r | r in rows && r.verdict == v :: RowKey(r)
  }

  function SumCounts(rows: seq<DestStat>, v: string): nat {
    if rows == [] then 0
    else SumCounts(rows[..|rows| - 1], v) + if rows[|rows| - 1].verdict == v then rows[|rows| - 1].count else 0
  }

  ghost predicate DistinctKeys(rows: seq<DestStat>) {
    forall i, j :: 0 <= i < j < |rows| ==> RowKey(rows[i]) != RowKey(rows[j])
  }

  lemma RowKeysStep(front: seq<DestStat>, last: DestStat, v: string)
    requires DistinctKeys(front + [last])
    ensures RowKeys(front + [last], v)
         == if last.verdict == v then RowKeys(front, v) + {RowKey(last)} else RowKeys(front, v)
    ensures RowKey(last) !in RowKeys(front, v)
  {
    var rows := front + [last];
    forall i | 0 <= i < |front| ensures RowKey(front[i]) != RowKey(last) {
      assert rows[i] == front[i] && rows[|front|] == last;
    }
  }

  lemma {:induction false} SumIsCount(lib: Lib, h: seq<Event>, rows: seq<DestStat>, v: string)
    requires DistinctKeys(rows)
    requires forall r :: r in rows ==> r.count == CountKeys(lib, h, {RowKey(r)})
    ensures SumCounts(rows, v) == CountKeys(lib, h, RowKeys(rows, v))
  {
    if rows == [] {
      assert RowKeys(rows, v) == {};
      NoKeys(lib, h);
    } else {
      var front, last := rows[..|rows| - 1], rows[|rows| - 1];
      assert rows == front + [last] && last in rows;
      SumIsCount(lib, h, front, v);
      RowKeysStep(front, last, v);
      if last.verdict == v {
        CountKeysSplit(lib, h, RowKeys(front, v), RowKey(last));
      }
    }
  }

  lemma {:induction false} NoKeys(lib: Lib, h: seq<Event>)
    ensures CountKeys(lib, h, {}) == 0
  {
    if h != [] {
      NoKeys(lib, h[..|h| - 1]);
    }
  }

  lemma {:induction false} NoVerdicts(h: seq<Event>)
    ensures CountVerdicts(h, {}) == 0
  {
    if h != [] {
      NoVerdicts(h[..|h| - 1]);
    }
  }

  /** The sum of some of the counts of a tally. */
  ghost function SumOf(m: map<string, nat>, vs: set<string>): nat
    requires vs <= m.Keys
  {
    if vs == {} then 0 else var v :| v in vs; m[v] + SumOf(m, vs - {v})
  }

  lemma {:induction false} SumOfTally(h: seq<Event>, vs: set<string>)
    requires vs <= Verdicts(h)
    ensures SumOf(Tally(h), vs) == CountVerdicts(h, vs)
  {
    if vs == {} {
      NoVerdicts(h);
    } else {
      var v :| v in vs && SumOf(Tally(h), vs) == Tally(h)[v] + SumOf(Tally(h), vs - {v});
      SumOfTally(h, vs - {v});
      CountVerdictsSplit(h, vs - {v}, v);
      assert vs - {v} + {v} == vs;
    }
  }

  // ---------------------------------------------------------------- the summary

  function Row(lib: Lib, h: seq<Event>, k: DestKey): DestStat {
    var a := AggOf(lib, h, k);
    DestStat(k.verdict, k.domain, k.ip, k.port, a.count, Sort(a.procs, StrLess), a.procsMore)
  }

  /** Domain when known, otherwise the address, of every key that is not exempt. */
  function Suggestions(ks: set<DestKey>): set<string> {
    set k | k in ks && !IsSkip(k.verdict) && NameOr(k.domain, k.ip) != "" :: NameOr(k.domain, k.ip)
  }

  lemma SuggestionsStep(ks: set<DestKey>, k: DestKey)
    ensures Suggestions(ks + {k}) == Suggestions(ks)
              + if !IsSkip(k.verdict) && NameOr(k.domain, k.ip) != "" then {NameOr(k.domain, k.ip)} else {}
  {
  }

  /** One row for each key of the history, saying what the history says of that key. */
  ghost predicate RowsOf(lib: Lib, h: seq<Event>, rows: seq<DestStat>) {
    && DistinctKeys(rows)
    && (forall r :: r in rows ==> RowKey(r) in Keys(lib, h) && r == Row(lib, h, RowKey(r)))
    && (forall k :: k in Keys(lib, h) ==> Row(lib, h, k) in rows)
  }

  /** A summary of the history: it fixes everything but the order of undecided rows. */
  ghost predicate IsSummary(lib: Lib, h: seq<Event>, mode: string, malformed: nat, s: Summary) {
    && s.mode == mode && s.malformed == malformed && s.total == |h| && s.byVerdict == Tally(h)
    && RowsOf(lib, h, s.destinations) && Sorted(s.destinations, RowLess)
    && Increasing(s.suggested) && Elements(s.suggested) == Suggestions(Keys(lib, h))
  }

  /**
   * The events of each verdict are spread over its rows and counted once, and the counts of the
   * tally add up to the total; nothing is lost.
   */
  lemma CountsAddUp(lib: Lib, h: seq<Event>, mode: string, malformed: nat, s: Summary, v: string)
    requires IsSummary(lib, h, mode, malformed, s)
    ensures SumCounts(s.destinations, v) == if v in s.byVerdict then s.byVerdict[v] else 0
    ensures SumOf(s.byVerdict, s.byVerdict.Keys) == s.total
  {
    var rows := s.destinations;
    SumIsCount(lib, h, rows, v);
    forall e | e in h ensures KeyOf(lib, e) in RowKeys(rows, v) <==> e.verdict == v {
      var k := KeyOf(lib, e);
      assert k in Keys(lib, h) && Row(lib, h, k) in rows && RowKey(Row(lib, h, k)) == k;
    }
    KeysOfVerdict(lib, h, RowKeys(rows, v), v);
    if v !in Verdicts(h) {
      NoSuchVerdict(h, v);
    }
    SumOfTally(h, s.byVerdict.Keys);
    AllVerdicts(h, s.byVerdict.Keys);
  }

  // ---------------------------------------------------------------- processes

  /** The comms of a key: each non-empty one of its events, once. */
  lemma {:induction false} CommsMeaning(lib: Lib, h: seq<Event>, k: DestKey)
    ensures NoDup(Comms(lib, h, k))
    ensures forall c :: c in Comms(lib, h, k) <==> c != "" && exists e :: e in h && KeyOf(lib, e) == k && e.comm == c
  {
    if h != [] {
      var last := h[|h| - 1];
      CommsMeaning(lib, h[..|h| - 1], k);
      assert h == h[..|h| - 1] + [last];
      if last.comm !in Comms(lib, h[..|h| - 1], k) {
        NoDupCons(last.comm, Comms(lib, h[..|h| - 1], k));
      }
    }
  }

  /** The comms of the events so far come first among all of them. */
  lemma {:induction false} CommsGrow(lib: Lib, h: seq<Event>, n: nat, k: DestKey)
    requires n <= |h|
    ensures Comms(lib, h[..n], k) <= Comms(lib, h, k)
    decreases |h| - n
  {
    if n == |h| {
      assert h[..n] == h;
    } else {
      assert h[..n + 1][..n] == h[..n];
      CommsGrow(lib, h, n + 1, k);
    }
  }

  /** An event of the key with that comm. */
  predicate Says(lib: Lib, e: Event, k: DestKey, comm: string) {
    KeyOf(lib, e) == k && e.comm == comm
  }

  /** A comm that is kept was seen before any event with one that is dropped. */
  lemma KeptCameFirst(lib: Lib, h: seq<Event>, k: DestKey, kept: string, i: nat)
    requires kept in Capped(Comms(lib, h, k))
    requires i < |h| && KeyOf(lib, h[i]) == k && h[i].comm != "" && h[i].comm !in Capped(Comms(lib, h, k))
    ensures exists j :: 0 <= j < i && Says(lib, h[j], k, kept)
  {
    var upTo := h[..i + 1];
    SeenComm(lib, upTo, k, i);
    CommsGrow(lib, h, i + 1, k);
    KeptIsInPrefix(Comms(lib, h, k), Comms(lib, upTo, k), kept, h[i].comm);
    var j := FirstSeen(lib, upTo, k, kept);
    assert upTo[j] == h[j];
  }

  lemma SeenComm(lib: Lib, h: seq<Event>, k: DestKey, i: nat)
    requires i < |h| && KeyOf(lib, h[i]) == k && h[i].comm != ""
    ensures h[i].comm in Comms(lib, h, k)
  {
    CommsMeaning(lib, h, k);
    assert h[i] in h;
  }

  lemma FirstSeen(lib: Lib, h: seq<Event>, k: DestKey, comm: string) returns (j: nat)
    requires comm in Comms(lib, h, k)
    ensures j < |h| && Says(lib, h[j], k, comm)
  {
    CommsMeaning(lib, h, k);
    var e :| e in h && KeyOf(lib, e) == k && e.comm == comm;
    j :| 0 <= j < |h| && h[j] == e;
  }

  lemma KeptIsInPrefix(c: seq<string>, d: seq<string>, kept: string, dropped: string)
    requires d <= c && kept in Capped(c) && dropped in d && dropped !in Capped(c)
    ensures kept in d
  {
    var p :| 0 <= p < |d| && d[p] == dropped;
    var q :| 0 <= q < |Capped(c)| && Capped(c)[q] == kept;
    assert forall n :: 0 <= n < |Capped(c)| ==> Capped(c)[n] == c[n];
    assert c[p] == dropped && p >= |Capped(c)|;
    assert d[q] == c[q];
  }

  /**
   * The process list of a row is sorted, holds the first ten distinct comms of its key, and
   * with the number of dropped ones gives the exact number of distinct comms. The first ten:
   * each was seen with the key before any event with one that is dropped.
   */
  lemma ProcessesMeaning(lib: Lib, h: seq<Event>, k: DestKey)
    ensures var r, c := Row(lib, h, k), Comms(lib, h, k);
            && Increasing(r.processes)
            && (forall x :: x in r.processes <==> x in Capped(c))
            && |r.processes| == |Capped(c)| && Capped(c) <= c
            && |r.processes| + r.moreProcesses == |c|
            && (r.moreProcesses > 0 ==> |r.processes| == 10) && |r.processes| <= 10
    ensures forall i, kept :: 0 <= i < |h| && KeyOf(lib, h[i]) == k && h[i].comm != ""
                        && h[i].comm !in Row(lib, h, k).processes && kept in Row(lib, h, k).processes
              ==> exists j :: 0 <= j < i && Says(lib, h[j], k, kept)
  {
    var c := Comms(lib, h, k);
    CommsMeaning(lib, h, k);
    StrOrder();
    SortIsSorted(Capped(c), StrLess);
    NoDupPermutes(Capped(c), Sort(Capped(c), StrLess), Elements(Capped(c)));
    IncreasingExactly(Sort(Capped(c), StrLess));
    forall i, kept | 0 <= i < |h| && KeyOf(lib, h[i]) == k && h[i].comm != ""
                  && h[i].comm !in Row(lib, h, k).processes && kept in Row(lib, h, k).processes
      ensures exists j :: 0 <= j < i && Says(lib, h[j], k, kept)
    {
      KeptCameFirst(lib, h, k, kept, i);
    }
  }

  // ---------------------------------------------------------------- uniqueness

  /**
   * Two keys that the comparator cannot tell apart: one destination without a domain, and the
   * same with its own address text as the domain, seen equally often.
   */
  ghost predicate Ambiguous(lib: Lib, h: seq<Event>, k: DestKey) {
    && k in Keys(lib, h) && k.domain == "" && k.ip != ""
    && k.(domain := k.ip) in Keys(lib, h)
    && CountKeys(lib, h, {k}) == CountKeys(lib, h, {k.(domain := k.ip)})
  }

  function AllRows(lib: Lib, h: seq<Event>): set<DestStat> {
    set k | k in Keys(lib, h) :: Row(lib, h, k)
  }

  lemma RowsAreOnceEach(lib: Lib, h: seq<Event>, rows: seq<DestStat>)
    ensures RowsOf(lib, h, rows) <==> NoDup(rows) && forall r :: r in rows <==> r in AllRows(lib, h)
  {
    if NoDup(rows) && forall r :: r in rows <==> r in AllRows(lib, h) {
      forall i, j | 0 <= i < j < |rows| ensures RowKey(rows[i]) != RowKey(rows[j]) {
        assert rows[i] in rows && rows[j] in rows;
      }
    }
    if RowsOf(lib, h, rows) {
      forall i, j | 0 <= i < j < |rows| ensures rows[i] != rows[j] {
        assert RowKey(rows[i]) != RowKey(rows[j]);
      }
    }
  }

  lemma UndecidedIsAmbiguous(lib: Lib, h: seq<Event>, a: DestStat, b: DestStat)
    requires a in AllRows(lib, h) && b in AllRows(lib, h) && a != b
    requires !RowLess(a, b) && !RowLess(b, a)
    ensures exists k :: Ambiguous(lib, h, k)
  {
    UndecidedExactly(a, b);
    assert a == Row(lib, h, RowKey(a)) && b == Row(lib, h, RowKey(b));
    if a.domain == "" {
      assert RowKey(b) == RowKey(a).(domain := a.ip);
      assert Ambiguous(lib, h, RowKey(a));
    } else {
      assert RowKey(a) == RowKey(b).(domain := b.ip);
      assert Ambiguous(lib, h, RowKey(b));
    }
  }

  lemma AmbiguousIsUndecided(lib: Lib, h: seq<Event>, k: DestKey)
    requires Ambiguous(lib, h, k)
    ensures var a, b := Row(lib, h, k), Row(lib, h, k.(domain := k.ip));
            a in AllRows(lib, h) && b in AllRows(lib, h) && a != b && !RowLess(a, b) && !RowLess(b, a)
  {
    var a, b := Row(lib, h, k), Row(lib, h, k.(domain := k.ip));
    UndecidedExactly(a, b);
  }

  /**
   * The summary of a history is unique, whatever order the maps were iterated in and however
   * the rows were sorted, exactly when no two of its keys are ambiguous.
   */
  lemma SummaryUniqueExactly(lib: Lib, h: seq<Event>, mode: string, malformed: nat, s: Summary)
    requires IsSummary(lib, h, mode, malformed, s)
    ensures (forall t :: IsSummary(lib, h, mode, malformed, t) ==> t == s) <==> !exists k :: Ambiguous(lib, h, k)
  {
    if exists k :: Ambiguous(lib, h, k) {
      var k :| Ambiguous(lib, h, k);
      var t := OtherSummary(lib, h, mode, malformed, s, k);
    } else {
      forall t | IsSummary(lib, h, mode, malformed, t) ensures t == s {
        SameSummary(lib, h, mode, malformed, s, t);
      }
    }
  }

  const SOME_IP: IP := [198, 51, 100, 9]

  /** One destination seen once without a domain and once named by its own address. */
  function TwiceNamed(lib: Lib): seq<Event> {
    var e := Event(ALLOW, 1, 1, "", "", Some(SOME_IP), 443);
    [e, e.(domain := IPString(lib, SOME_IP))]
  }

  lemma TwoCounted(lib: Lib, a: Event, b: Event, k: DestKey, v: string)
    ensures CountKeys(lib, [a, b], {k}) == (if KeyOf(lib, a) == k then 1 else 0) + (if KeyOf(lib, b) == k then 1 else 0)
    ensures CountVerdicts([a, b], {v}) == (if a.verdict == v then 1 else 0) + (if b.verdict == v then 1 else 0)
    ensures a.comm == b.comm == "" ==> Comms(lib, [a, b], k) == []
  {
    assert [a, b][..1] == [a] && [a][..0] == [];
    assert CountKeys(lib, [a], {k}) == if KeyOf(lib, a) == k then 1 else 0;
    assert CountVerdicts([a], {v}) == if a.verdict == v then 1 else 0;
    assert a.comm == "" ==> Comms(lib, [a], k) == [];
  }

  lemma TwoKeys(lib: Lib, a: Event, b: Event)
    ensures Keys(lib, [a, b]) == {KeyOf(lib, a), KeyOf(lib, b)} && Verdicts([a, b]) == {a.verdict, b.verdict}
  {
    assert forall e :: e in [a, b] <==> e == a || e == b;
  }

  /** Rows for two keys that cannot be told apart, in either order. */
  lemma TwoRows(lib: Lib, h: seq<Event>, k: DestKey)
    requires Ambiguous(lib, h, k) && Keys(lib, h) == {k, k.(domain := k.ip)}
    ensures var rows := [Row(lib, h, k), Row(lib, h, k.(domain := k.ip))];
            RowsOf(lib, h, rows) && Sorted(rows, RowLess)
  {
    AmbiguousIsUndecided(lib, h, k);
    var a, b := Row(lib, h, k), Row(lib, h, k.(domain := k.ip));
    assert RowKey(a) == k && RowKey(b) == k.(domain := k.ip);
    assert forall r :: r in [a, b] <==> r == a || r == b;
  }

  lemma TwoSuggestions(k: DestKey)
    requires !IsSkip(k.verdict) && k.domain == "" && k.ip != ""
    ensures Suggestions({k, k.(domain := k.ip)}) == {k.ip} == Elements([k.ip])
  {
    var ks := {k, k.(domain := k.ip)};
    assert k in ks && NameOr(k.domain, k.ip) == k.ip;
  }

  /** A history of two events that has two summaries. */
  lemma TwoSummariesExample(lib: Lib, mode: string, malformed: nat) returns (k: DestKey, s: Summary, t: Summary)
    requires Lawful(lib)
    ensures Ambiguous(lib, TwiceNamed(lib), k) && s != t
    ensures IsSummary(lib, TwiceNamed(lib), mode, malformed, s) && IsSummary(lib, TwiceNamed(lib), mode, malformed, t)
  {
    IPTextPlain(lib, SOME_IP);
    var h, ip := TwiceNamed(lib), IPString(lib, SOME_IP);
    k := DestKey(ALLOW, "", ip, 443);
    var d := k.(domain := ip);
    assert KeyOf(lib, h[0]) == k && KeyOf(lib, h[1]) == d;
    TwoKeys(lib, h[0], h[1]);
    TwoCounted(lib, h[0], h[1], k, ALLOW);
    TwoCounted(lib, h[0], h[1], d, ALLOW);
    TwoRows(lib, h, k);
    KindsExclude(ALLOW);
    TwoSuggestions(k);
    s := Summary(mode, 2, malformed, Tally(h), [Row(lib, h, k), Row(lib, h, d)], [ip]);
    t := OtherSummary(lib, h, mode, malformed, s, k);
  }

  lemma OtherSummary(lib: Lib, h: seq<Event>, mode: string, malformed: nat, s: Summary, k: DestKey)
    returns (t: Summary)
    requires IsSummary(lib, h, mode, malformed, s) && Ambiguous(lib, h, k)
    ensures IsSummary(lib, h, mode, malformed, t) && t != s
  {
    var rows := s.destinations;
    AmbiguousIsUndecided(lib, h, k);
    RowsAreOnceEach(lib, h, rows);
    RowOrder();
    TiedIsNotUnique(rows, Row(lib, h, k), Row(lib, h, k.(domain := k.ip)), RowLess);
    var other :| Sorted(other, RowLess) && multiset(other) == multiset(rows) && other != rows;
    NoDupPermutes(rows, other, AllRows(lib, h));
    RowsAreOnceEach(lib, h, other);
    t := s.(destinations := other);
  }

  lemma SameSummary(lib: Lib, h: seq<Event>, mode: string, malformed: nat, s: Summary, t: Summary)
    requires IsSummary(lib, h, mode, malformed, s) && IsSummary(lib, h, mode, malformed, t)
    requires forall k :: !Ambiguous(lib, h, k)
    ensures s == t
  {
    SameRows(lib, h, s.destinations, t.destinations);
    forall x ensures x in s.suggested <==> x in t.suggested {
      assert x in Elements(s.suggested) <==> x in Elements(t.suggested);
    }
    IncreasingUnique(s.suggested, t.suggested, Elements(s.suggested));
  }

  lemma SameRows(lib: Lib, h: seq<Event>, a: seq<DestStat>, b: seq<DestStat>)
    requires RowsOf(lib, h, a) && RowsOf(lib, h, b) && Sorted(a, RowLess) && Sorted(b, RowLess)
    requires forall k :: !Ambiguous(lib, h, k)
    ensures a == b
  {
    RowsAreOnceEach(lib, h, a);
    RowsAreOnceEach(lib, h, b);
    SameElementsSameBag(a, b, AllRows(lib, h));
    forall x, y | x in a && y in a && x != y ensures RowLess(x, y) || RowLess(y, x) {
      if !RowLess(x, y) && !RowLess(y, x) {
        UndecidedIsAmbiguous(lib, h, x, y);
      }
    }
    SortedUnique(a, b, RowLess);
  }
}
