/**
 * When no map write of a run fails, told from its steps alone; and what a full trie does to
 * the report. A run is seen as the list of single writes it tries.
 */
module Writes {
  import opened Strings
  import opened Net
  import opened Hosts
  import opened Policy
  import opened Verdict
  import opened Kernel
  import opened Enforcement
  import opened ReportSoundness

  // ---------------------------------------------------------------- single writes

  datatype Write =
    | TrieWrite(prefix: Prefix, fault: bool)
    | ResolverWrite(ip: IP, fault: bool)
    | FlagWrite(fault: bool)

  /** The maps, and how many writes have failed. */
  datatype Tried = Tried(maps: Maps, failed: nat)

  function Do(flag: bool, t: Tried, w: Write): Tried {
    var r := match w
      case TrieWrite(p, fault) => AddPrefix(t.maps, p, fault)
      case ResolverWrite(ip, fault) => AllowResolver(t.maps, ip, fault)
      case FlagWrite(fault) => SetAllowAllDNS(t.maps, flag, fault);
    match r case Some(m) => t.(maps := m) case None => t.(failed := t.failed + 1)
  }

  function DoAll(flag: bool, t: Tried, ws: seq<Write>): Tried {
    if ws == [] then t else Do(flag, DoAll(flag, t, ws[..|ws| - 1]), ws[|ws| - 1])
  }

  function AnswerWrites(answers: seq<Answer>): seq<Write> {
    seq(|answers|, i requires 0 <= i < |answers| => TrieWrite(HostPrefix(answers[i].ip), answers[i].fault))
  }

  /** The writes one step tries. */
  function WritesOf(s: Setup, step: Step): seq<Write> {
    match step
    case SeedResolver(ip, fault) => if IsLoopback(ip) then [] else [ResolverWrite(ip, fault)]
    case SetDNS(fault) => [FlagWrite(fault)]
    case SeedIP(ip, fault) => [TrieWrite(HostPrefix(ip), fault)]
    case SeedCIDR(net, fault) => [TrieWrite(NetPrefix(net), fault)]
    case SeedLookup(_, ip, fault) => [TrieWrite(HostPrefix(ip), fault)]
    case Response(src, name, answers) => if Extends(s, src, name) then AnswerWrites(answers) else []
  }

  function WritesAlong(s: Setup, steps: seq<Step>): seq<Write> {
    if steps == [] then [] else WritesAlong(s, steps[..|steps| - 1]) + WritesOf(s, steps[|steps| - 1])
  }

  lemma {:induction false} DoAllConcat(flag: bool, t: Tried, a: seq<Write>, b: seq<Write>)
    ensures DoAll(flag, t, a + b) == DoAll(flag, DoAll(flag, t, a), b)
  {
    if b == [] {
      assert a + b == a;
    } else {
      var k := |b| - 1;
      DoAllConcat(flag, t, a, b[..k]);
      assert (a + b)[..|a + b| - 1] == a + b[..k];
    }
  }

  lemma DoOne(flag: bool, t: Tried, w: Write)
    ensures DoAll(flag, t, [w]) == Do(flag, t, w)
  {
    assert [w][..0] == [];
  }

  function Of(st: State): Tried {
    Tried(st.maps, st.failed)
  }

  lemma AnswerIsWrite(flag: bool, lib: Lib, st: State, name: string, a: Answer)
    ensures Of(Observe(lib, st, name, true, a)) == Do(flag, Of(st), TrieWrite(HostPrefix(a.ip), a.fault))
  {
  }

  lemma AnswerWritesCons(answers: seq<Answer>)
    requires answers != []
    ensures AnswerWrites(answers)
         == [TrieWrite(HostPrefix(answers[0].ip), answers[0].fault)] + AnswerWrites(answers[1..])
  {
  }

  lemma FirstWrite(flag: bool, t: Tried, w: Write, rest: seq<Write>)
    ensures DoAll(flag, t, [w] + rest) == DoAll(flag, Do(flag, t, w), rest)
  {
    DoAllConcat(flag, t, [w], rest);
    DoOne(flag, t, w);
  }

  lemma {:induction false} AnswersAreWrites(flag: bool, lib: Lib, st: State, name: string, answers: seq<Answer>)
    ensures Of(ObserveAll(lib, st, name, true, answers)) == DoAll(flag, Of(st), AnswerWrites(answers))
    decreases |answers|
  {
    if answers != [] {
      AnswerIsWrite(flag, lib, st, name, answers[0]);
      AnswersAreWrites(flag, lib, Observe(lib, st, name, true, answers[0]), name, answers[1..]);
      FirstWrite(flag, Of(st), TrieWrite(HostPrefix(answers[0].ip), answers[0].fault), AnswerWrites(answers[1..]));
      AnswerWritesCons(answers);
    }
  }

  lemma StepIsWrites(s: Setup, st: State, step: Step)
    ensures Of(Apply(s, st, step)) == DoAll(s.engine.allowAllDNS, Of(st), WritesOf(s, step))
  {
    var flag := s.engine.allowAllDNS;
    match step
    case Response(src, name, answers) =>
      if Extends(s, src, name) {
        AnswersAreWrites(flag, s.lib, st, name, answers);
      } else {
        InertKeepsMaps(s, st, step);
      }
    case SeedResolver(ip, fault) => DoOne(flag, Of(st), ResolverWrite(ip, fault));
    case SetDNS(fault) => DoOne(flag, Of(st), FlagWrite(fault));
    case SeedIP(ip, fault) => DoOne(flag, Of(st), TrieWrite(HostPrefix(ip), fault));
    case SeedCIDR(net, fault) => DoOne(flag, Of(st), TrieWrite(NetPrefix(net), fault));
    case SeedLookup(_, ip, fault) => DoOne(flag, Of(st), TrieWrite(HostPrefix(ip), fault));
  }

  /** What a run leaves in the maps, and how much of it failed, is the outcome of its writes. */
  lemma {:induction false} RunIsWrites(s: Setup, steps: seq<Step>)
    ensures Of(Run(s, steps)) == DoAll(s.engine.allowAllDNS, Tried(EMPTY_MAPS, 0), WritesAlong(s, steps))
  {
    if steps != [] {
      var k := |steps| - 1;
      RunIsWrites(s, steps[..k]);
      StepIsWrites(s, Run(s, steps[..k]), steps[k]);
      DoAllConcat(s.engine.allowAllDNS, Tried(EMPTY_MAPS, 0), WritesAlong(s, steps[..k]), WritesOf(s, steps[k]));
    }
  }

  // ---------------------------------------------------------------- when none fails

  /** The different keys of one family that are written to its trie. */
  function TrieKeys(ws: seq<Write>, width: nat): set<Prefix> {
    set w | w in ws && w.TrieWrite? && |w.prefix.addr| == width :: w.prefix
  }

  /** The different nameservers of one family that are written. */
  function ResolverKeys(ws: seq<Write>, width: nat): set<IP> {
    set w | w in ws && w.ResolverWrite? && |Canon(w.ip)| == width :: Canon(w.ip)
  }

  /** No fault of the kernel's own, and no prefix longer than its key. */
  predicate IsSound(w: Write) {
    !w.fault && (w.TrieWrite? ==> w.prefix.len <= 8 * |w.prefix.addr|)
  }

  /** Every write is sound, and there is room for every key. */
  ghost predicate Fits(ws: seq<Write>) {
    && (forall w :: w in ws ==> IsSound(w))
    && |TrieKeys(ws, 4)| <= 4096 && |TrieKeys(ws, 16)| <= 4096
    && |ResolverKeys(ws, 4)| <= 16 && |ResolverKeys(ws, 16)| <= 16
  }

  /** The one write more fits too. */
  ghost predicate FitsNext(ws: seq<Write>, w: Write) {
    && IsSound(w)
    && match w
       case TrieWrite(p, _) => |TrieKeys(ws, |p.addr|) + {p}| <= TRIE_ENTRIES
       case ResolverWrite(ip, _) => |ResolverKeys(ws, |Canon(ip)|) + {Canon(ip)}| <= RESOLVER_ENTRIES
       case FlagWrite(_) => true
  }

  /** The keys after one write more. */
  lemma KeysAppend(ws: seq<Write>, w: Write, width: nat)
    ensures TrieKeys(ws + [w], width)
         == if w.TrieWrite? && |w.prefix.addr| == width then TrieKeys(ws, width) + {w.prefix} else TrieKeys(ws, width)
    ensures ResolverKeys(ws + [w], width)
         == if w.ResolverWrite? && |Canon(w.ip)| == width then ResolverKeys(ws, width) + {Canon(w.ip)}
            else ResolverKeys(ws, width)
  {
    assert forall x :: x in ws + [w] <==> x in ws || x == w;
  }

  lemma SoundAppend(ws: seq<Write>, w: Write)
    ensures (forall x :: x in ws + [w] ==> IsSound(x)) <==> (forall x :: x in ws ==> IsSound(x)) && IsSound(w)
  {
    assert forall x :: x in ws + [w] <==> x in ws || x == w;
  }

  lemma FitsAppend(ws: seq<Write>, w: Write)
    ensures Fits(ws + [w]) <==> Fits(ws) && FitsNext(ws, w)
  {
    KeysAppend(ws, w, 4);
    KeysAppend(ws, w, 16);
    SoundAppend(ws, w);
    match w
    case TrieWrite(p, _) => SizeWith(TrieKeys(ws, |p.addr|), p);
    case ResolverWrite(ip, _) => SizeWith(ResolverKeys(ws, |Canon(ip)|), Canon(ip));
    case FlagWrite(_) =>
  }

  /** The maps hold exactly the keys that were written. */
  ghost predicate Holds(m: Maps, ws: seq<Write>) {
    && m.ips4 == TrieKeys(ws, 4) && m.ips6 == TrieKeys(ws, 16)
    && m.resolvers4 == ResolverKeys(ws, 4) && m.resolvers6 == ResolverKeys(ws, 16)
  }

  lemma TrieWriteFits(m: Maps, ws: seq<Write>, p: Prefix, fault: bool)
    requires Holds(m, ws) && Fits(ws)
    ensures AddPrefix(m, p, fault).Some? <==> FitsNext(ws, TrieWrite(p, fault))
    ensures AddPrefix(m, p, fault).Some? ==> Holds(AddPrefix(m, p, fault).value, ws + [TrieWrite(p, fault)])
  {
    KeysAppend(ws, TrieWrite(p, fault), 4);
    KeysAppend(ws, TrieWrite(p, fault), 16);
    SizeWith(TrieKeys(ws, |p.addr|), p);
  }

  lemma ResolverWriteFits(m: Maps, ws: seq<Write>, ip: IP, fault: bool)
    requires Holds(m, ws) && Fits(ws)
    ensures AllowResolver(m, ip, fault).Some? <==> FitsNext(ws, ResolverWrite(ip, fault))
    ensures AllowResolver(m, ip, fault).Some? ==>
              Holds(AllowResolver(m, ip, fault).value, ws + [ResolverWrite(ip, fault)])
  {
    KeysAppend(ws, ResolverWrite(ip, fault), 4);
    KeysAppend(ws, ResolverWrite(ip, fault), 16);
    SizeWith(ResolverKeys(ws, |Canon(ip)|), Canon(ip));
  }

  lemma WriteFitsExactly(flag: bool, m: Maps, ws: seq<Write>, w: Write)
    requires Holds(m, ws) && Fits(ws)
    ensures var n := Do(flag, Tried(m, 0), w);
            && (n.failed == 0 <==> FitsNext(ws, w))
            && (n.failed == 0 ==> Holds(n.maps, ws + [w]))
  {
    match w
    case TrieWrite(p, fault) => TrieWriteFits(m, ws, p, fault);
    case ResolverWrite(ip, fault) => ResolverWriteFits(m, ws, ip, fault);
    case FlagWrite(_) =>
      KeysAppend(ws, w, 4);
      KeysAppend(ws, w, 16);
  }

  lemma {:induction false} DoAllExactly(flag: bool, ws: seq<Write>)
    ensures var t := DoAll(flag, Tried(EMPTY_MAPS, 0), ws);
            && (t.failed == 0 <==> Fits(ws))
            && (t.failed == 0 ==> Holds(t.maps, ws))
  {
    if ws != [] {
      var front, w := ws[..|ws| - 1], ws[|ws| - 1];
      var t := DoAll(flag, Tried(EMPTY_MAPS, 0), front);
      assert ws == front + [w];
      DoAllExactly(flag, front);
      FitsAppend(front, w);
      if t.failed == 0 {
        WriteFitsExactly(flag, t.maps, front, w);
      }
    }
  }

  /**
   * No write of a run fails exactly when the kernel has no fault of its own at any, no prefix
   * is longer than its key, and the different keys fit: 4096 in each trie, 16 nameservers a
   * family. Order and repetition play no part.
   */
  lemma NoWriteFailsExactly(s: Setup, steps: seq<Step>)
    ensures Run(s, steps).failed == 0 <==> Fits(WritesAlong(s, steps))
  {
    RunIsWrites(s, steps);
    DoAllExactly(s.engine.allowAllDNS, WritesAlong(s, steps));
  }

  /**
   * Report soundness on the steps alone: startup tried everything, all writes fit, and the
   * responses for allowed names came from trusted sources.
   */
  lemma SoundWhenAllFits(s: Setup, steps: seq<Step>)
    requires WellFormed(s) && (forall x :: x in steps ==> Legit(s, x))
    requires SeedingDone(s, steps) && AllTrusted(s, steps) && Fits(WritesAlong(s, steps))
    ensures ReportSound(s, Run(s, steps))
  {
    NoWriteFailsExactly(s, steps);
    PolicyWritten(s, steps);
    ExemptWritten(s, steps);
    NamedAlongRun(s, steps);
    RunIsValid(s, steps);
    SoundInParts(s, Run(s, steps));
  }

  /**
   * And exactly, whatever the sources: when all writes fit, the report is sound if and only if
   * every address last answered for an allowed name is loopback or matched by a key some step
   * asked for. No state is looked at.
   */
  lemma SoundOnStepsExactly(s: Setup, steps: seq<Step>)
    requires WellFormed(s) && (forall x :: x in steps ==> Legit(s, x))
    requires SeedingDone(s, steps) && Fits(WritesAlong(s, steps))
    ensures ReportSound(s, Run(s, steps)) <==>
              forall ip: IP :: IsAllowedDomain(s.engine, LastName(s.lib, steps, ip)) ==> ReachAsked(s, steps, ip)
  {
    NoWriteFailsExactly(s, steps);
    assert steps[..|steps|] == steps;
    ReportSoundWhenAllTaken(s, steps, |steps|);
  }

  // ---------------------------------------------------------------- a full trie

  lemma WithinStep(flag: bool, t: Tried, w: Write)
    requires |t.maps.ips4| <= TRIE_ENTRIES && |t.maps.ips6| <= TRIE_ENTRIES
    ensures |Do(flag, t, w).maps.ips4| <= TRIE_ENTRIES && |Do(flag, t, w).maps.ips6| <= TRIE_ENTRIES
  {
  }

  lemma {:induction false} TriesStayWithin(flag: bool, ws: seq<Write>)
    ensures var m := DoAll(flag, Tried(EMPTY_MAPS, 0), ws).maps;
            |m.ips4| <= TRIE_ENTRIES && |m.ips6| <= TRIE_ENTRIES
  {
    if ws != [] {
      TriesStayWithin(flag, ws[..|ws| - 1]);
      WithinStep(flag, DoAll(flag, Tried(EMPTY_MAPS, 0), ws[..|ws| - 1]), ws[|ws| - 1]);
    }
  }

  /** Without ranges, an address is covered by its own key or not at all. */
  lemma CoveredByOwnKey(s: Setup, steps: seq<Step>, ip: IP)
    requires s.engine.cidrs == [] && (forall x :: x in steps ==> Legit(s, x))
    requires Covered(Run(s, steps).maps, ip)
    ensures InTrie(Run(s, steps).maps, HostPrefix(ip))
  {
    var p :| InTrie(Run(s, steps).maps, p) && PrefixMatches(p, Canon(ip));
    KeyHasAStep(s, steps, p);
    var step :| step in steps && Contributes(s, step, p);
    var a := HostOfStep(s, step, p);
    HostPrefixMatches(a, ip);
  }

  lemma HostOfStep(s: Setup, step: Step, p: Prefix) returns (a: IP)
    requires s.engine.cidrs == [] && Legit(s, step) && Contributes(s, step, p)
    ensures p == HostPrefix(a)
  {
    match step
    case SeedIP(ip, _) => a := ip;
    case SeedLookup(_, ip, _) => a := ip;
    case Response(_, _, answers) =>
      var x :| x in answers && p == HostPrefix(x.ip);
      a := x.ip;
  }

  function HostPrefixes(ips: set<IP>): set<Prefix> {
    set ip | ip in ips :: HostPrefix(ip)
  }

  lemma {:induction false} HostPrefixesDiffer(ips: set<IP>)
    requires forall ip :: ip in ips ==> |ip| == 4
    ensures |HostPrefixes(ips)| == |ips|
  {
    if ips != {} {
      var ip :| ip in ips;
      HostPrefixesDiffer(ips - {ip});
      assert HostPrefixes(ips) == HostPrefixes(ips - {ip}) + {HostPrefix(ip)};
      SizeWith(HostPrefixes(ips - {ip}), HostPrefix(ip));
    }
  }

  lemma SubsetSize<T>(a: set<T>, b: set<T>)
    requires a <= b
    ensures |a| <= |b|
  {
    assert |b - a| == |b| - |a|;
  }

  /** Of more IPv4 addresses than the trie has entries, one is not covered. */
  lemma SomeIsNotCovered(s: Setup, steps: seq<Step>, ips: set<IP>) returns (ip: IP)
    requires s.engine.cidrs == [] && (forall x :: x in steps ==> Legit(s, x))
    requires |ips| > TRIE_ENTRIES && forall a :: a in ips ==> |a| == 4
    ensures ip in ips && !Covered(Run(s, steps).maps, ip)
  {
    var m := Run(s, steps).maps;
    if forall a :: a in ips ==> Covered(m, a) {
      forall a | a in ips ensures HostPrefix(a) in m.ips4 {
        CoveredByOwnKey(s, steps, a);
      }
      HostPrefixesDiffer(ips);
      SubsetSize(HostPrefixes(ips), m.ips4);
      RunIsWrites(s, steps);
      TriesStayWithin(s.engine.allowAllDNS, WritesAlong(s, steps));
      assert false;
    }
    ip :| ip in ips && !Covered(m, ip);
  }

  /**
   * A policy without ranges, and more IPv4 addresses answered for allowed names than the trie
   * has entries: whoever answered and however the writes went, one is reported as allowed and
   * denied.
   */
  lemma FullTrieMisreports(s: Setup, steps: seq<Step>, ips: set<IP>) returns (ip: IP)
    requires s.engine.cidrs == [] && (forall x :: x in steps ==> Legit(s, x))
    requires |ips| > TRIE_ENTRIES
    requires forall a :: a in ips ==>
               |a| == 4 && !IsLoopback(a) && IsAllowedDomain(s.engine, LastName(s.lib, steps, a))
    ensures ip in ips
    ensures Reported(s, Run(s, steps), ip, 443) == ALLOW && !Permits(Run(s, steps).maps, ip, 443)
  {
    ip := SomeIsNotCovered(s, steps, ips);
    RunIsValid(s, steps);
    CacheAlongRun(s, steps, ip);
    NamedIsAllowed(s, Run(s, steps), ip, LastName(s.lib, steps, ip));
  }

  // ---------------------------------------------------------------- examples

  const SELF: IP := [127, 0, 0, 1]

  /** Startup with nothing to write but the flag, then a trusted answer for "x" per address. */
  function Rotation(ips: seq<IP>): seq<Step> {
    if ips == [] then [SetDNS(false)]
    else Rotation(ips[..|ips| - 1]) + [Response(SELF, "x", [Answer(ips[|ips| - 1], false)])]
  }

  lemma NamedLast(lib: Lib, steps: seq<Step>, answer: IP, ip: IP)
    ensures LastName(lib, steps + [Response(SELF, "x", [Answer(answer, false)])], ip)
         == if IPString(lib, answer) == IPString(lib, ip) then "x" else LastName(lib, steps, ip)
  {
    var last := Response(SELF, "x", [Answer(answer, false)]);
    assert (steps + [last])[..|steps|] == steps;
    assert last.answers[0] in last.answers;
  }

  lemma {:induction false} RotationNames(lib: Lib, ips: seq<IP>, ip: IP)
    requires ip in ips
    ensures LastName(lib, Rotation(ips), ip) == "x"
  {
    var k := |ips| - 1;
    NamedLast(lib, Rotation(ips[..k]), ips[k], ip);
    if ip != ips[k] {
      RotationNames(lib, ips[..k], ip);
    }
  }

  lemma {:induction false} RotationIsTrusted(s: Setup, ips: seq<IP>)
    ensures forall x :: x in Rotation(ips) ==> Legit(s, x) && (x.Response? ==> IsTrustedSource(s, x.src))
    ensures SetDNS(false) == Rotation(ips)[0]
  {
    if ips != [] {
      RotationIsTrusted(s, ips[..|ips| - 1]);
    }
  }

  /**
   * A concrete run: the policy allows the name "x", which rotates through more addresses than
   * the trie has entries; all answers are trusted and no write has a fault of its own.
   */
  lemma FullTrieExample(lib: Lib, ips: seq<IP>) returns (ip: IP)
    requires Lawful(lib) && |Different(ips)| > TRIE_ENTRIES
    requires forall a :: a in ips ==> |a| == 4 && !IsLoopback(a)
    ensures var s := Setup(lib, ONE_NAME, [], map[]);
            && WellFormed(s) && (forall x :: x in Rotation(ips) ==> Legit(s, x))
            && StartedUp(s, Rotation(ips), 1) && AllTrusted(s, Rotation(ips))
            && Reported(s, Run(s, Rotation(ips)), ip, 443) == ALLOW
            && !Permits(Run(s, Rotation(ips)).maps, ip, 443)
  {
    var s := Setup(lib, ONE_NAME, [], map[]);
    RotationIsTrusted(s, ips);
    NameIsAllowed();
    forall a | a in ips ensures LastName(lib, Rotation(ips), a) == "x" {
      RotationNames(lib, ips, a);
    }
    ip := FullTrieMisreports(s, Rotation(ips), Different(ips));
    FlagAlone(s, Rotation(ips));
  }

  /** Such addresses exist: 1.1.1.1 and those that follow it. */
  lemma FullTrieHappens(lib: Lib, n: nat) returns (ip: IP)
    requires Lawful(lib) && 4096 < n <= 6561
    ensures var s, steps := Setup(lib, ONE_NAME, [], map[]), Rotation(First(HOST, n));
            && StartedUp(s, steps, 1) && AllTrusted(s, steps)
            && Reported(s, Run(s, steps), ip, 443) == ALLOW && !Permits(Run(s, steps).maps, ip, 443)
  {
    HostsDiffer(n);
    ip := FullTrieExample(lib, First(HOST, n));
  }

  lemma NameIsAllowed()
    ensures IsAllowedDomain(ONE_NAME, "x")
  {
    assert ToLower("x") == "x";
  }

  lemma FlagAlone(s: Setup, steps: seq<Step>)
    requires s.engine == ONE_NAME && s.resolvers == [] && steps != [] && steps[0] == SetDNS(false)
    ensures StartedUp(s, steps, 1)
  {
    assert steps[..1] == [SetDNS(false)] && steps[..1][..0] == [];
    assert SetDNS(false) in steps[..1];
  }

  lemma RefusedResponse(s: Setup, st: State, ip: IP)
    ensures Apply(s, st, Response(SELF, "x", [Answer(ip, true)])).maps == st.maps
  {
    var answers := [Answer(ip, true)];
    var allow := Extends(s, SELF, "x");
    assert answers[1..] == [];
    assert Observe(s.lib, st, "x", allow, answers[0]).maps == st.maps;
    assert ObserveAll(s.lib, st, "x", allow, answers) == Observe(s.lib, st, "x", allow, answers[0]);
  }

  lemma RefusedRun(s: Setup, ip: IP)
    requires s.engine == ONE_NAME
    ensures Run(s, [SetDNS(false), Response(SELF, "x", [Answer(ip, true)])]).maps == EMPTY_MAPS
  {
    var steps := [SetDNS(false), Response(SELF, "x", [Answer(ip, true)])];
    assert steps[..1] == [SetDNS(false)] && steps[..1][..0] == [];
    assert Run(s, steps[..1]).maps == EMPTY_MAPS;
    RefusedResponse(s, Run(s, steps[..1]), ip);
  }

  lemma RefusedName(lib: Lib, ip: IP)
    ensures LastName(lib, [SetDNS(false), Response(SELF, "x", [Answer(ip, true)])], ip) == "x"
  {
    var answers := [Answer(ip, true)];
    assert answers[0] in answers && Answers(lib, answers, ip);
  }

  lemma RefusedIsNamed(s: Setup, ip: IP)
    ensures var steps := [SetDNS(false), Response(SELF, "x", [Answer(ip, true)])];
            Lookup(s.lib, Run(s, steps).cache, ip) == "x" && Valid(Run(s, steps).maps)
  {
    var steps := [SetDNS(false), Response(SELF, "x", [Answer(ip, true)])];
    RefusedName(s.lib, ip);
    CacheAlongRun(s, steps, ip);
    RunIsValid(s, steps);
  }

  /** One trusted answer that the kernel refuses is enough. */
  lemma RefusedAnswerExample(lib: Lib, ip: IP)
    requires Lawful(lib) && !IsLoopback(ip)
    ensures var s := Setup(lib, ONE_NAME, [], map[]);
            var steps := [SetDNS(false), Response(SELF, "x", [Answer(ip, true)])];
            && WellFormed(s) && StartedUp(s, steps, 1) && AllTrusted(s, steps)
            && Reported(s, Run(s, steps), ip, 443) == ALLOW && !Permits(Run(s, steps).maps, ip, 443)
  {
    var s := Setup(lib, ONE_NAME, [], map[]);
    var steps := [SetDNS(false), Response(SELF, "x", [Answer(ip, true)])];
    NameIsAllowed();
    FlagAlone(s, steps);
    RefusedIsNamed(s, ip);
    RefusedRun(s, ip);
    assert !Reachable(EMPTY_MAPS, ip);
    NamedIsAllowed(s, Run(s, steps), ip, "x");
  }
}
