/**
 * The report and the kernel decide independently. This module says when the report is sound:
 * a destination it shows as allowed or skipped is one the kernel permits.
 */
module ReportSoundness {
  import opened Basics
  import opened Strings
  import opened Net
  import opened Policy
  import opened Entries
  import opened Verdict
  import opened Kernel
  import opened Enforcement

  /** The verdict of a connection by another process, at a boundary between two steps. */
  function Reported(s: Setup, st: State, daddr: IP, dport: nat): string {
    VerdictFor(s.lib, dport, daddr, Lookup(s.lib, st.cache, daddr), Some(s.engine), s.resolvers)
  }

  predicate Passes(v: string) {
    IsAllow(v) || IsSkip(v)
  }

  ghost predicate ReportSound(s: Setup, st: State) {
    forall daddr: IP, dport: nat ::
      Passes(Reported(s, st, daddr, dport)) ==> Permits(st.maps, daddr, dport)
  }

  // ---------------------------------------------------------------- the three parts

  /** Permitted on every port. */
  ghost predicate Reachable(m: Maps, ip: IP) {
    IsLoopback(ip) || Covered(m, ip)
  }

  ghost predicate PolicyReachable(s: Setup, m: Maps) {
    forall ip: IP :: AllowsIP(s.lib, s.engine, ip) ==> Reachable(m, ip)
  }

  ghost predicate ExemptPermitted(s: Setup, m: Maps) {
    forall ip: IP :: DNSExempt(s.lib, Some(s.engine), s.resolvers, ip) ==> Permits(m, ip, 53)
  }

  ghost predicate NamedReachable(s: Setup, st: State) {
    forall ip: IP :: IsAllowedDomain(s.engine, Lookup(s.lib, st.cache, ip)) ==> Reachable(st.maps, ip)
  }

  /** The report is sound exactly when each of its three reasons is backed by the maps. */
  lemma SoundInParts(s: Setup, st: State)
    requires Valid(st.maps)
    ensures ReportSound(s, st) <==>
              PolicyReachable(s, st.maps) && ExemptPermitted(s, st.maps) && NamedReachable(s, st)
  {
    forall ip: IP, dport: nat
      ensures Passes(Reported(s, st, ip, dport)) <==> (
                || (dport == 53 && DNSExempt(s.lib, Some(s.engine), s.resolvers, ip))
                || IsLoopback(ip)
                || AllowsIP(s.lib, s.engine, ip)
                || IsAllowedDomain(s.engine, Lookup(s.lib, st.cache, ip)))
      ensures Permits(st.maps, ip, dport) <==> (
                || (dport == 53 && (st.maps.allowAllDNS || ResolverListed(st.maps, ip)))
                || Reachable(st.maps, ip))
    {
      PassMeaning(s.lib, dport, ip, Lookup(s.lib, st.cache, ip), s.engine, s.resolvers);
      PermitsMeaning(st.maps, ip, dport);
    }
    if ReportSound(s, st) {
      forall ip: IP ensures AllowsIP(s.lib, s.engine, ip) ==> Reachable(st.maps, ip) {
        assert Passes(Reported(s, st, ip, 443)) ==> Permits(st.maps, ip, 443);
      }
      forall ip: IP
        ensures IsAllowedDomain(s.engine, Lookup(s.lib, st.cache, ip)) ==> Reachable(st.maps, ip)
      {
        assert Passes(Reported(s, st, ip, 443)) ==> Permits(st.maps, ip, 443);
      }
      forall ip: IP ensures DNSExempt(s.lib, Some(s.engine), s.resolvers, ip) ==> Permits(st.maps, ip, 53) {
        assert Passes(Reported(s, st, ip, 53)) ==> Permits(st.maps, ip, 53);
      }
    }
  }

  lemma ReachableGrows(m: Maps, n: Maps, ip: IP)
    requires Grows(m, n) && Reachable(m, ip)
    ensures Reachable(n, ip)
  {
    if Covered(m, ip) {
      var p :| InTrie(m, p) && PrefixMatches(p, Canon(ip));
      assert InTrie(n, p);
    }
  }

  lemma HostIsReachable(m: Maps, a: IP, ip: IP)
    requires InTrie(m, HostPrefix(a)) && Canon(a) == Canon(ip)
    ensures Covered(m, ip)
  {
    HostPrefixMatches(a, ip);
  }

  // ---------------------------------------------------------------- one response

  ghost predicate Answers(lib: Lib, answers: seq<Answer>, ip: IP) {
    exists a :: a in answers && IPString(lib, a.ip) == IPString(lib, ip)
  }

  /** One answer renames its own text and no other. */
  lemma LookupAfterOne(lib: Lib, st: State, name: string, allow: bool, a: Answer, ip: IP)
    ensures Lookup(lib, Observe(lib, st, name, allow, a).cache, ip)
         == if IPString(lib, a.ip) == IPString(lib, ip) then name else Lookup(lib, st.cache, ip)
  {
  }

  lemma AnswersCons(lib: Lib, answers: seq<Answer>, ip: IP)
    requires answers != []
    ensures Answers(lib, answers, ip) <==>
              IPString(lib, answers[0].ip) == IPString(lib, ip) || Answers(lib, answers[1..], ip)
  {
    assert answers == [answers[0]] + answers[1..];
  }

  /** After a response the cache names its answers, and every other address as before. */
  lemma {:induction false} CacheAfter(lib: Lib, st: State, name: string, allow: bool, answers: seq<Answer>, ip: IP)
    ensures Lookup(lib, ObserveAll(lib, st, name, allow, answers).cache, ip)
         == if Answers(lib, answers, ip) then name else Lookup(lib, st.cache, ip)
    decreases |answers|
  {
    if answers != [] {
      var one := Observe(lib, st, name, allow, answers[0]);
      CacheAfter(lib, one, name, allow, answers[1..], ip);
      LookupAfterOne(lib, st, name, allow, answers[0], ip);
      AnswersCons(lib, answers, ip);
    }
  }

  lemma SameTextReach(lib: Lib, m: Maps, a: IP, ip: IP)
    requires Lawful(lib) && Valid(m) && IPString(lib, a) == IPString(lib, ip)
    ensures Reachable(m, a) <==> Reachable(m, ip)
  {
    IPStringInjective(lib, a, ip);
    To16Canon(a);
    To16Canon(ip);
  }

  /** The cache of n is the cache of st with every answer named anew. */
  ghost predicate Renamed(lib: Lib, st: State, n: State, name: string, answers: seq<Answer>) {
    forall ip: IP ::
      Lookup(lib, n.cache, ip) == if Answers(lib, answers, ip) then name else Lookup(lib, st.cache, ip)
  }

  lemma AnswersNeedReach(s: Setup, st: State, n: State, name: string, answers: seq<Answer>)
    requires Renamed(s.lib, st, n, name, answers)
    requires IsAllowedDomain(s.engine, name) && NamedReachable(s, n)
    ensures forall a :: a in answers ==> Reachable(n.maps, a.ip)
  {
    forall a | a in answers ensures Reachable(n.maps, a.ip) {
      assert Answers(s.lib, answers, a.ip);
      assert Lookup(s.lib, n.cache, a.ip) == name;
    }
  }

  lemma ReachSuffices(s: Setup, st: State, n: State, name: string, answers: seq<Answer>, ip: IP)
    requires Lawful(s.lib) && Valid(n.maps) && Grows(st.maps, n.maps)
    requires Renamed(s.lib, st, n, name, answers) && NamedReachable(s, st)
    requires !IsAllowedDomain(s.engine, name) || forall a :: a in answers ==> Reachable(n.maps, a.ip)
    requires IsAllowedDomain(s.engine, Lookup(s.lib, n.cache, ip))
    ensures Reachable(n.maps, ip)
  {
    if Answers(s.lib, answers, ip) {
      var a :| a in answers && IPString(s.lib, a.ip) == IPString(s.lib, ip);
      SameTextReach(s.lib, n.maps, a.ip, ip);
    } else {
      ReachableGrows(st.maps, n.maps, ip);
    }
  }

  /** What a response leaves of the third part. */
  lemma NamedAfter(s: Setup, st: State, src: IP, name: string, answers: seq<Answer>)
    requires WellFormed(s) && Valid(st.maps) && NamedReachable(s, st) && name != ""
    ensures var n := Apply(s, st, Response(src, name, answers));
            NamedReachable(s, n) <==>
              (!IsAllowedDomain(s.engine, name) || forall a :: a in answers ==> Reachable(n.maps, a.ip))
  {
    var allow := Extends(s, src, name);
    var n := ObserveAll(s.lib, st, name, allow, answers);
    assert n == Apply(s, st, Response(src, name, answers));
    NamedAfterObserving(s, st, n, name, allow, answers);
  }

  lemma NamedAfterObserving(s: Setup, st: State, n: State, name: string, allow: bool, answers: seq<Answer>)
    requires Lawful(s.lib) && Valid(st.maps) && NamedReachable(s, st)
    requires n == ObserveAll(s.lib, st, name, allow, answers)
    ensures NamedReachable(s, n) <==>
              (!IsAllowedDomain(s.engine, name) || forall a :: a in answers ==> Reachable(n.maps, a.ip))
  {
    ObserveAllEffect(s.lib, st, name, allow, answers);
    forall ip: IP {
      CacheAfter(s.lib, st, name, allow, answers, ip);
    }
    assert Renamed(s.lib, st, n, name, answers);
    if IsAllowedDomain(s.engine, name) && NamedReachable(s, n) {
      AnswersNeedReach(s, st, n, name, answers);
    }
    if !IsAllowedDomain(s.engine, name) || forall a :: a in answers ==> Reachable(n.maps, a.ip) {
      forall ip: IP | IsAllowedDomain(s.engine, Lookup(s.lib, n.cache, ip)) ensures Reachable(n.maps, ip) {
        ReachSuffices(s, st, n, name, answers, ip);
      }
    }
  }

  /** A response that extends the tries without a failed write makes its answers reachable. */
  lemma ExtendingReaches(s: Setup, st: State, src: IP, name: string, answers: seq<Answer>)
    requires Extends(s, src, name)
    requires Apply(s, st, Response(src, name, answers)).failed == st.failed
    ensures forall a :: a in answers ==> Reachable(Apply(s, st, Response(src, name, answers)).maps, a.ip)
  {
    var n := ObserveAll(s.lib, st, name, true, answers);
    assert n == Apply(s, st, Response(src, name, answers));
    ObserveAllEffect(s.lib, st, name, true, answers);
    forall a | a in answers ensures Reachable(n.maps, a.ip) {
      HostIsReachable(n.maps, a.ip, a.ip);
    }
  }

  /** A step that only adds to the maps leaves the first two parts as they were. */
  lemma PartsGrow(s: Setup, st: State, step: Step)
    requires Valid(st.maps) && PolicyReachable(s, st.maps) && ExemptPermitted(s, st.maps)
    requires step.Response?
    ensures PolicyReachable(s, Apply(s, st, step).maps) && ExemptPermitted(s, Apply(s, st, step).maps)
  {
    var n := Apply(s, st, step).maps;
    ObserveAllEffect(s.lib, st, step.name, Extends(s, step.src, step.name), step.answers);
    forall ip: IP | AllowsIP(s.lib, s.engine, ip) ensures Reachable(n, ip) {
      ReachableGrows(st.maps, n, ip);
    }
    forall ip: IP | DNSExempt(s.lib, Some(s.engine), s.resolvers, ip) ensures Permits(n, ip, 53) {
      PermitsGrows(st.maps, n, ip, 53);
    }
  }

  /**
   * A response keeps a sound report sound exactly when its name is empty or not allowed, or
   * every address it answers is reachable in the maps it leaves.
   */
  lemma ResponseKeepsReportExactly(s: Setup, st: State, src: IP, name: string, answers: seq<Answer>)
    requires WellFormed(s) && Valid(st.maps) && ReportSound(s, st)
    ensures var n := Apply(s, st, Response(src, name, answers));
            ReportSound(s, n) <==>
              (name == "" || !IsAllowedDomain(s.engine, name) || forall a :: a in answers ==> Reachable(n.maps, a.ip))
  {
    var step := Response(src, name, answers);
    var n := Apply(s, st, step);
    SoundInParts(s, st);
    ApplyEffect(s, st, step);
    SoundInParts(s, n);
    PartsGrow(s, st, step);
    if name != "" {
      NamedAfter(s, st, src, name, answers);
    }
  }

  /**
   * From an untrusted source the maps stay as they are, so the test is one the caller could
   * make beforehand: the guard the watcher uses for the tries but not for the cache.
   */
  lemma UntrustedResponseExactly(s: Setup, st: State, src: IP, name: string, answers: seq<Answer>)
    requires WellFormed(s) && Valid(st.maps) && ReportSound(s, st) && !IsTrustedSource(s, src)
    ensures ReportSound(s, Apply(s, st, Response(src, name, answers))) <==>
              (!IsAllowedDomain(s.engine, name) || forall a :: a in answers ==> Reachable(st.maps, a.ip))
  {
    var step := Response(src, name, answers);
    ResponseKeepsReportExactly(s, st, src, name, answers);
    InertKeepsMaps(s, st, step);
  }

  /** From a trusted source, a response none of whose writes fails never breaks the report. */
  lemma TrustedResponseKeepsReport(s: Setup, st: State, src: IP, name: string, answers: seq<Answer>)
    requires WellFormed(s) && Valid(st.maps) && ReportSound(s, st) && IsTrustedSource(s, src)
    requires Apply(s, st, Response(src, name, answers)).failed == st.failed
    ensures ReportSound(s, Apply(s, st, Response(src, name, answers)))
  {
    ResponseKeepsReportExactly(s, st, src, name, answers);
    if IsAllowedDomain(s.engine, name) {
      ExtendingReaches(s, st, src, name, answers);
    }
  }

  // ---------------------------------------------------------------- whole runs

  // A startup write is somewhere in the run, whether or not the kernel took it.

  predicate ResolverTried(steps: seq<Step>, ip: IP) {
    SeedResolver(ip, false) in steps || SeedResolver(ip, true) in steps
  }

  predicate IPTried(steps: seq<Step>, ip: IP) {
    SeedIP(ip, false) in steps || SeedIP(ip, true) in steps
  }

  predicate CIDRTried(steps: seq<Step>, net: IPNet) {
    SeedCIDR(net, false) in steps || SeedCIDR(net, true) in steps
  }

  predicate LookupTried(steps: seq<Step>, domain: string, ip: IP) {
    SeedLookup(domain, ip, false) in steps || SeedLookup(domain, ip, true) in steps
  }

  /** Every write that startup makes has been tried. */
  ghost predicate SeedingDone(s: Setup, steps: seq<Step>) {
    && (SetDNS(false) in steps || SetDNS(true) in steps)
    && (forall r :: r in s.resolvers ==> ResolverTried(steps, r))
    && (forall t :: t in s.engine.allowedIP ==> IPTried(steps, s.engine.allowedIP[t]))
    && (forall net :: net in s.engine.cidrs ==> CIDRTried(steps, net))
  }

  /** The effect of a startup step that did not fail. */
  ghost predicate Done(s: Setup, m: Maps, step: Step) {
    match step
    case SeedResolver(ip, _) => IsLoopback(ip) || ResolverListed(m, ip)
    case SetDNS(_) => s.engine.allowAllDNS ==> m.allowAllDNS
    case SeedIP(ip, _) => InTrie(m, HostPrefix(ip))
    case SeedCIDR(net, _) => InTrie(m, NetPrefix(net))
    case SeedLookup(_, ip, _) => InTrie(m, HostPrefix(ip))
    case Response(_, _, _) => true
  }

  lemma DoneNow(s: Setup, st: State, step: Step)
    requires Apply(s, st, step).failed == st.failed
    ensures Done(s, Apply(s, st, step).maps, step)
  {
    ApplyEffect(s, st, step);
  }

  lemma DoneStays(s: Setup, st: State, step: Step, next: Step)
    requires Done(s, st.maps, step) && (st.maps.allowAllDNS ==> s.engine.allowAllDNS)
    ensures Done(s, Apply(s, st, next).maps, step)
  {
    ApplyEffect(s, st, next);
    FlagStays(s, st, next);
  }

  lemma {:induction false} StepsAreDone(s: Setup, steps: seq<Step>, step: Step)
    requires forall x :: x in steps ==> Legit(s, x)
    requires Run(s, steps).failed == 0 && step in steps
    ensures Done(s, Run(s, steps).maps, step)
  {
    var k := |steps| - 1;
    RunGrows(s, steps, k);
    if step == steps[k] {
      DoneNow(s, Run(s, steps[..k]), step);
    } else {
      assert steps == steps[..k] + [steps[k]];
      StepsAreDone(s, steps[..k], step);
      FlagAndResolvers(s, steps[..k]);
      DoneStays(s, Run(s, steps[..k]), step, steps[k]);
    }
  }

  lemma PolicyWritten(s: Setup, steps: seq<Step>)
    requires WellFormed(s) && (forall x :: x in steps ==> Legit(s, x))
    requires SeedingDone(s, steps) && Run(s, steps).failed == 0
    ensures PolicyReachable(s, Run(s, steps).maps)
  {
    var m := Run(s, steps).maps;
    RunIsValid(s, steps);
    forall ip: IP | AllowsIP(s.lib, s.engine, ip) ensures Reachable(m, ip) {
      if IPString(s.lib, ip) in s.engine.allowedIP {
        var a := s.engine.allowedIP[IPString(s.lib, ip)];
        var f := SeedIP(a, true) in steps;
        StepsAreDone(s, steps, SeedIP(a, f));
        IPStringInjective(s.lib, a, ip);
        HostIsReachable(m, a, ip);
      } else {
        var net :| net in s.engine.cidrs && NetContains(net, ip);
        var f := SeedCIDR(net, true) in steps;
        StepsAreDone(s, steps, SeedCIDR(net, f));
        WrittenRangeFits(m, net);
        ContainsIsMatch(net, ip);
      }
    }
  }

  /** A range that is in a trie is not IPv4-mapped: the trie would have refused it. */
  lemma WrittenRangeFits(m: Maps, net: IPNet)
    requires IsNetwork(net) && Valid(m) && InTrie(m, NetPrefix(net))
    ensures !IsMapped(net.ip)
  {
    FitsExactly(net);
  }

  lemma ExemptWritten(s: Setup, steps: seq<Step>)
    requires WellFormed(s) && (forall x :: x in steps ==> Legit(s, x))
    requires SeedingDone(s, steps) && Run(s, steps).failed == 0
    ensures ExemptPermitted(s, Run(s, steps).maps)
  {
    var m := Run(s, steps).maps;
    RunIsValid(s, steps);
    forall ip: IP | DNSExempt(s.lib, Some(s.engine), s.resolvers, ip) ensures Permits(m, ip, 53) {
      PermitsMeaning(m, ip, 53);
      if s.engine.allowAllDNS {
        var f := SetDNS(true) in steps;
        StepsAreDone(s, steps, SetDNS(f));
      } else if !IsLoopback(ip) {
        var r :| r in s.resolvers && IPString(s.lib, r) == IPString(s.lib, ip);
        var f := SeedResolver(r, true) in steps;
        StepsAreDone(s, steps, SeedResolver(r, f));
        IPStringInjective(s.lib, r, ip);
        SameLoopback(r, ip);
      }
    }
  }

  /**
   * Startup was finished after the first k steps, and none of its writes had failed. What
   * comes later, refused writes of later answers among it, is not looked at.
   */
  ghost predicate StartedUp(s: Setup, steps: seq<Step>, k: nat) {
    k <= |steps| && SeedingDone(s, steps[..k]) && Run(s, steps[..k]).failed == 0
  }

  /** From then on the policy's addresses and ranges are reachable. */
  lemma SeededPolicy(s: Setup, steps: seq<Step>, k: nat)
    requires WellFormed(s) && (forall x :: x in steps ==> Legit(s, x)) && StartedUp(s, steps, k)
    ensures PolicyReachable(s, Run(s, steps).maps)
  {
    PolicyWritten(s, steps[..k]);
    RunGrows(s, steps, k);
    forall ip: IP | AllowsIP(s.lib, s.engine, ip) ensures Reachable(Run(s, steps).maps, ip) {
      ReachableGrows(Run(s, steps[..k]).maps, Run(s, steps).maps, ip);
    }
  }

  /** From then on the exempt destinations are permitted on port 53. */
  lemma SeededExempt(s: Setup, steps: seq<Step>, k: nat)
    requires WellFormed(s) && (forall x :: x in steps ==> Legit(s, x)) && StartedUp(s, steps, k)
    ensures ExemptPermitted(s, Run(s, steps).maps)
  {
    ExemptWritten(s, steps[..k]);
    forall ip: IP | DNSExempt(s.lib, Some(s.engine), s.resolvers, ip) ensures Permits(Run(s, steps).maps, ip, 53) {
      PermitsOnlyGrow(s, steps, k, ip, 53);
    }
  }

  lemma SameLoopback(a: IP, b: IP)
    requires Canon(a) == Canon(b)
    ensures IsLoopback(a) <==> IsLoopback(b)
  {
    To16Canon(a);
    To16Canon(b);
  }

  /** Responses for allowed names came from trusted sources. */
  ghost predicate AllTrusted(s: Setup, steps: seq<Step>) {
    forall r :: r in steps && r.Response? && IsAllowedDomain(s.engine, r.name) ==> IsTrustedSource(s, r.src)
  }

  lemma {:induction false} NamedAlongRun(s: Setup, steps: seq<Step>)
    requires WellFormed(s) && AllTrusted(s, steps) && Run(s, steps).failed == 0
    ensures NamedReachable(s, Run(s, steps))
  {
    if steps != [] {
      var k := |steps| - 1;
      var st, n, last := Run(s, steps[..k]), Run(s, steps), steps[k];
      RunGrows(s, steps, k);
      RunIsValid(s, steps[..k]);
      NamedAlongRun(s, steps[..k]);
      if last.Response? && last.name != "" {
        assert last in steps;
        NamedAfter(s, st, last.src, last.name, last.answers);
        if IsAllowedDomain(s.engine, last.name) {
          ExtendingReaches(s, st, last.src, last.name, last.answers);
        }
      } else {
        forall ip: IP | IsAllowedDomain(s.engine, Lookup(s.lib, n.cache, ip)) ensures Reachable(n.maps, ip) {
          ReachableGrows(st.maps, n.maps, ip);
        }
      }
    }
  }

  /**
   * Report soundness over every run: once startup has written everything, if no map write
   * failed and the responses for allowed names came from trusted sources, then whatever the
   * report shows as allowed or skipped for another process is what the kernel permits. A
   * policy with an IPv4-mapped range never gets this far, because its write fails.
   */
  lemma ReportSoundness(s: Setup, steps: seq<Step>, tgid: nat, self: nat, daddr: IP, dport: nat)
    requires WellFormed(s) && (forall x :: x in steps ==> Legit(s, x))
    requires SeedingDone(s, steps) && AllTrusted(s, steps) && Run(s, steps).failed == 0
    requires tgid != self
    ensures var st := Run(s, steps);
            var v := VerdictForEvent(s.lib, tgid, dport, daddr, Lookup(s.lib, st.cache, daddr), self,
                                     Some(s.engine), s.resolvers);
            (IsAllow(v) || IsSkip(v)) ==> Permits(st.maps, daddr, dport)
  {
    var st := Run(s, steps);
    RunIsValid(s, steps);
    PolicyWritten(s, steps);
    ExemptWritten(s, steps);
    NamedAlongRun(s, steps);
    SoundInParts(s, st);
    assert VerdictForEvent(s.lib, tgid, dport, daddr, Lookup(s.lib, st.cache, daddr), self, Some(s.engine), s.resolvers)
        == Reported(s, st, daddr, dport);
  }

  /** The name in the last response that answered with the address; empty when there is none. */
  ghost function LastName(lib: Lib, steps: seq<Step>, ip: IP): string {
    if steps == [] then ""
    else
      var last := steps[|steps| - 1];
      if last.Response? && last.name != "" && Answers(lib, last.answers, ip) then last.name
      else LastName(lib, steps[..|steps| - 1], ip)
  }

  lemma {:induction false} CacheAlongRun(s: Setup, steps: seq<Step>, ip: IP)
    ensures Lookup(s.lib, Run(s, steps).cache, ip) == LastName(s.lib, steps, ip)
  {
    if steps != [] {
      var k := |steps| - 1;
      var last := steps[k];
      CacheAlongRun(s, steps[..k], ip);
      if last.Response? {
        CacheAfter(s.lib, Run(s, steps[..k]), last.name, Extends(s, last.src, last.name), last.answers, ip);
      }
    }
  }

  /** Loopback, or matched by a key that some step of the run asked for. */
  ghost predicate ReachAsked(s: Setup, steps: seq<Step>, ip: IP) {
    IsLoopback(ip) || exists p :: Asked(s, steps, p) && PrefixMatches(p, Canon(ip))
  }

  lemma ReachableExactly(s: Setup, steps: seq<Step>, ip: IP)
    requires Run(s, steps).failed == 0
    ensures Reachable(Run(s, steps).maps, ip) <==> ReachAsked(s, steps, ip)
  {
    var m := Run(s, steps).maps;
    if p :| InTrie(m, p) && PrefixMatches(p, Canon(ip)) {
      TriesExactly(s, steps, p);
    }
    if p :| Asked(s, steps, p) && PrefixMatches(p, Canon(ip)) {
      TriesExactly(s, steps, p);
    }
  }

  /**
   * Whatever the sources were and whichever later writes failed: once startup is finished
   * without a failed write, the report is sound exactly when every address that was last
   * answered for an allowed name is reachable.
   */
  lemma ReportSoundExactly(s: Setup, steps: seq<Step>, k: nat)
    requires WellFormed(s) && (forall x :: x in steps ==> Legit(s, x)) && StartedUp(s, steps, k)
    ensures ReportSound(s, Run(s, steps)) <==>
              forall ip: IP ::
                IsAllowedDomain(s.engine, LastName(s.lib, steps, ip)) ==> Reachable(Run(s, steps).maps, ip)
  {
    var st := Run(s, steps);
    RunIsValid(s, steps);
    SeededPolicy(s, steps, k);
    SeededExempt(s, steps, k);
    SoundInParts(s, st);
    forall ip: IP ensures Lookup(s.lib, st.cache, ip) == LastName(s.lib, steps, ip) {
      CacheAlongRun(s, steps, ip);
    }
  }

  /** When no later write failed either: each such address must be one that some step asked for. */
  lemma ReportSoundWhenAllTaken(s: Setup, steps: seq<Step>, k: nat)
    requires WellFormed(s) && (forall x :: x in steps ==> Legit(s, x)) && StartedUp(s, steps, k)
    requires Run(s, steps).failed == 0
    ensures ReportSound(s, Run(s, steps)) <==>
              forall ip: IP :: IsAllowedDomain(s.engine, LastName(s.lib, steps, ip)) ==> ReachAsked(s, steps, ip)
  {
    ReportSoundExactly(s, steps, k);
    forall ip: IP ensures Reachable(Run(s, steps).maps, ip) <==> ReachAsked(s, steps, ip) {
      ReachableExactly(s, steps, ip);
    }
  }

  // ---------------------------------------------------------------- where it fails

  /**
   * Without the trust condition it fails for every allowed name: each of an untrusted
   * response's answers that the kernel does not reach anyway is reported as allowed and denied.
   */
  lemma UntrustedAnswerIsMisreported(s: Setup, st: State, src: IP, name: string, answers: seq<Answer>, ip: IP)
    requires Valid(st.maps) && !Reachable(st.maps, ip) && Answers(s.lib, answers, ip)
    requires IsAllowedDomain(s.engine, name) && !IsTrustedSource(s, src)
    ensures var n := Apply(s, st, Response(src, name, answers));
            Reported(s, n, ip, 443) == ALLOW && !Permits(n.maps, ip, 443)
  {
    var n := ObserveAll(s.lib, st, name, false, answers);
    assert n == Apply(s, st, Response(src, name, answers));
    ObserveAllEffect(s.lib, st, name, false, answers);
    CacheAfter(s.lib, st, name, false, answers, ip);
    NamedIsAllowed(s, n, ip, name);
  }

  /** An address that carries an allowed name and is not reachable is misreported. */
  lemma NamedIsAllowed(s: Setup, n: State, ip: IP, name: string)
    requires Valid(n.maps) && !Reachable(n.maps, ip)
    requires Lookup(s.lib, n.cache, ip) == name && IsAllowedDomain(s.engine, name)
    ensures Reported(s, n, ip, 443) == ALLOW && !Permits(n.maps, ip, 443)
  {
    PermitsMeaning(n.maps, ip, 443);
  }

  const ONE_NAME := Engine("block", {"x"}, [], map[], [], false)

  /**
   * A concrete run: the policy allows the name "x", there are no nameservers, and 203.0.113.1
   * answers that "x" is 198.51.100.9.
   */
  lemma UntrustedResponseExample(lib: Lib)
    requires Lawful(lib)
    ensures var s := Setup(lib, ONE_NAME, [], map[]);
            var n := Apply(s, START, Response([203, 0, 113, 1], "x", [Answer([198, 51, 100, 9], false)]));
            && WellFormed(s) && n.failed == 0
            && Reported(s, n, [198, 51, 100, 9], 443) == ALLOW
            && !Permits(n.maps, [198, 51, 100, 9], 443)
  {
    var s := Setup(lib, ONE_NAME, [], map[]);
    assert ToLower("x") == "x";
    assert IsAllowedDomain(s.engine, "x");
    var src, ip: IP := [203, 0, 113, 1], [198, 51, 100, 9];
    assert !IsTrustedSource(s, src);
    assert !Reachable(START.maps, ip);
    var answers := [Answer(ip, false)];
    assert answers[0] in answers && Answers(lib, answers, ip);
    UntrustedAnswerIsMisreported(s, START, src, "x", answers, ip);
    InertKeepsMaps(s, START, Response(src, "x", answers));
  }

  /**
   * An IPv4-mapped range fails the same way whatever the rest of the policy: its write is
   * refused, and its own base is reported as allowed but not covered by it.
   */
  lemma MappedRangeIsRefused(s: Setup, st: State, net: IPNet, fault: bool)
    requires IsNetwork(net) && IsMapped(net.ip) && net in s.engine.cidrs
    ensures Apply(s, st, SeedCIDR(net, fault)) == st.(failed := st.failed + 1)
    ensures AllowsIP(s.lib, s.engine, net.ip)
  {
    FitsExactly(net);
    assert NetContains(net, net.ip);
  }

  const MAPPED_BASE: IP := [0, 0, 0, 0, 0, 0, 0, 0, 0, 0, 0xff, 0xff, 10, 0, 0, 0]
  const MAPPED_TEXT := "::ffff:10.0.0.0"
  const MAPPED_RANGE := IPNet(MAPPED_BASE, 104)

  lemma MappedRangeIsNetwork()
    ensures IsNetwork(MAPPED_RANGE) && IsMapped(MAPPED_RANGE.ip)
  {
    var net := MAPPED_RANGE;
    assert net.ip[..12] == V4_IN_V6;
    forall i | 0 <= i < 16 ensures net.ip[i] & MaskAt(104, i) == net.ip[i] {
      if i == 10 || i == 11 || i == 12 {
        AndOnes(net.ip[i]);
      }
    }
  }

  /** The entry is loaded as that range, whenever the library reads its base as it should. */
  lemma MappedRangeEntry(lib: Lib)
    requires Lawful(lib) && lib.readV6(MAPPED_TEXT) == Some(MAPPED_BASE)
    ensures Classify(lib, MAPPED_TEXT + "/" + "104") == Ok(Range(MAPPED_RANGE))
  {
    MappedRangeIsNetwork();
    OneHundredAndFour();
    CompressedRangeEntry(lib, MAPPED_TEXT, "104", MAPPED_BASE, 104);
  }

  lemma OneHundredAndFour()
    ensures ParseUint("104", 128) == Some(104)
  {
    assert "104"[..2] == "10" && "10"[..1] == "1" && "1"[..0] == "";
    assert Value("1") == 1;
    assert Value("10") == 10;
  }

  /**
   * A concrete policy with only that range: its base is reported as allowed, and after the
   * refused write the kernel denies it.
   */
  lemma MappedRangeExample(lib: Lib)
    requires Lawful(lib)
    ensures var s := Setup(lib, Engine("block", {}, [], map[], [MAPPED_RANGE], false), [], map[]);
            var n := Apply(s, START, SeedCIDR(MAPPED_RANGE, false));
            && WellFormed(s) && n.failed == 1
            && Reported(s, n, MAPPED_BASE, 443) == ALLOW && !Permits(n.maps, MAPPED_BASE, 443)
  {
    var s := Setup(lib, Engine("block", {}, [], map[], [MAPPED_RANGE], false), [], map[]);
    MappedRangeIsNetwork();
    MappedRangeIsRefused(s, START, MAPPED_RANGE, false);
    PermitsMeaning(START.maps, MAPPED_BASE, 443);
    assert Canon(MAPPED_BASE)[0] == 10;
  }
}
