/**
 * The nameserver list: how it is merged and deduplicated in place, and when the three
 * consumers of it (response trust, verdict reporting, kernel port 53) agree.
 */
module Resolvers {
  import opened Basics
  import opened Net
  import opened Hosts
  import opened Policy
  import opened Verdict
  import opened Kernel
  import opened Enforcement
  import opened ReportSoundness

  // ---------------------------------------------------------------- discovery

  /** The addresses whose text did not come before, in order. */
  function FirstOccurrences(lib: Lib, ips: seq<IP>): seq<IP> {
    if ips == [] then []
    else
      var k := |ips| - 1;
      var front := FirstOccurrences(lib, ips[..k]);
      if IPString(lib, ips[k]) in ResolverTexts(lib, ips[..k]) then front else front + [ips[k]]
  }

  lemma TextsAppend(lib: Lib, ips: seq<IP>, ip: IP)
    ensures ResolverTexts(lib, ips + [ip]) == ResolverTexts(lib, ips) + {IPString(lib, ip)}
  {
    assert forall x :: x in ips + [ip] <==> x in ips || x == ip;
  }

  predicate DistinctTexts(lib: Lib, ips: seq<IP>) {
    forall i, j :: 0 <= i < j < |ips| ==> IPString(lib, ips[i]) != IPString(lib, ips[j])
  }

  lemma DistinctAppend(lib: Lib, ips: seq<IP>, ip: IP)
    requires DistinctTexts(lib, ips) && IPString(lib, ip) !in ResolverTexts(lib, ips)
    ensures DistinctTexts(lib, ips + [ip])
  {
    forall i | 0 <= i < |ips| ensures IPString(lib, ips[i]) != IPString(lib, ip) {
      assert ips[i] in ips;
    }
  }

  /** Deduplication loses no address and keeps no repeated one. */
  lemma {:induction false} FirstOccurrencesKeep(lib: Lib, ips: seq<IP>)
    ensures ResolverTexts(lib, FirstOccurrences(lib, ips)) == ResolverTexts(lib, ips)
    ensures DistinctTexts(lib, FirstOccurrences(lib, ips))
  {
    if ips != [] {
      var front, last := ips[..|ips| - 1], ips[|ips| - 1];
      var f := FirstOccurrences(lib, front);
      FirstOccurrencesKeep(lib, front);
      assert ips == front + [last];
      TextsAppend(lib, front, last);
      if IPString(lib, last) !in ResolverTexts(lib, front) {
        TextsAppend(lib, f, last);
        DistinctAppend(lib, f, last);
      }
    }
  }

  /** An address none of those before it has the text of. */
  predicate IsFirst(lib: Lib, ips: seq<IP>, i: nat) {
    i < |ips| && forall j :: 0 <= j < i ==> IPString(lib, ips[j]) != IPString(lib, ips[i])
  }

  /** The places they came from: exactly the first occurrences, in the order of the list. */
  ghost predicate ArePlaces(lib: Lib, ips: seq<IP>, out: seq<IP>, places: seq<nat>) {
    && |places| == |out|
    && (forall k :: 0 <= k < |out| ==> IsFirst(lib, ips, places[k]) && out[k] == ips[places[k]])
    && (forall k, l :: 0 <= k < l < |out| ==> places[k] < places[l])
    && (forall i: nat :: IsFirst(lib, ips, i) ==> i in places)
  }

  lemma FirstAppend(lib: Lib, ips: seq<IP>, ip: IP, i: nat)
    ensures IsFirst(lib, ips + [ip], i) <==>
              IsFirst(lib, ips, i) || (i == |ips| && IPString(lib, ip) !in ResolverTexts(lib, ips))
  {
    var all := ips + [ip];
    assert forall j :: 0 <= j < |ips| ==> all[j] == ips[j];
    if i == |ips| && IPString(lib, ip) in ResolverTexts(lib, ips) {
      var x :| x in ips && IPString(lib, x) == IPString(lib, ip);
      var j :| 0 <= j < |ips| && ips[j] == x;
      assert all[j] == x && all[i] == ip;
    }
  }

  lemma PlacesAppend(lib: Lib, ips: seq<IP>, ip: IP, out: seq<IP>, places: seq<nat>)
    requires ArePlaces(lib, ips, out, places)
    ensures IPString(lib, ip) in ResolverTexts(lib, ips) ==> ArePlaces(lib, ips + [ip], out, places)
    ensures IPString(lib, ip) !in ResolverTexts(lib, ips) ==>
              ArePlaces(lib, ips + [ip], out + [ip], places + [|ips|])
  {
    forall i: nat ensures IsFirst(lib, ips + [ip], i) <==>
               IsFirst(lib, ips, i) || (i == |ips| && IPString(lib, ip) !in ResolverTexts(lib, ips))
    {
      FirstAppend(lib, ips, ip, i);
    }
    assert (places + [|ips|])[|places|] == |ips|;
  }

  /** Deduplication keeps exactly the first occurrence of every text, in order. */
  lemma {:induction false} FirstOccurrencesExactly(lib: Lib, ips: seq<IP>) returns (places: seq<nat>)
    ensures ArePlaces(lib, ips, FirstOccurrences(lib, ips), places)
  {
    if ips == [] {
      places := [];
    } else {
      var k := |ips| - 1;
      places := FirstOccurrencesExactly(lib, ips[..k]);
      PlacesAppend(lib, ips[..k], ips[k], FirstOccurrences(lib, ips[..k]), places);
      assert ips == ips[..k] + [ips[k]];
      if IPString(lib, ips[k]) !in ResolverTexts(lib, ips[..k]) {
        places := places + [k];
      }
    }
  }

  /** What the loop has done after one more address. */
  lemma FirstOccurrencesStep(lib: Lib, ips: seq<IP>, i: nat)
    requires i < |ips|
    ensures ResolverTexts(lib, ips[..i + 1]) == ResolverTexts(lib, ips[..i]) + {IPString(lib, ips[i])}
    ensures FirstOccurrences(lib, ips[..i + 1]) == FirstOccurrences(lib, ips[..i])
              + if IPString(lib, ips[i]) in ResolverTexts(lib, ips[..i]) then [] else [ips[i]]
  {
    assert ips[..i + 1] == ips[..i] + [ips[i]];
    assert ips[..i + 1][..i] == ips[..i];
    TextsAppend(lib, ips[..i], ips[i]);
  }

  /** The compaction into the slice's own storage: writes never overtake reads. */
  method Compact(lib: Lib, ips: array<IP>) returns (n: nat)
    modifies ips
    ensures n <= ips.Length && ips[..n] == FirstOccurrences(lib, old(ips[..]))
  {
    ghost var was := ips[..];
    var seen: set<string> := {};
    n := 0;
    for i := 0 to ips.Length
      invariant n <= i && ips[..n] == FirstOccurrences(lib, was[..i])
      invariant seen == ResolverTexts(lib, was[..i])
      invariant forall j :: i <= j < ips.Length ==> ips[j] == was[j]
    {
      FirstOccurrencesStep(lib, was, i);
      var text := IPString(lib, ips[i]);
      if text !in seen {
        seen := seen + {text};
        ips[n] := ips[i];
        n := n + 1;
      }
    }
    assert was[..ips.Length] == was;
  }

  /**
   * resolversFrom on the two parsed files: the second counts only when the first names
   * nothing but loopback, and repeated addresses are dropped.
   */
  method ResolversFrom(lib: Lib, etc: seq<IP>, run: seq<IP>) returns (out: seq<IP>)
    ensures out == FirstOccurrences(lib, if forall ip :: ip in etc ==> IsLoopback(ip) then etc + run else etc)
  {
    var ips, onlyLoopback := etc, true;
    for i := 0 to |etc|
      invariant onlyLoopback && forall j :: 0 <= j < i ==> IsLoopback(etc[j])
    {
      if !IsLoopback(etc[i]) {
        onlyLoopback := false;
        break;
      }
    }
    if onlyLoopback {
      ips := ips + run;
    }
    var buffer: array<IP> := new IP[|ips|](i requires 0 <= i < |ips| => ips[i]);
    assert buffer[..] == ips;
    var n := Compact(lib, buffer);
    out := buffer[..n];
  }

  // ---------------------------------------------------------------- agreement

  /** The distinct non-loopback nameservers of one family. */
  function Family(rs: seq<IP>, width: nat): set<IP> {
    set r | r in rs && !IsLoopback(r) && |Canon(r)| == width :: Canon(r)
  }

  predicate NoFault(step: Step) {
    step.SeedResolver? ==> !step.fault
  }

  lemma ResponseKeepsResolvers(s: Setup, st: State, step: Step)
    requires step.Response?
    ensures Apply(s, st, step).maps.resolvers4 == st.maps.resolvers4
    ensures Apply(s, st, step).maps.resolvers6 == st.maps.resolvers6
  {
    ObserveKeepsResolvers(s.lib, st, step.name, Extends(s, step.src, step.name), step.answers);
  }

  lemma {:induction false} ObserveKeepsResolvers(lib: Lib, st: State, name: string, allow: bool, answers: seq<Answer>)
    ensures ObserveAll(lib, st, name, allow, answers).maps.resolvers4 == st.maps.resolvers4
    ensures ObserveAll(lib, st, name, allow, answers).maps.resolvers6 == st.maps.resolvers6
    decreases |answers|
  {
    if answers != [] {
      ObserveKeepsResolvers(lib, Observe(lib, st, name, allow, answers[0]), name, allow, answers[1..]);
    }
  }

  /** One resolver set along a run: nameservers of its family, and at most 16 of them. */
  lemma {:induction false} ListedAlongRun(s: Setup, steps: seq<Step>, width: nat)
    requires width == 4 || width == 16
    requires forall x :: x in steps ==> Legit(s, x)
    ensures var l := Listed(Run(s, steps).maps, width);
            l <= Family(s.resolvers, width) && |l| <= RESOLVER_ENTRIES
  {
    if steps != [] {
      var k := |steps| - 1;
      ListedAlongRun(s, steps[..k], width);
      assert steps[k] in steps;
      if steps[k].Response? {
        ResponseKeepsResolvers(s, Run(s, steps[..k]), steps[k]);
      } else {
        ListedStep(s, Run(s, steps[..k]), steps[k], width);
      }
    }
  }

  lemma ListedStep(s: Setup, st: State, step: Step, width: nat)
    requires width == 4 || width == 16
    requires Legit(s, step) && !step.Response?
    requires Listed(st.maps, width) <= Family(s.resolvers, width) && |Listed(st.maps, width)| <= RESOLVER_ENTRIES
    ensures Listed(Apply(s, st, step).maps, width) <= Family(s.resolvers, width)
    ensures |Listed(Apply(s, st, step).maps, width)| <= RESOLVER_ENTRIES
  {
    match step
    case SeedResolver(ip, fault) =>
      if !IsLoopback(ip) && |Canon(ip)| == width {
        assert Canon(ip) in Family(s.resolvers, width);
      }
    case SetDNS(_) =>
    case SeedIP(_, _) =>
    case SeedCIDR(_, _) =>
    case SeedLookup(_, _, _) =>
  }

  lemma StrictSubset(a: set<IP>, b: set<IP>, x: IP)
    requires a <= b && x in b && x !in a
    ensures |a| < |b|
  {
    assert |b - a| == |b| - |a|;
    assert x in b - a;
  }

  lemma {:induction false} TriedIsListed(s: Setup, steps: seq<Step>, r: IP)
    requires forall x :: x in steps ==> Legit(s, x) && NoFault(x)
    requires !IsLoopback(r) && SeedResolver(r, false) in steps
    requires |Family(s.resolvers, |Canon(r)|)| <= RESOLVER_ENTRIES
    ensures ResolverListed(Run(s, steps).maps, r)
  {
    var k := |steps| - 1;
    var st := Run(s, steps[..k]);
    var l := Listed(st.maps, |Canon(r)|);
    ApplyEffect(s, st, steps[k]);
    ListedAlongRun(s, steps[..k], |Canon(r)|);
    if steps[k] == SeedResolver(r, false) {
      if Canon(r) !in l {
        StrictSubset(l, Family(s.resolvers, |Canon(r)|), Canon(r));
      }
    } else {
      assert steps == steps[..k] + [steps[k]];
      TriedIsListed(s, steps[..k], r);
    }
  }

  /** No entry at all: nothing but the nameservers and loopback can be permitted. */
  ghost predicate EmptyPolicy(e: Engine) {
    e.domains == {} && e.wildcards == [] && e.allowedIP == map[] && e.cidrs == [] && !e.allowAllDNS
  }

  lemma EmptyPolicyPermits(s: Setup, steps: seq<Step>, a: IP)
    requires EmptyPolicy(s.engine) && (forall x :: x in steps ==> Legit(s, x))
    ensures Permits(Run(s, steps).maps, a, 53) <==> IsLoopback(a) || ResolverListed(Run(s, steps).maps, a)
  {
    var m := Run(s, steps).maps;
    RunIsValid(s, steps);
    PermitsMeaning(m, a, 53);
    FlagAndResolvers(s, steps);
    if Covered(m, a) {
      var p :| InTrie(m, p) && PrefixMatches(p, Canon(a));
      KeyHasAStep(s, steps, p);
      var step :| step in steps && Contributes(s, step, p);
      LegitJustifies(s, steps, step, p);
    }
  }

  /** Not loopback, but of the discovered nameservers: exempt for the report. */
  lemma ExemptMeaning(s: Setup, a: IP)
    requires Lawful(s.lib) && !s.engine.allowAllDNS
    ensures DNSExempt(s.lib, Some(s.engine), s.resolvers, a)
        <==> IsLoopback(a) || Canon(a) in Family(s.resolvers, |Canon(a)|)
  {
    if !IsLoopback(a) {
      if IPString(s.lib, a) in ResolverTexts(s.lib, s.resolvers) {
        var r :| r in s.resolvers && IPString(s.lib, r) == IPString(s.lib, a);
        IPStringInjective(s.lib, r, a);
        SameLoopback(r, a);
      }
      if Canon(a) in Family(s.resolvers, |Canon(a)|) {
        var r :| r in s.resolvers && Canon(r) == Canon(a);
        IPStringInjective(s.lib, r, a);
      }
    }
  }

  /**
   * For IPv4, in either form, a source is trusted exactly when its port 53 is exempt in the
   * report.
   */
  lemma TrustedIsExempt(s: Setup, a: IP)
    requires !s.engine.allowAllDNS && To4(a).Some?
    ensures IsTrustedSource(s, a) <==> DNSExempt(s.lib, Some(s.engine), s.resolvers, a)
  {
    CanonText(s.lib, a);
  }

  lemma AgreeWhenTheyFit(s: Setup, steps: seq<Step>, a: IP)
    requires WellFormed(s) && EmptyPolicy(s.engine)
    requires forall x :: x in steps ==> Legit(s, x) && NoFault(x)
    requires forall r :: r in s.resolvers ==> ResolverTried(steps, r)
    requires |Family(s.resolvers, |Canon(a)|)| <= RESOLVER_ENTRIES
    ensures DNSExempt(s.lib, Some(s.engine), s.resolvers, a) <==> Permits(Run(s, steps).maps, a, 53)
  {
    EmptyPolicyPermits(s, steps, a);
    ExemptMeaning(s, a);
    ListedAlongRun(s, steps, |Canon(a)|);
    if Canon(a) in Family(s.resolvers, |Canon(a)|) {
      var r :| r in s.resolvers && !IsLoopback(r) && Canon(r) == Canon(a);
      assert NoFault(SeedResolver(r, false)) && !NoFault(SeedResolver(r, true));
      TriedIsListed(s, steps, r);
    }
  }

  /**
   * Resolver agreement: with an empty allowlist and every nameserver offered to the kernel,
   * the report's exemption and the kernel's port-53 decision agree on every address exactly
   * when the distinct non-loopback nameservers of each family fit its map of 16.
   */
  lemma ResolverAgreement(s: Setup, steps: seq<Step>)
    requires WellFormed(s) && EmptyPolicy(s.engine)
    requires forall x :: x in steps ==> Legit(s, x) && NoFault(x)
    requires forall r :: r in s.resolvers ==> ResolverTried(steps, r)
    ensures (forall a: IP :: DNSExempt(s.lib, Some(s.engine), s.resolvers, a) <==> Permits(Run(s, steps).maps, a, 53))
       <==> (|Family(s.resolvers, 4)| <= RESOLVER_ENTRIES && |Family(s.resolvers, 16)| <= RESOLVER_ENTRIES)
  {
    var m := Run(s, steps).maps;
    if |Family(s.resolvers, 4)| > RESOLVER_ENTRIES {
      var a := OverflowDisagrees(s, steps, 4);
    } else if |Family(s.resolvers, 16)| > RESOLVER_ENTRIES {
      var a := OverflowDisagrees(s, steps, 16);
    } else {
      forall a: IP ensures DNSExempt(s.lib, Some(s.engine), s.resolvers, a) <==> Permits(m, a, 53) {
        AgreeWhenTheyFit(s, steps, a);
      }
    }
  }

  /** One nameserver too many: some nameserver is exempt in the report and denied. */
  lemma OverflowDisagrees(s: Setup, steps: seq<Step>, width: nat) returns (a: IP)
    requires width == 4 || width == 16
    requires WellFormed(s) && EmptyPolicy(s.engine) && (forall x :: x in steps ==> Legit(s, x))
    requires |Family(s.resolvers, width)| > RESOLVER_ENTRIES
    ensures a in Family(s.resolvers, width)
    ensures DNSExempt(s.lib, Some(s.engine), s.resolvers, a) && !Permits(Run(s, steps).maps, a, 53)
  {
    var l, f := Listed(Run(s, steps).maps, width), Family(s.resolvers, width);
    ListedAlongRun(s, steps, width);
    assert |f - l| == |f| - |l|;
    a :| a in f - l;
    var r :| r in s.resolvers && !IsLoopback(r) && Canon(r) == a;
    To16Canon(r);
    SameLoopback(r, a);
    ExemptMeaning(s, a);
    EmptyPolicyPermits(s, steps, a);
  }

  // ---------------------------------------------------------------- seventeen nameservers

  lemma FamilyOfIPv4(rs: seq<IP>)
    requires forall r :: r in rs ==> |r| == 4 && !IsLoopback(r)
    ensures Family(rs, 4) == Different(rs)
  {
  }

  function Offers(rs: seq<IP>): seq<Step> {
    seq(|rs|, i requires 0 <= i < |rs| => SeedResolver(rs[i], false))
  }

  const NO_NAMES := Engine("block", {}, [], map[], [], false)

  /** Each nameserver is offered to the kernel, which refuses none but for a full map. */
  lemma OfferedOverflow(lib: Lib, rs: seq<IP>) returns (a: IP)
    requires Lawful(lib) && |Family(rs, 4)| > RESOLVER_ENTRIES
    ensures var s := Setup(lib, NO_NAMES, rs, map[]);
            var steps := Offers(rs);
            && WellFormed(s) && (forall x :: x in steps ==> Legit(s, x))
            && a in Family(rs, 4) && DNSExempt(lib, Some(NO_NAMES), rs, a) && !Permits(Run(s, steps).maps, a, 53)
  {
    var s := Setup(lib, NO_NAMES, rs, map[]);
    a := OverflowDisagrees(s, Offers(rs), 4);
  }

  /** The nameservers 1.1.1.1 to 1.1.2.8: one of them is exempt in the report and denied. */
  lemma OverflowExample(lib: Lib)
    requires Lawful(lib)
    ensures var rs := First(HOST, 17);
            var s := Setup(lib, NO_NAMES, rs, map[]);
            var steps := Offers(rs);
            && WellFormed(s) && (forall x :: x in steps ==> Legit(s, x))
            && exists a: IP :: a in rs && DNSExempt(lib, Some(NO_NAMES), rs, a) && !Permits(Run(s, steps).maps, a, 53)
  {
    HostsDiffer(17);
    FamilyOfIPv4(First(HOST, 17));
    var rs := First(HOST, 17);
    var a := OfferedOverflow(lib, rs);
    assert a in rs;
  }
}
