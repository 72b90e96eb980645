/**
 * Runs of the agent in block mode. A run is any interleaving of the startup writes with the
 * DNS responses the watcher observes; a connect or sendmsg asks the kernel in the state
 * between two steps.
 */
module Enforcement {
  import opened Basics
  import opened Net
  import opened Policy
  import opened Verdict
  import opened Kernel

  // ---------------------------------------------------------------- data

  /** What a run is about: the policy, the nameservers and the startup lookup answers. */
  datatype Setup = Setup(lib: Lib, engine: Engine, resolvers: seq<IP>, lookups: map<string, seq<IP>>)

  /** failed counts the map writes that failed; each one is a warning in the agent's log. */
  datatype State = State(maps: Maps, cache: map<string, string>, failed: nat)

  /** One address of a DNS response; fault says that the kernel will not take its key. */
  datatype Answer = Answer(ip: IP, fault: bool)

  datatype Step =
    | SeedResolver(ip: IP, fault: bool)
    | SetDNS(fault: bool)
    | SeedIP(ip: IP, fault: bool)
    | SeedCIDR(net: IPNet, fault: bool)
    | SeedLookup(domain: string, ip: IP, fault: bool)
    | Response(src: IP, name: string, answers: seq<Answer>)

  const START := State(EMPTY_MAPS, map[], 0)

  /** The engine's address table is keyed by text and its ranges are networks. */
  ghost predicate WellFormed(s: Setup) {
    && Lawful(s.lib)
    && (forall t :: t in s.engine.allowedIP ==> IPString(s.lib, s.engine.allowedIP[t]) == t)
    && (forall net :: net in s.engine.cidrs ==> IsNetwork(net))
  }

  /** Every engine that loads is well formed. */
  lemma LoadedIsWellFormed(s: Setup, entries: seq<string>)
    requires Lawful(s.lib) && Acceptable(ClassifierOf(s.lib), entries)
    requires Stores(s.lib, s.engine, Items(ClassifierOf(s.lib), entries))
    ensures WellFormed(s)
  {
    forall net | net in s.engine.cidrs ensures IsNetwork(net) {
      RangesAreNetworks(s.lib, entries, s.engine, net);
    }
  }

  // ---------------------------------------------------------------- steps

  /** isTrustedSourceIP: loopback, or an IPv4 nameserver of the host. */
  predicate IsTrustedSource(s: Setup, src: IP) {
    if IsLoopback(src) then true
    else match To4(src)
      case None => false
      case Some(ip4) => IPString(s.lib, ip4) in ResolverTexts(s.lib, s.resolvers)
  }

  /** DNSCache.Lookup: the empty text when nothing was observed. */
  function Lookup(lib: Lib, cache: map<string, string>, ip: IP): string {
    if IPString(lib, ip) in cache then cache[IPString(lib, ip)] else ""
  }

  /** Takes the new maps, or counts the failure and goes on. */
  function Take(st: State, r: Option<Maps>): State {
    match r case Some(m) => st.(maps := m) case None => st.(failed := st.failed + 1)
  }

  function Observe(lib: Lib, st: State, name: string, allow: bool, a: Answer): State {
    var seen := st.(cache := st.cache[IPString(lib, a.ip) := name]);
    if allow then Take(seen, AllowIP(seen.maps, a.ip, a.fault)) else seen
  }

  function ObserveAll(lib: Lib, st: State, name: string, allow: bool, answers: seq<Answer>): State
    decreases |answers|
  {
    if answers == [] then st
    else ObserveAll(lib, Observe(lib, st, name, allow, answers[0]), name, allow, answers[1..])
  }

  /** A response extends the tries only for an allowed name from a trusted source. */
  predicate Extends(s: Setup, src: IP, name: string) {
    IsAllowedDomain(s.engine, name) && IsTrustedSource(s, src)
  }

  function Apply(s: Setup, st: State, step: Step): State {
    match step
    case SeedResolver(ip, fault) =>
      if IsLoopback(ip) then st else Take(st, AllowResolver(st.maps, ip, fault))
    case SetDNS(fault) => Take(st, SetAllowAllDNS(st.maps, s.engine.allowAllDNS, fault))
    case SeedIP(ip, fault) => Take(st, AllowIP(st.maps, ip, fault))
    case SeedCIDR(net, fault) => Take(st, AllowCIDR(st.maps, net, fault))
    case SeedLookup(_, ip, fault) => Take(st, AllowIP(st.maps, ip, fault))
    case Response(src, name, answers) =>
      if name == "" then st else ObserveAll(s.lib, st, name, Extends(s, src, name), answers)
  }

  function Run(s: Setup, steps: seq<Step>): State {
    if steps == [] then START
    else Apply(s, Run(s, steps[..|steps| - 1]), steps[|steps| - 1])
  }

  /** Only what the policy, the nameserver list and the lookups name is ever seeded. */
  ghost predicate Legit(s: Setup, step: Step) {
    match step
    case SeedResolver(ip, _) => ip in s.resolvers
    case SetDNS(_) => true
    case SeedIP(ip, _) => ip in s.engine.allowedIP.Values
    case SeedCIDR(net, _) => net in s.engine.cidrs
    case SeedLookup(d, ip, _) => d in s.engine.domains && d in s.lookups && ip in s.lookups[d]
    case Response(_, _, _) => true
  }

  // ---------------------------------------------------------------- what one step does

  /** The trie keys a step asks for. */
  predicate Contributes(s: Setup, step: Step, p: Prefix) {
    match step
    case SeedResolver(_, _) => false
    case SetDNS(_) => false
    case SeedIP(ip, _) => p == HostPrefix(ip)
    case SeedCIDR(net, _) => p == NetPrefix(net)
    case SeedLookup(_, ip, _) => p == HostPrefix(ip)
    case Response(src, name, answers) => Extends(s, src, name) && exists a :: a in answers && p == HostPrefix(a.ip)
  }

  /** Maps only grow: no key leaves, and the DNS flag stays as it is. */
  ghost predicate Grows(m: Maps, n: Maps) {
    && (forall p :: InTrie(m, p) ==> InTrie(n, p))
    && (forall a :: ResolverListed(m, a) ==> ResolverListed(n, a))
    && (Valid(m) ==> Valid(n))
  }

  lemma {:induction false} ObserveAllEffect(lib: Lib, st: State, name: string, allow: bool, answers: seq<Answer>)
    ensures var n := ObserveAll(lib, st, name, allow, answers);
      && Grows(st.maps, n.maps) && n.maps.allowAllDNS == st.maps.allowAllDNS && n.failed >= st.failed
      && (forall a :: ResolverListed(n.maps, a) ==> ResolverListed(st.maps, a))
      && (forall p :: InTrie(n.maps, p) ==>
            InTrie(st.maps, p) || (allow && exists a :: a in answers && p == HostPrefix(a.ip)))
      && (allow && n.failed == st.failed ==> forall a :: a in answers ==> InTrie(n.maps, HostPrefix(a.ip)))
      && (!allow ==> n.maps == st.maps && n.failed == st.failed)
    decreases |answers|
  {
    if answers != [] {
      var one := Observe(lib, st, name, allow, answers[0]);
      ObserveAllEffect(lib, one, name, allow, answers[1..]);
      assert answers == [answers[0]] + answers[1..];
      if allow {
        ObserveEffect(lib, st, name, answers[0]);
      }
    }
  }

  lemma ObserveEffect(lib: Lib, st: State, name: string, a: Answer)
    ensures var n := Observe(lib, st, name, true, a);
      && Grows(st.maps, n.maps) && n.maps.allowAllDNS == st.maps.allowAllDNS && n.failed >= st.failed
      && (forall b :: ResolverListed(n.maps, b) ==> ResolverListed(st.maps, b))
      && (forall p :: InTrie(n.maps, p) ==> InTrie(st.maps, p) || p == HostPrefix(a.ip))
      && (n.failed == st.failed ==> InTrie(n.maps, HostPrefix(a.ip)))
  {
  }

  /**
   * One step: the tries gain only what the step contributes, they gain all of it unless a
   * write failed, and nothing is ever taken away.
   */
  lemma ApplyEffect(s: Setup, st: State, step: Step)
    ensures var n := Apply(s, st, step);
      && Grows(st.maps, n.maps) && n.failed >= st.failed
      && (forall p :: InTrie(n.maps, p) ==> InTrie(st.maps, p) || Contributes(s, step, p))
      && (n.failed == st.failed ==> forall p :: Contributes(s, step, p) ==> InTrie(n.maps, p))
  {
    match step
    case Response(src, name, answers) =>
      ObserveAllEffect(s.lib, st, name, Extends(s, src, name), answers);
    case SeedResolver(_, _) =>
    case SetDNS(_) =>
    case SeedIP(_, _) =>
    case SeedCIDR(_, _) =>
    case SeedLookup(_, _, _) =>
  }

  // ---------------------------------------------------------------- whole runs

  lemma {:induction false} RunGrows(s: Setup, steps: seq<Step>, k: nat)
    requires k <= |steps|
    ensures Grows(Run(s, steps[..k]).maps, Run(s, steps).maps)
    ensures Run(s, steps[..k]).failed <= Run(s, steps).failed
    decreases |steps| - k
  {
    if k == |steps| {
      assert steps[..k] == steps;
    } else {
      var next := steps[..k + 1];
      assert next[..k] == steps[..k] && next[k] == steps[k];
      ApplyEffect(s, Run(s, steps[..k]), steps[k]);
      RunGrows(s, steps, k + 1);
    }
  }

  lemma {:induction false} RunIsValid(s: Setup, steps: seq<Step>)
    ensures Valid(Run(s, steps).maps)
  {
    RunGrows(s, steps, 0);
  }

  ghost predicate Asked(s: Setup, steps: seq<Step>, p: Prefix) {
    exists step :: step in steps && Contributes(s, step, p)
  }

  /** Every trie key was asked for by some step of the run. */
  lemma {:induction false} KeyHasAStep(s: Setup, steps: seq<Step>, p: Prefix)
    requires InTrie(Run(s, steps).maps, p)
    ensures Asked(s, steps, p)
  {
    if steps != [] {
      var k := |steps| - 1;
      ApplyEffect(s, Run(s, steps[..k]), steps[k]);
      if Contributes(s, steps[k], p) {
        assert steps[k] in steps;
      } else {
        KeyHasAStep(s, steps[..k], p);
      }
    }
  }

  /** Without a failed write, the tries hold exactly the keys the steps asked for. */
  lemma TriesExactly(s: Setup, steps: seq<Step>, p: Prefix)
    requires Run(s, steps).failed == 0
    ensures InTrie(Run(s, steps).maps, p) <==> Asked(s, steps, p)
  {
    if InTrie(Run(s, steps).maps, p) {
      KeyHasAStep(s, steps, p);
    } else {
      forall step | step in steps ensures !Contributes(s, step, p) {
        var k :| 0 <= k < |steps| && steps[k] == step;
        var upTo := steps[..k + 1];
        assert upTo[..k] == steps[..k] && upTo[k] == step;
        RunGrows(s, steps, k);
        RunGrows(s, steps, k + 1);
        ApplyEffect(s, Run(s, steps[..k]), step);
        assert !InTrie(Run(s, upTo).maps, p);
      }
    }
  }

  /** Schedules that ask for the same keys end with the same tries, unless a write failed. */
  lemma OrderIsIrrelevant(s: Setup, a: seq<Step>, b: seq<Step>)
    requires Run(s, a).failed == 0 && Run(s, b).failed == 0
    requires forall p :: Asked(s, a, p) <==> Asked(s, b, p)
    ensures Run(s, a).maps.ips4 == Run(s, b).maps.ips4 && Run(s, a).maps.ips6 == Run(s, b).maps.ips6
  {
    var m, n := Run(s, a).maps, Run(s, b).maps;
    RunIsValid(s, a);
    RunIsValid(s, b);
    forall p ensures InTrie(m, p) <==> InTrie(n, p) {
      TriesExactly(s, a, p);
      TriesExactly(s, b, p);
    }
    forall p ensures (p in m.ips4 <==> p in n.ips4) && (p in m.ips6 <==> p in n.ips6) {
      assert InTrie(m, p) <==> InTrie(n, p);
    }
  }

  // ---------------------------------------------------------------- provenance

  /** Why a trie key may be there. */
  ghost predicate Justified(s: Setup, steps: seq<Step>, p: Prefix) {
    || (exists t :: t in s.engine.allowedIP && p == HostPrefix(s.engine.allowedIP[t]))
    || (exists net :: net in s.engine.cidrs && p == NetPrefix(net))
    || (exists d, ip :: d in s.engine.domains && d in s.lookups && ip in s.lookups[d] && p == HostPrefix(ip))
    || (exists r :: r in steps && r.Response? && IsTrustedSource(s, r.src) && IsAllowedDomain(s.engine, r.name)
          && exists a :: a in r.answers && p == HostPrefix(a.ip))
  }

  lemma LegitJustifies(s: Setup, steps: seq<Step>, step: Step, p: Prefix)
    requires step in steps && Legit(s, step) && Contributes(s, step, p)
    ensures Justified(s, steps, p)
  {
    match step
    case SeedIP(ip, _) =>
      var t :| t in s.engine.allowedIP && s.engine.allowedIP[t] == ip;
    case SeedCIDR(net, _) =>
    case SeedLookup(d, ip, _) =>
    case Response(_, _, _) =>
  }

  lemma {:induction false} FlagAndResolvers(s: Setup, steps: seq<Step>)
    requires forall x :: x in steps ==> Legit(s, x)
    ensures Run(s, steps).maps.allowAllDNS ==> s.engine.allowAllDNS
    ensures forall a :: ResolverListed(Run(s, steps).maps, a) ==> exists r :: r in s.resolvers && Canon(r) == Canon(a)
  {
    if steps != [] {
      var k := |steps| - 1;
      FlagAndResolvers(s, steps[..k]);
      assert steps[k] in steps;
      if steps[k].Response? {
        var r := steps[k];
        ObserveAllEffect(s.lib, Run(s, steps[..k]), r.name, Extends(s, r.src, r.name), r.answers);
      }
    }
  }

  /**
   * Provenance: in every reachable state, what the kernel permits is loopback, an exempt
   * port-53 destination, or covered by a key that the policy, a startup lookup of one of its
   * names, or a trusted response for an allowed name put there.
   */
  lemma Provenance(s: Setup, steps: seq<Step>, daddr: IP, dport: nat)
    requires forall x :: x in steps ==> Legit(s, x)
    requires Permits(Run(s, steps).maps, daddr, dport)
    ensures || IsLoopback(daddr)
            || (dport == 53 && (s.engine.allowAllDNS || exists r :: r in s.resolvers && Canon(r) == Canon(daddr)))
            || exists p :: Justified(s, steps, p) && PrefixMatches(p, Canon(daddr))
  {
    var m := Run(s, steps).maps;
    RunIsValid(s, steps);
    PermitsMeaning(m, daddr, dport);
    FlagAndResolvers(s, steps);
    if Covered(m, daddr) {
      var p :| InTrie(m, p) && PrefixMatches(p, Canon(daddr));
      KeyHasAStep(s, steps, p);
      var step :| step in steps && Contributes(s, step, p);
      LegitJustifies(s, steps, step, p);
    }
  }

  lemma PermitsGrows(m: Maps, n: Maps, daddr: IP, dport: nat)
    requires Valid(m) && Grows(m, n) && (m.allowAllDNS ==> n.allowAllDNS)
    requires Permits(m, daddr, dport)
    ensures Permits(n, daddr, dport)
  {
    PermitsMeaning(m, daddr, dport);
    PermitsMeaning(n, daddr, dport);
    if Covered(m, daddr) {
      var p :| InTrie(m, p) && PrefixMatches(p, Canon(daddr));
      assert InTrie(n, p);
    }
  }

  /** Along a run a permitted destination stays permitted. */
  lemma {:induction false} PermitsOnlyGrow(s: Setup, steps: seq<Step>, k: nat, daddr: IP, dport: nat)
    requires k <= |steps| && forall x :: x in steps ==> Legit(s, x)
    requires Permits(Run(s, steps[..k]).maps, daddr, dport)
    ensures Permits(Run(s, steps).maps, daddr, dport)
    decreases |steps| - k
  {
    if k == |steps| {
      assert steps[..k] == steps;
    } else {
      var st, next := Run(s, steps[..k]), steps[..k + 1];
      assert next[..k] == steps[..k] && next[k] == steps[k];
      RunIsValid(s, steps[..k]);
      FlagAndResolvers(s, steps[..k]);
      FlagStays(s, st, steps[k]);
      ApplyEffect(s, st, steps[k]);
      PermitsGrows(st.maps, Run(s, next).maps, daddr, dport);
      PermitsOnlyGrow(s, steps, k + 1, daddr, dport);
    }
  }

  lemma FlagStays(s: Setup, st: State, step: Step)
    requires st.maps.allowAllDNS ==> s.engine.allowAllDNS
    ensures st.maps.allowAllDNS ==> Apply(s, st, step).maps.allowAllDNS
  {
    if step.Response? {
      ObserveAllEffect(s.lib, st, step.name, Extends(s, step.src, step.name), step.answers);
    }
  }

  // ---------------------------------------------------------------- non-interference

  /** A response from an untrusted source, or for a name that is not allowed. */
  predicate Inert(s: Setup, step: Step) {
    step.Response? && !Extends(s, step.src, step.name)
  }

  function WithoutInert(s: Setup, steps: seq<Step>): seq<Step> {
    if steps == [] then []
    else
      var front, last := WithoutInert(s, steps[..|steps| - 1]), steps[|steps| - 1];
      if Inert(s, last) then front else front + [last]
  }

  lemma {:induction false} ObserveAllIgnoresCache(lib: Lib, x: State, y: State, name: string, allow: bool,
                                                 answers: seq<Answer>)
    requires x.maps == y.maps && x.failed == y.failed
    ensures ObserveAll(lib, x, name, allow, answers).maps == ObserveAll(lib, y, name, allow, answers).maps
    ensures ObserveAll(lib, x, name, allow, answers).failed == ObserveAll(lib, y, name, allow, answers).failed
    decreases |answers|
  {
    if answers != [] {
      ObserveAllIgnoresCache(lib, Observe(lib, x, name, allow, answers[0]), Observe(lib, y, name, allow, answers[0]),
                             name, allow, answers[1..]);
    }
  }

  lemma ApplyIgnoresCache(s: Setup, x: State, y: State, step: Step)
    requires x.maps == y.maps && x.failed == y.failed
    ensures Apply(s, x, step).maps == Apply(s, y, step).maps && Apply(s, x, step).failed == Apply(s, y, step).failed
  {
    if step.Response? {
      ObserveAllIgnoresCache(s.lib, x, y, step.name, Extends(s, step.src, step.name), step.answers);
    }
  }

  lemma InertKeepsMaps(s: Setup, st: State, step: Step)
    requires Inert(s, step)
    ensures Apply(s, st, step).maps == st.maps && Apply(s, st, step).failed == st.failed
  {
    ObserveAllEffect(s.lib, st, step.name, false, step.answers);
  }

  lemma {:induction false} InertHasNoEffect(s: Setup, steps: seq<Step>)
    ensures Run(s, steps).maps == Run(s, WithoutInert(s, steps)).maps
    ensures Run(s, steps).failed == Run(s, WithoutInert(s, steps)).failed
  {
    if steps != [] {
      var k := |steps| - 1;
      var last, front := steps[k], WithoutInert(s, steps[..k]);
      InertHasNoEffect(s, steps[..k]);
      if Inert(s, last) {
        InertKeepsMaps(s, Run(s, steps[..k]), last);
      } else {
        assert (front + [last])[..|front|] == front;
        ApplyIgnoresCache(s, Run(s, steps[..k]), Run(s, front), last);
      }
    }
  }

  /**
   * Non-interference: runs that differ only in responses from untrusted sources or for names
   * that are not allowed end with the same maps, so the kernel decides alike everywhere.
   */
  lemma NonInterference(s: Setup, a: seq<Step>, b: seq<Step>)
    requires WithoutInert(s, a) == WithoutInert(s, b)
    ensures Run(s, a).maps == Run(s, b).maps
    ensures forall daddr: IP, dport: nat ::
              Permits(Run(s, a).maps, daddr, dport) == Permits(Run(s, b).maps, daddr, dport)
  {
    InertHasNoEffect(s, a);
    InertHasNoEffect(s, b);
  }
}
