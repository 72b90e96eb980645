/**
 * The watcher object: it holds the handles of the kernel maps in block mode and the DNS
 * cache, and its methods are the only writers of both. Its log records the steps it took,
 * and its state is always the one that the run of that log ends in.
 */
module Watcher {
  import opened Basics
  import opened Net
  import opened Policy
  import opened Verdict
  import opened Kernel
  import opened Enforcement
  import opened ReportSoundness
  import opened SeedPool

  lemma RunAppend(s: Setup, steps: seq<Step>, step: Step)
    ensures Run(s, steps + [step]) == Apply(s, Run(s, steps), step)
  {
    assert (steps + [step])[..|steps|] == steps;
  }

  lemma NamesAfter(lib: Lib, st: State, name: string, allow: bool, answers: seq<Answer>)
    ensures forall ip ::
              Lookup(lib, ObserveAll(lib, st, name, allow, answers).cache, ip)
              == if Answers(lib, answers, ip) then name else Lookup(lib, st.cache, ip)
  {
    forall ip: IP {
      CacheAfter(lib, st, name, allow, answers, ip);
    }
  }

  lemma ResponseStep(s: Setup, st: State, src: IP, name: string, answers: seq<Answer>)
    ensures Apply(s, st, Response(src, name, answers)) ==
              if name == "" then st
              else ObserveAll(s.lib, st, name, IsAllowedDomain(s.engine, name) && IsTrustedSource(s, src), answers)
  {
  }

  lemma LoggedResponse(s: Setup, steps: seq<Step>, st: State, n: State, src: IP, name: string, answers: seq<Answer>)
    requires st == Run(s, steps)
    requires n == if name == "" then st
                  else ObserveAll(s.lib, st, name, IsAllowedDomain(s.engine, name) && IsTrustedSource(s, src), answers)
    ensures n == Run(s, steps + [Response(src, name, answers)])
  {
    RunAppend(s, steps, Response(src, name, answers));
    ResponseStep(s, st, src, name, answers);
  }

  /** No logged step is lost. */
  ghost predicate Keeps(before: seq<Step>, after: seq<Step>) {
    forall x :: x in before ==> x in after
  }

  lemma KeepsAppend(start: seq<Step>, before: seq<Step>, step: Step)
    requires Keeps(start, before)
    ensures Keeps(start, before + [step]) && step in before + [step]
  {
  }

  // How far a seeding loop is: each write so far has been tried, whether or not it failed.

  ghost predicate ResolversTried(log: seq<Step>, ips: seq<IP>, n: nat) {
    forall j :: 0 <= j < n && j < |ips| ==> ResolverTried(log, ips[j])
  }

  ghost predicate IPsTried(log: seq<Step>, table: map<string, IP>, todo: set<string>) {
    forall t :: t in table && t !in todo ==> IPTried(log, table[t])
  }

  ghost predicate CIDRsTried(log: seq<Step>, nets: seq<IPNet>, n: nat) {
    forall j :: 0 <= j < n && j < |nets| ==> CIDRTried(log, nets[j])
  }

  ghost predicate LookupsTried(log: seq<Step>, domain: string, ips: seq<IP>, n: nat) {
    forall j :: 0 <= j < n && j < |ips| ==> LookupTried(log, domain, ips[j])
  }

  lemma TriedAfter(log: seq<Step>, x: Step, y: Step, next: Step)
    ensures (x in log || y in log) || next == x || next == y ==> x in log + [next] || y in log + [next]
  {
    assert (log + [next])[|log|] == next;
  }

  lemma ResolversTriedStep(log: seq<Step>, ips: seq<IP>, n: nat, fault: bool)
    requires n < |ips| && ResolversTried(log, ips, n)
    ensures ResolversTried(log + [SeedResolver(ips[n], fault)], ips, n + 1)
  {
    forall j | 0 <= j < n + 1 ensures ResolverTried(log + [SeedResolver(ips[n], fault)], ips[j]) {
      TriedAfter(log, SeedResolver(ips[j], false), SeedResolver(ips[j], true), SeedResolver(ips[n], fault));
      assert j < n ==> ResolverTried(log, ips[j]);
    }
  }

  lemma IPsTriedStep(log: seq<Step>, table: map<string, IP>, todo: set<string>, t: string, fault: bool)
    requires t in table && IPsTried(log, table, todo)
    ensures IPsTried(log + [SeedIP(table[t], fault)], table, todo - {t})
  {
    forall u | u in table && u !in todo - {t} ensures IPTried(log + [SeedIP(table[t], fault)], table[u]) {
      TriedAfter(log, SeedIP(table[u], false), SeedIP(table[u], true), SeedIP(table[t], fault));
      assert u != t ==> IPTried(log, table[u]);
    }
  }

  lemma CIDRsTriedStep(log: seq<Step>, nets: seq<IPNet>, n: nat, fault: bool)
    requires n < |nets| && CIDRsTried(log, nets, n)
    ensures CIDRsTried(log + [SeedCIDR(nets[n], fault)], nets, n + 1)
  {
    forall j | 0 <= j < n + 1 ensures CIDRTried(log + [SeedCIDR(nets[n], fault)], nets[j]) {
      TriedAfter(log, SeedCIDR(nets[j], false), SeedCIDR(nets[j], true), SeedCIDR(nets[n], fault));
      assert j < n ==> CIDRTried(log, nets[j]);
    }
  }

  lemma LookupsTriedStep(log: seq<Step>, domain: string, ips: seq<IP>, n: nat, fault: bool)
    requires n < |ips| && LookupsTried(log, domain, ips, n)
    ensures LookupsTried(log + [SeedLookup(domain, ips[n], fault)], domain, ips, n + 1)
  {
    forall j | 0 <= j < n + 1 ensures LookupTried(log + [SeedLookup(domain, ips[n], fault)], domain, ips[j]) {
      TriedAfter(log, SeedLookup(domain, ips[j], false), SeedLookup(domain, ips[j], true),
                 SeedLookup(domain, ips[n], fault));
      assert j < n ==> LookupTried(log, domain, ips[j]);
    }
  }

  /** The DNS flag, then the addresses, then the ranges: with the nameservers that is all. */
  lemma SeedingFinished(s: Setup, flag: seq<Step>, ips: seq<Step>, nets: seq<Step>)
    requires SetDNS(false) in flag || SetDNS(true) in flag
    requires forall r :: r in s.resolvers ==> ResolverTried(flag, r)
    requires Keeps(flag, ips) && forall t :: t in s.engine.allowedIP ==> IPTried(ips, s.engine.allowedIP[t])
    requires Keeps(ips, nets) && forall net :: net in s.engine.cidrs ==> CIDRTried(nets, net)
    ensures SeedingDone(s, nets)
  {
    forall r | r in s.resolvers ensures ResolverTried(nets, r) {
      assert ResolverTried(flag, r);
    }
    forall t | t in s.engine.allowedIP ensures IPTried(nets, s.engine.allowedIP[t]) {
      assert IPTried(ips, s.engine.allowedIP[t]);
    }
  }

  lemma SeedingStays(s: Setup, before: seq<Step>, after: seq<Step>)
    requires SeedingDone(s, before) && Keeps(before, after)
    ensures SeedingDone(s, after)
  {
    SeedingFinished(s, before, before, before);
    forall net | net in s.engine.cidrs ensures CIDRTried(after, net) {
      assert CIDRTried(before, net);
    }
    SeedingFinished(s, before, before, after);
  }

  ghost predicate AnswersTried(log: seq<Step>, domains: seq<string>, results: Slots, n: nat) {
    forall j, ip :: 0 <= j < n && j < |results| && j < |domains| && ip in AnswerIn(results[j]) ==>
                      LookupTried(log, domains[j], ip)
  }

  lemma AnswersTriedStep(before: seq<Step>, after: seq<Step>,
                         domains: seq<string>, results: Slots, n: nat)
    requires n < |results| && AnswersTried(before, domains, results, n) && Keeps(before, after)
    requires n < |domains| && forall ip :: ip in AnswerIn(results[n]) ==> LookupTried(after, domains[n], ip)
    ensures AnswersTried(after, domains, results, n + 1)
  {
    forall j, ip | 0 <= j < n && j < |domains| && ip in AnswerIn(results[j])
      ensures LookupTried(after, domains[j], ip)
    {
      assert LookupTried(before, domains[j], ip);
    }
  }

  /** Only steps that come before the lookups were added. */
  ghost predicate AddsPolicy(before: seq<Step>, after: seq<Step>) {
    before <= after && BeforeLookups(after[|before|..])
  }

  lemma AddsPolicyAppend(start: seq<Step>, before: seq<Step>, step: Step)
    requires AddsPolicy(start, before) && !step.SeedLookup? && !step.Response?
    ensures AddsPolicy(start, before + [step])
  {
    assert (before + [step])[|start|..] == before[|start|..] + [step];
  }

  lemma AddsPolicyTrans(a: seq<Step>, b: seq<Step>, c: seq<Step>)
    requires AddsPolicy(a, b) && AddsPolicy(b, c)
    ensures AddsPolicy(a, c)
  {
    assert c[|a|..] == b[|a|..] + c[|b|..];
  }

  lemma SuffixAppend(start: seq<Step>, before: seq<Step>, step: Step)
    requires start <= before
    ensures start <= before + [step] && (before + [step])[|start|..] == before[|start|..] + [step]
  {
  }

  /** The first n slots have been written out. */
  ghost predicate SlotsLogged(logged: seq<Step>, domains: seq<string>, results: Slots, n: nat) {
    |domains| == |results| && n <= |results| && UpToFaults(logged, SeedSteps(domains[..n], results[..n]))
  }

  lemma SlotsLoggedNext(logged: seq<Step>, more: seq<Step>, domains: seq<string>, results: Slots, n: nat)
    requires SlotsLogged(logged, domains, results, n) && n < |results|
    requires UpToFaults(more, LookupSteps(domains[n], AnswerIn(results[n])))
    ensures SlotsLogged(logged + more, domains, results, n + 1)
  {
    SeedStepsNext(logged, more, domains, results, n);
  }

  lemma SlotsAllLogged(logged: seq<Step>, domains: seq<string>, results: Slots)
    requires SlotsLogged(logged, domains, results, |results|)
    ensures UpToFaults(logged, SeedSteps(domains, results))
  {
    assert domains[..|results|] == domains && results[..|results|] == results;
  }

  lemma SuffixSplits(start: seq<Step>, before: seq<Step>, after: seq<Step>)
    requires start <= before <= after
    ensures start <= after && after[|start|..] == before[|start|..] + after[|before|..]
  {
  }

  /** The answers are those of the run's lookups. */
  ghost predicate AreLookups(s: Setup, domains: seq<string>, results: Slots) {
    && |domains| == |results|
    && forall i :: 0 <= i < |domains| ==>
         && domains[i] in s.engine.domains
         && (AnswerIn(results[i]) != [] ==> domains[i] in s.lookups && s.lookups[domains[i]] == AnswerIn(results[i]))
  }

  /** One write a nameserver, in their order. */
  ghost predicate ResolversOffered(steps: seq<Step>, ips: seq<IP>) {
    |steps| == |ips| && forall j :: 0 <= j < |ips| ==> steps[j].SeedResolver? && steps[j].ip == ips[j]
  }

  lemma OfferedStep(steps: seq<Step>, ips: seq<IP>, n: nat, fault: bool)
    requires n < |ips| && ResolversOffered(steps, ips[..n])
    ensures ResolversOffered(steps + [SeedResolver(ips[n], fault)], ips[..n + 1])
  {
    forall j | 0 <= j < n ensures steps[j].SeedResolver? && steps[j].ip == ips[j] {
      assert ips[..n][j] == ips[j];
    }
  }

  class Watcher {
    const setup: Setup
    var blockObjs: Option<Maps> // None in audit mode
    var dnsCache: map<string, string>
    var failed: nat // warnings about map writes
    ghost var log: seq<Step>

    /** In block mode the state is that of the logged run, and the run is a legitimate one. */
    ghost predicate Valid()
      reads this
    {
      && (blockObjs.Some? ==> State(blockObjs.value, dnsCache, failed) == Run(setup, log))
      && (forall x :: x in log ==> Legit(setup, x))
    }

    /** In block mode the nameservers have been offered to the kernel, and nothing else has. */
    constructor (s: Setup, withBlock: bool)
      ensures Valid() && setup == s && dnsCache == map[] && (blockObjs.Some? <==> withBlock)
      ensures withBlock ==> ResolversOffered(log, s.resolvers)
      ensures withBlock ==> forall ip :: ip in s.resolvers ==> ResolverTried(log, ip)
      ensures !withBlock ==> log == [] && failed == 0
    {
      setup := s;
      blockObjs := if withBlock then Some(EMPTY_MAPS) else None;
      dnsCache, failed, log := map[], 0, [];
      new;
      if withBlock {
        SeedResolvers();
        assert log[0..] == log;
      }
    }

    // -------------------------------------------------------------- single writes

    /** Nothing happens without an address or in audit mode; otherwise one trie write. */
    method AllowIP(ip: Option<IP>, fault: bool) returns (ok: bool)
      modifies this`blockObjs
      ensures old(blockObjs).None? || ip.None? ==> ok && blockObjs == old(blockObjs)
      ensures old(blockObjs).Some? && ip.Some? ==>
                var r := Kernel.AllowIP(old(blockObjs).value, ip.value, fault);
                ok == r.Some? && blockObjs == Some(r.GetOr(old(blockObjs).value))
    {
      if blockObjs.None? || ip.None? {
        return true;
      }
      var r := Kernel.AllowIP(blockObjs.value, ip.value, fault);
      ok := r.Some?;
      if r.Some? {
        blockObjs := r;
      }
    }

    method AllowCIDR(net: IPNet, fault: bool) returns (ok: bool)
      modifies this`blockObjs
      ensures old(blockObjs).None? ==> ok && blockObjs == old(blockObjs)
      ensures old(blockObjs).Some? ==>
                var r := Kernel.AllowCIDR(old(blockObjs).value, net, fault);
                ok == r.Some? && blockObjs == Some(r.GetOr(old(blockObjs).value))
    {
      if blockObjs.None? {
        return true;
      }
      var r := Kernel.AllowCIDR(blockObjs.value, net, fault);
      ok := r.Some?;
      if r.Some? {
        blockObjs := r;
      }
    }

    method AllowResolver(ip: IP, fault: bool) returns (ok: bool)
      modifies this`blockObjs
      ensures old(blockObjs).None? ==> ok && blockObjs == old(blockObjs)
      ensures old(blockObjs).Some? ==>
                var r := Kernel.AllowResolver(old(blockObjs).value, ip, fault);
                ok == r.Some? && blockObjs == Some(r.GetOr(old(blockObjs).value))
    {
      if blockObjs.None? {
        return true;
      }
      var r := Kernel.AllowResolver(blockObjs.value, ip, fault);
      ok := r.Some?;
      if r.Some? {
        blockObjs := r;
      }
    }

    // -------------------------------------------------------------- startup

    /** One startup write; a failure is counted and startup goes on. */
    method Seed(step: Step)
      requires Valid() && blockObjs.Some?
      requires Legit(setup, step) && !step.Response?
      modifies this
      ensures Valid() && blockObjs.Some? && dnsCache == old(dnsCache)
      ensures log == old(log) + [step]
    {
      RunAppend(setup, log, step);
      var ok := true;
      match step {
        case SeedResolver(ip, fault) =>
          if !IsLoopback(ip) {
            ok := AllowResolver(ip, fault);
          }
        case SetDNS(fault) =>
          var r := SetAllowAllDNS(blockObjs.value, setup.engine.allowAllDNS, fault);
          ok := r.Some?;
          blockObjs := Some(r.GetOr(blockObjs.value));
        case SeedIP(ip, fault) =>
          ok := AllowIP(Some(ip), fault);
        case SeedCIDR(net, fault) =>
          ok := AllowCIDR(net, fault);
        case SeedLookup(_, ip, fault) =>
          ok := AllowIP(Some(ip), fault);
      }
      if !ok {
        failed := failed + 1;
      }
      log := log + [step];
    }

    /** The nameservers; whether the kernel takes each one is not the agent's choice. */
    method SeedResolvers()
      requires Valid() && blockObjs.Some?
      modifies this
      ensures Valid() && blockObjs.Some? && dnsCache == old(dnsCache) && Keeps(old(log), log)
      ensures forall ip :: ip in setup.resolvers ==> ResolverTried(log, ip)
      ensures old(log) <= log && ResolversOffered(log[|old(log)|..], setup.resolvers)
    {
      var rs := setup.resolvers;
      for i := 0 to |rs|
        invariant Valid() && blockObjs.Some? && dnsCache == old(dnsCache) && Keeps(old(log), log)
        invariant ResolversTried(log, rs, i)
        invariant old(log) <= log && ResolversOffered(log[|old(log)|..], rs[..i])
      {
        var fault: bool := *;
        KeepsAppend(old(log), log, SeedResolver(rs[i], fault));
        ResolversTriedStep(log, rs, i, fault);
        OfferedStep(log[|old(log)|..], rs, i, fault);
        assert (log + [SeedResolver(rs[i], fault)])[|old(log)|..] == log[|old(log)|..] + [SeedResolver(rs[i], fault)];
        Seed(SeedResolver(rs[i], fault));
      }
      assert rs[..|rs|] == rs;
    }

    /** The engine's addresses, in whatever order its table yields them. */
    method SeedIPs()
      requires Valid() && blockObjs.Some?
      modifies this
      ensures Valid() && blockObjs.Some? && dnsCache == old(dnsCache) && Keeps(old(log), log)
      ensures forall t :: t in setup.engine.allowedIP ==> IPTried(log, setup.engine.allowedIP[t])
      ensures AddsPolicy(old(log), log)
    {
      var table := setup.engine.allowedIP;
      var todo := table.Keys;
      while todo != {}
        invariant Valid() && blockObjs.Some? && dnsCache == old(dnsCache) && Keeps(old(log), log)
        invariant todo <= table.Keys && IPsTried(log, table, todo) && AddsPolicy(old(log), log)
        decreases todo
      {
        var t :| t in todo;
        var fault: bool := *;
        KeepsAppend(old(log), log, SeedIP(table[t], fault));
        AddsPolicyAppend(old(log), log, SeedIP(table[t], fault));
        IPsTriedStep(log, table, todo, t, fault);
        Seed(SeedIP(table[t], fault));
        todo := todo - {t};
      }
    }

    method SeedCIDRs()
      requires Valid() && blockObjs.Some?
      modifies this
      ensures Valid() && blockObjs.Some? && dnsCache == old(dnsCache) && Keeps(old(log), log)
      ensures forall net :: net in setup.engine.cidrs ==> CIDRTried(log, net)
      ensures AddsPolicy(old(log), log)
    {
      var nets := setup.engine.cidrs;
      for i := 0 to |nets|
        invariant Valid() && blockObjs.Some? && dnsCache == old(dnsCache) && Keeps(old(log), log)
        invariant CIDRsTried(log, nets, i) && AddsPolicy(old(log), log)
      {
        var fault: bool := *;
        KeepsAppend(old(log), log, SeedCIDR(nets[i], fault));
        AddsPolicyAppend(old(log), log, SeedCIDR(nets[i], fault));
        CIDRsTriedStep(log, nets, i, fault);
        Seed(SeedCIDR(nets[i], fault));
      }
    }

    /** The addresses of one answered lookup, in their order. */
    method SeedAnswer(domain: string, ips: seq<IP>)
      requires Valid() && blockObjs.Some?
      requires domain in setup.engine.domains
      requires ips != [] ==> domain in setup.lookups && setup.lookups[domain] == ips
      modifies this
      ensures Valid() && blockObjs.Some? && dnsCache == old(dnsCache) && Keeps(old(log), log)
      ensures forall ip :: ip in ips ==> LookupTried(log, domain, ip)
      ensures old(log) <= log && UpToFaults(log[|old(log)|..], LookupSteps(domain, ips))
    {
      for i := 0 to |ips|
        invariant Valid() && blockObjs.Some? && dnsCache == old(dnsCache) && Keeps(old(log), log)
        invariant LookupsTried(log, domain, ips, i)
        invariant old(log) <= log && UpToFaults(log[|old(log)|..], LookupSteps(domain, ips[..i]))
      {
        var fault: bool := *;
        KeepsAppend(old(log), log, SeedLookup(domain, ips[i], fault));
        LookupsTriedStep(log, domain, ips, i, fault);
        LookupStepsNext(log[|old(log)|..], domain, ips, i, fault);
        SuffixAppend(old(log), log, SeedLookup(domain, ips[i], fault));
        Seed(SeedLookup(domain, ips[i], fault));
      }
      assert ips[..|ips|] == ips;
    }

    /**
     * seedAllowlist, after the nameservers: the DNS flag, the addresses, the ranges, and then,
     * from step n of the log on, the answers in the slots of the lookups, failed lookups
     * skipped. What it leaves behind is a finished startup.
     */
    method SeedAllowlist(domains: seq<string>, results: Slots) returns (ghost n: nat)
      requires Valid() && blockObjs.Some?
      requires forall ip :: ip in setup.resolvers ==> ResolverTried(log, ip)
      requires AreLookups(setup, domains, results)
      modifies this
      ensures Valid() && blockObjs.Some? && dnsCache == old(dnsCache) && Keeps(old(log), log)
      ensures SeedingDone(setup, log)
      ensures forall i, ip :: 0 <= i < |domains| && ip in AnswerIn(results[i]) ==> LookupTried(log, domains[i], ip)
      ensures n <= |log| && AddsPolicy(old(log), log[..n]) && SeedingDone(setup, log[..n])
      ensures UpToFaults(log[n..], SeedSteps(domains, results))
    {
      SeedPolicy();
      ghost var before := log;
      n := |before|;
      SeedLookups(domains, results);
      SeedingStays(setup, before, log);
      assert log[..n] == before;
    }

    /** Its part before the lookups. */
    method SeedPolicy()
      requires Valid() && blockObjs.Some?
      requires forall ip :: ip in setup.resolvers ==> ResolverTried(log, ip)
      modifies this
      ensures Valid() && blockObjs.Some? && dnsCache == old(dnsCache) && Keeps(old(log), log)
      ensures AddsPolicy(old(log), log) && SeedingDone(setup, log)
    {
      var fault: bool := *;
      AddsPolicyAppend(log, log, SetDNS(fault));
      Seed(SetDNS(fault));
      ghost var flag := log;
      SeedIPs();
      ghost var ips := log;
      SeedCIDRs();
      AddsPolicyTrans(old(log), flag, ips);
      AddsPolicyTrans(old(log), ips, log);
      SeedingFinished(setup, flag, ips, log);
    }

    /** Its loop over the slots. */
    method SeedLookups(domains: seq<string>, results: Slots)
      requires Valid() && blockObjs.Some? && AreLookups(setup, domains, results)
      modifies this
      ensures Valid() && blockObjs.Some? && dnsCache == old(dnsCache) && Keeps(old(log), log)
      ensures AnswersTried(log, domains, results, |domains|)
      ensures old(log) <= log && UpToFaults(log[|old(log)|..], SeedSteps(domains, results))
    {
      for i := 0 to |results|
        invariant Valid() && blockObjs.Some? && dnsCache == old(dnsCache) && Keeps(old(log), log)
        invariant AnswersTried(log, domains, results, i)
        invariant old(log) <= log && SlotsLogged(log[|old(log)|..], domains, results, i)
      {
        ghost var before := log;
        SeedAnswer(domains[i], AnswerIn(results[i]));
        AnswersTriedStep(before, log, domains, results, i);
        SlotsLoggedNext(before[|old(log)|..], log[|before|..], domains, results, i);
        SuffixSplits(old(log), before, log);
      }
      SlotsAllLogged(log[|old(log)|..], domains, results);
    }

    // -------------------------------------------------------------- responses

    ghost function Now(): State
      reads this
    {
      State(blockObjs.GetOr(EMPTY_MAPS), dnsCache, failed)
    }

    /** One answer: into the cache, and into the tries when the response may extend them. */
    method ObserveAnswer(name: string, allow: bool, a: Answer)
      requires allow ==> blockObjs.Some?
      modifies this`blockObjs, this`dnsCache, this`failed
      ensures (blockObjs.Some? <==> old(blockObjs.Some?)) && Now() == Observe(setup.lib, old(Now()), name, allow, a)
    {
      dnsCache := dnsCache[IPString(setup.lib, a.ip) := name];
      if allow {
        var ok := AllowIP(Some(a.ip), a.fault);
        if !ok {
          failed := failed + 1;
        }
      }
    }

    method ObserveAnswers(name: string, allow: bool, answers: seq<Answer>)
      requires allow ==> blockObjs.Some?
      modifies this`blockObjs, this`dnsCache, this`failed
      ensures blockObjs.Some? <==> old(blockObjs.Some?)
      ensures Now() == ObserveAll(setup.lib, old(Now()), name, allow, answers)
    {
      assert answers[0..] == answers;
      for i := 0 to |answers|
        invariant blockObjs.Some? <==> old(blockObjs.Some?)
        invariant ObserveAll(setup.lib, Now(), name, allow, answers[i..])
               == ObserveAll(setup.lib, old(Now()), name, allow, answers)
      {
        assert answers[i..][1..] == answers[i + 1..];
        ObserveAnswer(name, allow, answers[i]);
      }
    }

    /**
     * One record of the DNS loop. A response without a name is dropped; otherwise every answer
     * takes the name in the cache, and in block mode the step joins the logged run.
     */
    method ObserveResponse(src: IP, name: string, answers: seq<Answer>)
      requires Valid()
      modifies this
      ensures Valid() && (blockObjs.Some? <==> old(blockObjs.Some?))
      ensures blockObjs.Some? ==> log == old(log) + [Response(src, name, answers)]
      ensures name == "" ==> dnsCache == old(dnsCache)
      ensures name != "" ==> forall ip ::
                Lookup(setup.lib, dnsCache, ip)
                == if Answers(setup.lib, answers, ip) then name else Lookup(setup.lib, old(dnsCache), ip)
    {
      var allow := blockObjs.Some? && IsAllowedDomain(setup.engine, name) && IsTrustedSource(setup, src);
      ghost var before := Now();
      if name != "" {
        ObserveAnswers(name, allow, answers);
        NamesAfter(setup.lib, before, name, allow, answers);
      }
      if blockObjs.Some? {
        LoggedResponse(setup, log, before, Now(), src, name, answers);
        log := log + [Response(src, name, answers)];
      }
    }

    // -------------------------------------------------------------- reporting

    /**
     * The verdict for one captured connection, with the name the cache gives its address now.
     * Under the conditions of report soundness it passes nothing that the kernel denies.
     */
    method Report(tgid: nat, dport: nat, daddr: IP, self: nat) returns (domain: string, v: string)
      requires Valid()
      ensures domain == Lookup(setup.lib, dnsCache, daddr)
      ensures v == VerdictForEvent(setup.lib, tgid, dport, daddr, domain, self, Some(setup.engine), setup.resolvers)
      ensures blockObjs.Some? && WellFormed(setup) && SeedingDone(setup, log) && AllTrusted(setup, log) && failed == 0
              && tgid != self && (IsAllow(v) || IsSkip(v))
              ==> Permits(blockObjs.value, daddr, dport)
    {
      domain := Lookup(setup.lib, dnsCache, daddr);
      v := VerdictForEvent(setup.lib, tgid, dport, daddr, domain, self, Some(setup.engine), setup.resolvers);
      ghost var sound := WellFormed(setup) && SeedingDone(setup, log) && AllTrusted(setup, log) && failed == 0;
      if blockObjs.Some? && sound && tgid != self {
        ReportSoundness.ReportSoundness(setup, log, tgid, self, daddr, dport);
      }
    }
  }

  /** The log of a block-mode watcher up to its lookups holds nothing else. */
  lemma NothingBeforeLookups(offered: seq<Step>, ips: seq<IP>, log: seq<Step>)
    requires ResolversOffered(offered, ips) && AddsPolicy(offered, log)
    ensures BeforeLookups(log)
  {
    assert log == offered + log[|offered|..];
  }

  /**
   * Block-mode startup as the agent does it: a new watcher, then the allowlist with the slots
   * that a finished schedule of the lookups left. When no write failed, its log is a whole
   * startup, so any two such watchers have the same tries.
   */
  method StartBlocking(s: Setup, domains: seq<string>, results: Slots,
                       ghost moves: seq<Move>, ghost answer: string -> LookupAnswer)
    returns (w: Watcher, ghost n: nat)
    requires AreLookups(s, domains, results) && Finishes(domains, moves, answer, results)
    ensures fresh(w) && w.Valid() && w.setup == s && w.blockObjs.Some? && w.dnsCache == map[]
    ensures SeedingDone(s, w.log)
    ensures w.failed == 0 ==> IsStartup(s, w.log, n, domains, moves, answer, results)
  {
    w := new Watcher(s, true);
    ghost var offered := w.log;
    n := w.SeedAllowlist(domains, results);
    NothingBeforeLookups(offered, s.resolvers, w.log[..n]);
  }
}
