/**
 * The verdict user space reports for a captured connection. It is computed from the policy
 * and the DNS cache, independently of the kernel decision it describes.
 */
module Verdict {
  import opened Basics
  import opened Net
  import opened Policy

  const ALLOW := "ALLOW"
  const SKIP_DNS := "SKIP(dns)"
  const SKIP_LOOPBACK := "SKIP(loopback)"
  const SKIP_SELF := "SKIP(self)"
  const DENY_NO_DOMAIN := "DENY(no-domain)"
  const DENY_POLICY := "DENY(not-in-policy)"

  /** The verdicts this build knows, in the order the report lists them. */
  const KNOWN := [ALLOW, DENY_POLICY, DENY_NO_DOMAIN, SKIP_DNS, SKIP_LOOPBACK, SKIP_SELF]

  predicate IsDeny(v: string) {
    "DENY" <= v
  }

  predicate IsSkip(v: string) {
    "SKIP" <= v
  }

  predicate IsAllow(v: string) {
    v == ALLOW
  }

  /** The texts of the discovered nameservers, as every consumer keys them. */
  function ResolverTexts(lib: Lib, resolvers: seq<IP>): set<string> {
    set ip | ip in resolvers :: IPString(lib, ip)
  }

  /** dnsExemptFor: without a policy, or with allow_all_dns, every port-53 destination. */
  predicate DNSExempt(lib: Lib, engine: Option<Engine>, resolvers: seq<IP>, ip: IP) {
    match engine
    case None => true
    case Some(e) =>
      e.allowAllDNS || IsLoopback(ip) || IPString(lib, ip) in ResolverTexts(lib, resolvers)
  }

  function VerdictFor(lib: Lib, dport: nat, daddr: IP, domain: string, engine: Option<Engine>,
                      resolvers: seq<IP>): string
  {
    if dport == 53 && DNSExempt(lib, engine, resolvers, daddr) then SKIP_DNS
    else if IsLoopback(daddr) then SKIP_LOOPBACK
    else if engine.Some? && !Allow(lib, engine.value, domain, Some(daddr)) then
      if domain == "" then DENY_NO_DOMAIN else DENY_POLICY
    else ALLOW
  }

  /** The agent's own connections are labelled before anything else is looked at. */
  function VerdictForEvent(lib: Lib, tgid: nat, dport: nat, daddr: IP, domain: string, self: nat,
                           engine: Option<Engine>, resolvers: seq<IP>): string
  {
    if tgid == self then SKIP_SELF else VerdictFor(lib, dport, daddr, domain, engine, resolvers)
  }

  /** The kinds of verdict exclude each other, whatever the text. */
  lemma KindsExclude(v: string)
    ensures !(IsDeny(v) && IsSkip(v)) && !(IsDeny(v) && IsAllow(v)) && !(IsSkip(v) && IsAllow(v))
  {
    if "DENY" <= v {
      assert v[0] == 'D';
    }
    if "SKIP" <= v {
      assert v[0] == 'S';
    }
  }

  /** Every reported verdict has exactly one kind. */
  lemma VerdictKinds(lib: Lib, tgid: nat, dport: nat, daddr: IP, domain: string, self: nat,
                     engine: Option<Engine>, resolvers: seq<IP>)
    ensures var v := VerdictForEvent(lib, tgid, dport, daddr, domain, self, engine, resolvers);
            || (IsDeny(v) && !IsSkip(v) && !IsAllow(v))
            || (!IsDeny(v) && IsSkip(v) && !IsAllow(v))
            || (!IsDeny(v) && !IsSkip(v) && IsAllow(v))
  {
    KindsExclude(VerdictForEvent(lib, tgid, dport, daddr, domain, self, engine, resolvers));
    assert "SKIP" <= SKIP_DNS && "SKIP" <= SKIP_LOOPBACK && "SKIP" <= SKIP_SELF;
    assert "DENY" <= DENY_NO_DOMAIN && "DENY" <= DENY_POLICY;
  }

  lemma VerdictIsKnown(lib: Lib, tgid: nat, dport: nat, daddr: IP, domain: string, self: nat,
                       engine: Option<Engine>, resolvers: seq<IP>)
    ensures VerdictForEvent(lib, tgid, dport, daddr, domain, self, engine, resolvers) in KNOWN
  {
    assert KNOWN[0] == ALLOW && KNOWN[1] == DENY_POLICY && KNOWN[2] == DENY_NO_DOMAIN;
    assert KNOWN[3] == SKIP_DNS && KNOWN[4] == SKIP_LOOPBACK && KNOWN[5] == SKIP_SELF;
  }

  /** Their texts, in the order of the report. */
  lemma KnownTexts()
    ensures KNOWN == ["ALLOW", "DENY(not-in-policy)", "DENY(no-domain)", "SKIP(dns)", "SKIP(loopback)", "SKIP(self)"]
  {
  }

  /** For another process: not denied exactly when exempt, loopback or allowed by the policy. */
  lemma PassMeaning(lib: Lib, dport: nat, daddr: IP, domain: string, e: Engine, resolvers: seq<IP>)
    ensures var v := VerdictFor(lib, dport, daddr, domain, Some(e), resolvers);
            (IsAllow(v) || IsSkip(v)) <==> (
              || (dport == 53 && DNSExempt(lib, Some(e), resolvers, daddr))
              || IsLoopback(daddr)
              || Allow(lib, e, domain, Some(daddr)))
  {
    VerdictKinds(lib, 1, dport, daddr, domain, 0, Some(e), resolvers);
    assert "SKIP" <= SKIP_DNS && "SKIP" <= SKIP_LOOPBACK;
    assert "DENY" <= DENY_NO_DOMAIN && "DENY" <= DENY_POLICY;
  }
}
