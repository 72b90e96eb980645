/**
 * What each label of the report says, over whole runs and in the words of the policy, the
 * nameserver list and the responses observed so far.
 */
module Labels {
  import opened Basics
  import opened Net
  import opened Policy
  import opened Verdict
  import opened Enforcement
  import opened ReportSoundness

  // ---------------------------------------------------------------- the three tests

  /** The address is one of the list, in either form. */
  predicate IsListed(rs: seq<IP>, ip: IP) {
    exists r :: r in rs && Canon(r) == Canon(ip)
  }

  predicate IsExempt(s: Setup, ip: IP) {
    s.engine.allowAllDNS || IsLoopback(ip) || IsListed(s.resolvers, ip)
  }

  /** An address of the policy, in either form, or inside one of its ranges. */
  predicate IsPolicyAddress(s: Setup, ip: IP) {
    || (exists t :: t in s.engine.allowedIP && Canon(s.engine.allowedIP[t]) == Canon(ip))
    || (exists net :: net in s.engine.cidrs && NetContains(net, ip))
  }

  lemma ListedByText(lib: Lib, rs: seq<IP>, ip: IP)
    requires Lawful(lib)
    ensures IPString(lib, ip) in ResolverTexts(lib, rs) <==> IsListed(rs, ip)
  {
    if IPString(lib, ip) in ResolverTexts(lib, rs) {
      var r :| r in rs && IPString(lib, r) == IPString(lib, ip);
      IPStringInjective(lib, r, ip);
    }
    if r :| r in rs && Canon(r) == Canon(ip) {
      IPStringInjective(lib, r, ip);
    }
  }

  lemma ExemptExactly(s: Setup, ip: IP)
    requires Lawful(s.lib)
    ensures DNSExempt(s.lib, Some(s.engine), s.resolvers, ip) <==> IsExempt(s, ip)
  {
    ListedByText(s.lib, s.resolvers, ip);
  }

  /** A response is trusted exactly from loopback and from an IPv4 nameserver of the list. */
  lemma TrustedExactly(s: Setup, src: IP)
    requires Lawful(s.lib)
    ensures IsTrustedSource(s, src) <==> IsLoopback(src) || (|Canon(src)| == 4 && IsListed(s.resolvers, src))
  {
    ListedByText(s.lib, s.resolvers, src);
    CanonText(s.lib, src);
  }

  lemma PolicyAddressExactly(s: Setup, ip: IP)
    requires WellFormed(s)
    ensures AllowsIP(s.lib, s.engine, ip) <==> IsPolicyAddress(s, ip)
  {
    if IPString(s.lib, ip) in s.engine.allowedIP {
      IPStringInjective(s.lib, s.engine.allowedIP[IPString(s.lib, ip)], ip);
    }
    if t :| t in s.engine.allowedIP && Canon(s.engine.allowedIP[t]) == Canon(ip) {
      IPStringInjective(s.lib, s.engine.allowedIP[t], ip);
    }
  }

  // ---------------------------------------------------------------- the labels

  /** Judged by the policy: another process, no exemption, not loopback. */
  predicate IsJudged(s: Setup, tgid: nat, self: nat, ip: IP, port: nat) {
    tgid != self && !(port == 53 && IsExempt(s, ip)) && !IsLoopback(ip)
  }

  /**
   * The label of a connection after any run: why it was not judged; that the policy names its
   * address, or the name it was last answered for; that there was no such name; or that there
   * was one and the policy does not have it.
   */
  lemma LabelsExactly(s: Setup, steps: seq<Step>, tgid: nat, self: nat, ip: IP, port: nat)
    requires WellFormed(s)
    ensures var name := LastName(s.lib, steps, ip);
            var v := VerdictForEvent(s.lib, tgid, port, ip, Lookup(s.lib, Run(s, steps).cache, ip), self,
                                     Some(s.engine), s.resolvers);
            && (v == "SKIP(self)" <==> tgid == self)
            && (v == "SKIP(dns)" <==> tgid != self && port == 53 && IsExempt(s, ip))
            && (v == "SKIP(loopback)" <==> tgid != self && !(port == 53 && IsExempt(s, ip)) && IsLoopback(ip))
            && (v == "ALLOW" <==>
                  IsJudged(s, tgid, self, ip, port) && (IsPolicyAddress(s, ip) || IsAllowedDomain(s.engine, name)))
            && (v == "DENY(no-domain)" <==>
                  IsJudged(s, tgid, self, ip, port) && !IsPolicyAddress(s, ip) && name == "")
            && (v == "DENY(not-in-policy)" <==>
                  && IsJudged(s, tgid, self, ip, port) && !IsPolicyAddress(s, ip)
                  && name != "" && !IsAllowedDomain(s.engine, name))
  {
    CacheAlongRun(s, steps, ip);
    ExemptExactly(s, ip);
    PolicyAddressExactly(s, ip);
    LabelTexts();
  }

  /** The six labels are different texts. */
  lemma LabelTexts()
    ensures ALLOW == "ALLOW" && SKIP_DNS == "SKIP(dns)"
    ensures SKIP_LOOPBACK == "SKIP(loopback)" && SKIP_SELF == "SKIP(self)"
    ensures DENY_NO_DOMAIN == "DENY(no-domain)" && DENY_POLICY == "DENY(not-in-policy)"
    ensures |ALLOW| == 5 && |SKIP_DNS| == 9 && |SKIP_SELF| == 10
    ensures |SKIP_LOOPBACK| == 14 && |DENY_NO_DOMAIN| == 15 && |DENY_POLICY| == 19
  {
  }

  /** Without a policy every port-53 destination is exempt and nothing is ever denied. */
  lemma NoPolicyLabels(lib: Lib, tgid: nat, self: nat, ip: IP, port: nat, domain: string, resolvers: seq<IP>)
    ensures var v := VerdictForEvent(lib, tgid, port, ip, domain, self, None, resolvers);
            && (v == "SKIP(self)" <==> tgid == self)
            && (v == "SKIP(dns)" <==> tgid != self && port == 53)
            && (v == "SKIP(loopback)" <==> tgid != self && port != 53 && IsLoopback(ip))
            && (v == "ALLOW" <==> tgid != self && port != 53 && !IsLoopback(ip))
  {
    LabelTexts();
  }
}
