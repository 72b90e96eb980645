/**
 * The enforcement maps of the kernel programs, the writes user space makes to them, and the
 * default-deny decision the connect and sendmsg hooks take.
 */
module Kernel {
  import opened Basics
  import opened Net

  /** A key of the longest-prefix-match tries: the first len bits of addr. */
  datatype Prefix = Prefix(len: nat, addr: IP)

  /**
   * Every value of the tries and sets is 1, so a map is the set of its keys. Addresses are
   * kept in their canonical form, which also says which of the two families they are in.
   */
  datatype Maps = Maps(
    ips4: set<Prefix>,
    ips6: set<Prefix>,
    resolvers4: set<IP>,
    resolvers6: set<IP>,
    allowAllDNS: bool)

  const EMPTY_MAPS := Maps({}, {}, {}, {}, false)
  const TRIE_ENTRIES: nat := 4096
  const RESOLVER_ENTRIES: nat := 16

  // ---------------------------------------------------------------- the decision

  predicate PrefixMatches(p: Prefix, addr: IP) {
    |p.addr| == |addr| && p.len <= 8 * |addr| && SameBits(p.addr, addr, p.len)
  }

  /** A lookup finds the longest matching prefix, so it finds something iff one matches. */
  predicate Hits(trie: set<Prefix>, addr: IP) {
    exists p :: p in trie && PrefixMatches(p, addr)
  }

  predicate CheckIPv4(m: Maps, daddr: IP, dport: nat)
    requires |daddr| == 4
  {
    if daddr[0] == 127 then true
    else if dport == 53 && (m.allowAllDNS || daddr in m.resolvers4) then true
    else Hits(m.ips4, daddr)
  }

  predicate CheckIPv6(m: Maps, daddr: IP, dport: nat)
    requires |daddr| == 16
  {
    if daddr == V6_LOOPBACK then true
    else if daddr[..12] == V4_IN_V6 then CheckIPv4(m, daddr[12..], dport)
    else if dport == 53 && (m.allowAllDNS || daddr in m.resolvers6) then true
    else Hits(m.ips6, daddr)
  }

  /** The hook of the socket's family decides. */
  predicate Permits(m: Maps, daddr: IP, dport: nat) {
    if |daddr| == 4 then CheckIPv4(m, daddr, dport) else CheckIPv6(m, daddr, dport)
  }

  // ---------------------------------------------------------------- its meaning

  predicate InTrie(m: Maps, p: Prefix) {
    if |p.addr| == 4 then p in m.ips4 else p in m.ips6
  }

  predicate ResolverListed(m: Maps, ip: IP) {
    if |Canon(ip)| == 4 then Canon(ip) in m.resolvers4 else Canon(ip) in m.resolvers6
  }

  ghost predicate Covered(m: Maps, ip: IP) {
    exists p :: InTrie(m, p) && PrefixMatches(p, Canon(ip))
  }

  /** Keys are in the trie of their family and within its width. */
  ghost predicate Valid(m: Maps) {
    && (forall p :: p in m.ips4 ==> |p.addr| == 4 && p.len <= 32)
    && (forall p :: p in m.ips6 ==> |p.addr| == 16 && p.len <= 128)
  }

  lemma CoveredIsHit(m: Maps, ip: IP)
    requires Valid(m)
    ensures Covered(m, ip) <==> Hits(if |Canon(ip)| == 4 then m.ips4 else m.ips6, Canon(ip))
  {
    var trie := if |Canon(ip)| == 4 then m.ips4 else m.ips6;
    if Hits(trie, Canon(ip)) {
      var p :| p in trie && PrefixMatches(p, Canon(ip));
      assert InTrie(m, p);
    }
  }

  /**
   * The kernel permits a destination exactly when it is loopback, an exempt port-53
   * destination, or covered by a trie; the socket's family makes no difference.
   */
  lemma PermitsMeaning(m: Maps, daddr: IP, dport: nat)
    requires Valid(m)
    ensures Permits(m, daddr, dport) <==> (
              || IsLoopback(daddr)
              || (dport == 53 && (m.allowAllDNS || ResolverListed(m, daddr)))
              || Covered(m, daddr))
    ensures Permits(m, daddr, dport) == Permits(m, To16(daddr), dport) == Permits(m, Canon(daddr), dport)
  {
    CoveredIsHit(m, daddr);
    To16Canon(daddr);
    LoopbackIsNotMapped();
    if |daddr| == 4 {
      assert To16(daddr)[..12] == V4_IN_V6 && To16(daddr)[12..] == daddr;
    }
  }

  lemma LoopbackIsNotMapped()
    ensures !IsMapped(V6_LOOPBACK)
  {
    assert V6_LOOPBACK[..12][10] == 0;
  }

  // ---------------------------------------------------------------- the writes

  /**
   * A map update fails when the map is full, or for a reason of the kernel's own (fault). A
   * map that is within its capacity stays within it.
   */
  function Put<K>(m: set<K>, key: K, capacity: nat, fault: bool): (r: Option<set<K>>)
    ensures r.Some? && |m| <= capacity ==> |r.value| <= capacity
  {
    if fault || (key !in m && |m| >= capacity) then None
    else
      SizeWith(m, key);
      Some(m + {key})
  }

  lemma SizeWith<K>(m: set<K>, key: K)
    ensures |m + {key}| == if key in m then |m| else |m| + 1
  {
    assert key in m ==> m + {key} == m;
  }

  /** The trie and the resolver set of a family, which the width of its addresses picks. */
  function Trie(m: Maps, width: nat): set<Prefix> {
    if width == 4 then m.ips4 else m.ips6
  }

  function Listed(m: Maps, width: nat): set<IP> {
    if width == 4 then m.resolvers4 else m.resolvers6
  }

  /** A trie also refuses a prefix longer than its key. */
  function AddPrefix(m: Maps, p: Prefix, fault: bool): (r: Option<Maps>)
    ensures r.None? <==> p.len > 8 * |p.addr| || fault || (!InTrie(m, p) && |Trie(m, |p.addr|)| >= TRIE_ENTRIES)
    ensures r.Some? ==> p.len <= 8 * |p.addr|
    ensures Valid(m) && r.Some? ==> Valid(r.value)
    ensures r.Some? ==> forall q :: InTrie(r.value, q) <==> InTrie(m, q) || q == p
    ensures r.Some? ==> r.value.(ips4 := m.ips4, ips6 := m.ips6) == m
  {
    if p.len > 8 * |p.addr| then None
    else if |p.addr| == 4 then
      match Put(m.ips4, p, TRIE_ENTRIES, fault) case Some(s) => Some(m.(ips4 := s)) case None => None
    else
      match Put(m.ips6, p, TRIE_ENTRIES, fault) case Some(s) => Some(m.(ips6 := s)) case None => None
  }

  function HostPrefix(ip: IP): Prefix {
    Prefix(8 * |Canon(ip)|, Canon(ip))
  }

  function NetPrefix(net: IPNet): Prefix {
    Prefix(net.ones, Canon(net.ip))
  }

  function AllowIP(m: Maps, ip: IP, fault: bool): Option<Maps> {
    AddPrefix(m, HostPrefix(ip), fault)
  }

  function AllowCIDR(m: Maps, net: IPNet, fault: bool): Option<Maps> {
    AddPrefix(m, NetPrefix(net), fault)
  }

  function AllowResolver(m: Maps, ip: IP, fault: bool): (r: Option<Maps>)
    ensures r.None? <==> fault || (!ResolverListed(m, ip) && |Listed(m, |Canon(ip)|)| >= RESOLVER_ENTRIES)
    ensures r.Some? ==> forall a :: ResolverListed(r.value, a) <==> ResolverListed(m, a) || Canon(a) == Canon(ip)
    ensures r.Some? ==> r.value.(resolvers4 := m.resolvers4, resolvers6 := m.resolvers6) == m
  {
    if |Canon(ip)| == 4 then
      match Put(m.resolvers4, Canon(ip), RESOLVER_ENTRIES, fault)
      case Some(s) => Some(m.(resolvers4 := s))
      case None => None
    else
      match Put(m.resolvers6, Canon(ip), RESOLVER_ENTRIES, fault)
      case Some(s) => Some(m.(resolvers6 := s))
      case None => None
  }

  function SetAllowAllDNS(m: Maps, enabled: bool, fault: bool): Option<Maps> {
    if fault then None else Some(m.(allowAllDNS := enabled))
  }

  // ---------------------------------------------------------------- ranges

  /** A host prefix matches its address and no other. */
  lemma HostPrefixMatches(ip: IP, a: IP)
    ensures PrefixMatches(HostPrefix(ip), Canon(a)) <==> Canon(ip) == Canon(a)
  {
    var c, d := Canon(ip), Canon(a);
    if |c| == |d| {
      MaskedIsPrefix(c, d, 8 * |c|);
      forall i | 0 <= i < |c| ensures SameUnder(c[i], d[i], MaskAt(8 * |c|, i)) <==> c[i] == d[i] {
        AllOnes(c[i], d[i]);
      }
    }
  }

  lemma AllOnes(a: byte, b: byte)
    ensures SameUnder(a, b, 0xff) <==> a == b
  {
    AndOnes(a);
    AndOnes(b);
  }

  lemma AndOnes(a: byte)
    ensures a & 0xff == a
  {
  }

  lemma MaskKeepsOnes(ones: nat, i: nat, b: byte)
    requires b == 0xff && b & MaskAt(ones, i) == b
    ensures ones >= 8 * i + 8
  {
    if 8 * i < ones < 8 * i + 8 {
      PartialMask(ones - 8 * i);
    }
  }

  lemma PartialMask(k: nat)
    requires k < 8
    ensures (0xff as byte) & MaskByte(k) != 0xff
  {
    if k == 0 {} else if k == 1 {} else if k == 2 {} else if k == 3 {}
    else if k == 4 {} else if k == 5 {} else if k == 6 {} else {}
  }

  /** A mapped base survives its own mask only when the mask keeps the mapped part. */
  lemma MappedNeedsLongMask(net: IPNet)
    requires IsNetwork(net) && IsMapped(net.ip)
    ensures net.ones >= 96
  {
    assert net.ip[11] == net.ip[..12][11] == 0xff;
    assert Masked(net.ip, net.ones)[11] == net.ip[11] & MaskAt(net.ones, 11);
    MaskKeepsOnes(net.ones, 11, net.ip[11]);
  }

  /** The trie of its family can hold a network exactly when its base is not IPv4-mapped. */
  lemma FitsExactly(net: IPNet)
    requires IsNetwork(net)
    ensures NetPrefix(net).len <= 8 * |NetPrefix(net).addr| <==> !IsMapped(net.ip)
  {
    if IsMapped(net.ip) {
      MappedNeedsLongMask(net);
    }
  }

  /** For a network that fits, the engine's containment is the trie's prefix match. */
  lemma ContainsIsMatch(net: IPNet, a: IP)
    requires IsNetwork(net) && !IsMapped(net.ip)
    ensures NetContains(net, a) <==> PrefixMatches(NetPrefix(net), Canon(a))
  {
    if |Canon(a)| == |net.ip| {
      MaskedIsPrefix(net.ip, Canon(a), net.ones);
    }
  }

  /** The tries after a list of networks has been written to empty maps. */
  function SeedRanges(nets: seq<IPNet>, faults: seq<bool>): (r: Option<Maps>)
    requires |faults| == |nets|
  {
    if nets == [] then Some(EMPTY_MAPS)
    else
      var n := |nets| - 1;
      match SeedRanges(nets[..n], faults[..n])
      case Some(m) => AllowCIDR(m, nets[n], faults[n])
      case None => None
  }

  lemma CoveredAfterAdd(m: Maps, p: Prefix, fault: bool, a: IP)
    requires AddPrefix(m, p, fault).Some?
    ensures Covered(AddPrefix(m, p, fault).value, a) <==> Covered(m, a) || PrefixMatches(p, Canon(a))
  {
    var after := AddPrefix(m, p, fault).value;
    if Covered(m, a) {
      var q :| InTrie(m, q) && PrefixMatches(q, Canon(a));
      assert InTrie(after, q);
    }
    if PrefixMatches(p, Canon(a)) {
      assert InTrie(after, p);
    }
  }

  lemma SomeContainsLast(nets: seq<IPNet>, a: IP)
    requires nets != []
    ensures SomeContains(nets, a) <==> SomeContains(nets[..|nets| - 1], a) || NetContains(nets[|nets| - 1], a)
  {
    assert nets == nets[..|nets| - 1] + [nets[|nets| - 1]];
  }

  /**
   * CIDR agreement: once every network of a list is written, the engine's test of the list
   * and the kernel's trie lookup agree on every address of either form.
   */
  lemma {:induction false} RangesAgree(nets: seq<IPNet>, faults: seq<bool>, a: IP)
    requires |faults| == |nets|
    requires forall n :: n in nets ==> IsNetwork(n)
    requires SeedRanges(nets, faults).Some?
    ensures Valid(SeedRanges(nets, faults).value)
    ensures Covered(SeedRanges(nets, faults).value, a) <==> SomeContains(nets, a)
  {
    if nets != [] {
      var n := |nets| - 1;
      RangesAgree(nets[..n], faults[..n], a);
      SomeContainsLast(nets, a);
      FitsExactly(nets[n]);
      ContainsIsMatch(nets[n], a);
      CoveredAfterAdd(SeedRanges(nets[..n], faults[..n]).value, NetPrefix(nets[n]), faults[n], a);
    }
  }

  /** One network alone: engine and kernel agree about it exactly when it is not mapped. */
  lemma RangeAgreesExactly(net: IPNet)
    requires IsNetwork(net)
    ensures (forall a :: NetContains(net, a) <==> Covered(AllowCIDR(EMPTY_MAPS, net, false).GetOr(EMPTY_MAPS), a))
            <==> !IsMapped(net.ip)
  {
    FitsExactly(net);
    var m := AllowCIDR(EMPTY_MAPS, net, false).GetOr(EMPTY_MAPS);
    if IsMapped(net.ip) {
      assert NetContains(net, net.ip);
      assert !Covered(m, net.ip);
    } else {
      forall a ensures NetContains(net, a) <==> Covered(m, a) {
        ContainsIsMatch(net, a);
        assert InTrie(m, NetPrefix(net));
      }
    }
  }
}
