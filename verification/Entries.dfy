/**
 * What an allowlist entry means, told from its text alone: an address, a range, a name or a
 * wildcard, each with or without the optional port.
 */
module Entries {
  import opened Basics
  import opened Strings
  import opened Net
  import opened Kernel
  import opened Policy

  // ---------------------------------------------------------------- the meaning of an entry

  type Destinations = (string, Option<IP>) -> bool

  /**
   * The entry loads; every policy with it allows these destinations, and the policy that has
   * nothing else allows no others.
   */
  ghost predicate Means(lib: Lib, raw: string, allows: Destinations) {
    && Acceptable(ClassifierOf(lib), [raw])
    && forall cfg, e :: Loaded(lib, cfg, e) && raw in cfg.allowlist ==>
         && (forall d, x :: allows(d, x) ==> Allow(lib, e, d, x))
         && (cfg.allowlist == [raw] ==> forall d, x :: Allow(lib, e, d, x) ==> allows(d, x))
  }

  lemma ItemInPolicy(lib: Lib, cfg: Config, e: Engine, raw: string, item: Item, d: string, x: Option<IP>)
    requires Lawful(lib) && Classify(lib, raw) == Ok(item) && Loaded(lib, cfg, e) && raw in cfg.allowlist
    ensures ItemAllows(item, d, x) ==> Allow(lib, e, d, x)
    ensures cfg.allowlist == [raw] && Allow(lib, e, d, x) ==> ItemAllows(item, d, x)
  {
    var items := Items(ClassifierOf(lib), cfg.allowlist);
    assert item in items;
    assert cfg.allowlist == [raw] ==> items == {item};
    AllowMeaning(lib, e, items, d, x);
  }

  lemma ItemMeans(lib: Lib, raw: string, item: Item, allows: Destinations)
    requires Lawful(lib) && Classify(lib, raw) == Ok(item)
    requires forall d, x :: ItemAllows(item, d, x) <==> allows(d, x)
    ensures Means(lib, raw, allows)
  {
    forall cfg, e | Loaded(lib, cfg, e) && raw in cfg.allowlist
      ensures forall d, x :: allows(d, x) ==> Allow(lib, e, d, x)
      ensures cfg.allowlist == [raw] ==> forall d, x :: Allow(lib, e, d, x) ==> allows(d, x)
    {
      forall d, x
        ensures allows(d, x) ==> Allow(lib, e, d, x)
        ensures cfg.allowlist == [raw] && Allow(lib, e, d, x) ==> allows(d, x)
      {
        ItemInPolicy(lib, cfg, e, raw, item, d, x);
      }
    }
  }

  // ---------------------------------------------------------------- stages

  /** Text that is no address itself: what follows is decided by its host. */
  lemma ViaHost(lib: Lib, raw: string, entry: string, host: string)
    requires TrimSpace(raw) == entry && ParseIP(lib, entry).None? && HostOf(entry) == host && host != ""
    ensures Classify(lib, raw) == if '*' in host then ClassifyWildcard(entry, host) else ClassifyHost(lib, entry, host)
  {
  }

  lemma ColonIsMarker()
    ensures IsMarker(":")
  {
  }

  lemma NoCharNoIndex(s: string, c: char)
    requires c !in s
    ensures Index(s, [c]) == LastIndex(s, [c]) == -1
  {
    FreeOfFirst(s, [c]);
    IndexFinds(s, [c]);
    LastIndexFinds(s, [c]);
  }

  lemma NoColonNoPort(s: string)
    requires ':' !in s
    ensures HostOf(s) == s
  {
    NoCharNoIndex(s, ':');
  }

  predicate NoPortChars(s: string) {
    ':' !in s && '[' !in s && ']' !in s
  }

  lemma PortIsCut(host: string, port: string)
    requires NoPortChars(host) && NoPortChars(port)
    ensures SplitHostPort(host + ":" + port) == Some(host)
  {
    var s := host + ":" + port;
    ColonIsMarker();
    FreeOfFirst(port, ":");
    LastMarker(host, ":", port);
    assert s[..|host|] == host;
  }

  lemma LaterColon(s: string, i: nat, j: nat)
    requires i < j < |s| && s[i] == ':' && s[j] == ':'
    ensures LastIndex(s, ":") >= j && ':' in s[..LastIndex(s, ":")]
  {
    assert At(s, ":", j);
    LastIndexFinds(s, ":");
    assert s[..LastIndex(s, ":")][i] == ':';
  }

  /** With two colons and no bracket in front, there is no port to cut. */
  lemma TwoColonsNoPort(s: string, i: nat, j: nat)
    requires i < j < |s| && s[i] == ':' && s[j] == ':' && s[0] != '['
    ensures HostOf(s) == s
  {
    LaterColon(s, i, j);
    assert SplitHostPort(s) == None;
  }

  lemma OneColon(host: string, port: string)
    requires ':' !in host && ':' !in port
    ensures !IsV6Input(host + ":" + port)
  {
    var s := host + ":" + port;
    forall i | 0 <= i < |s| && i != |host| ensures s[i] != ':' {
      assert s[i] == if i < |host| then host[i] else port[i - |host| - 1];
    }
  }

  lemma ColonIsNotDotted(s: string)
    requires ':' in s
    ensures forall b: IP :: |b| == 4 ==> s != Dotted(b)
  {
    forall b: IP | |b| == 4 ensures s != Dotted(b) {
      DottedText(b);
    }
  }

  lemma OneColonNoAddress(lib: Lib, host: string, port: string)
    requires Lawful(lib) && ':' !in host && ':' !in port
    ensures ParseIP(lib, host + ":" + port).None?
  {
    var s := host + ":" + port;
    assert s[|host|] == ':';
    OneColon(host, port);
    ColonIsNotDotted(s);
    if ParseIP(lib, s).Some? {
      AddressText(lib, s);
      assert false;
    }
  }

  lemma PortText(port: nat)
    ensures NoPortChars(Decimal(port)) && '*' !in Decimal(port)
  {
  }

  lemma HostPortTrimmed(host: string, port: nat)
    requires host == "" || !IsSpace(host[0])
    ensures Trimmed(host + ":" + Decimal(port))
  {
    var s := host + ":" + Decimal(port);
    assert s[|s| - 1] == Decimal(port)[|Decimal(port)| - 1];
    assert s[0] == if host == "" then ':' else host[0];
  }

  /** A host without brackets or colons and a port: decided by the host. */
  lemma HostWithPort(lib: Lib, host: string, port: nat)
    requires Lawful(lib) && NoPortChars(host) && host != "" && !IsSpace(host[0])
    ensures var s := host + ":" + Decimal(port);
            Classify(lib, s) == if '*' in host then ClassifyWildcard(s, host) else ClassifyHost(lib, s, host)
  {
    var s := host + ":" + Decimal(port);
    PortText(port);
    HostPortTrimmed(host, port);
    TrimSpaceIs(s);
    OneColonNoAddress(lib, host, Decimal(port));
    PortIsCut(host, Decimal(port));
    ViaHost(lib, s, s, host);
  }

  /** A host without colons and no port. */
  lemma HostAlone(lib: Lib, host: string)
    requires Trimmed(host) && ':' !in host && host != "" && ParseIP(lib, host).None?
    ensures Classify(lib, host) == if '*' in host then ClassifyWildcard(host, host) else ClassifyHost(lib, host, host)
  {
    TrimSpaceIs(host);
    NoColonNoPort(host);
    ViaHost(lib, host, host, host);
  }

  // ---------------------------------------------------------------- addresses

  function OnlyAddress(ip: IP): Destinations {
    (d: string, x: Option<IP>) => x.Some? && Canon(x.value) == Canon(ip)
  }

  lemma AddressItem(lib: Lib, raw: string, ip: IP)
    requires Lawful(lib) && Classify(lib, raw) == Ok(Address(To16(ip)))
    ensures Means(lib, raw, OnlyAddress(ip))
  {
    To16Canon(ip);
    ItemMeans(lib, raw, Address(To16(ip)), OnlyAddress(ip));
  }

  lemma AddressTrimmed(lib: Lib, ip: IP)
    requires Lawful(lib)
    ensures Trimmed(IPString(lib, ip))
  {
    IPTextPlain(lib, ip);
    PlainIsTrimmed(IPString(lib, ip));
  }

  lemma AddressCharIsNoSpace(c: char)
    requires IsV6Char(c) || c == '.'
    ensures !IsSpace(c)
  {
  }

  lemma PlainIsTrimmed(t: string)
    requires t != "" && forall c :: c in t ==> IsV6Char(c) || c == '.'
    ensures Trimmed(t)
  {
    AddressCharIsNoSpace(t[0]);
    AddressCharIsNoSpace(t[|t| - 1]);
  }

  /** A written address, with any white space around it, allows that address and no other. */
  lemma AddressEntry(lib: Lib, ip: IP, before: string, after: string)
    requires Lawful(lib) && Blank(before) && Blank(after)
    ensures Means(lib, before + IPString(lib, ip) + after, OnlyAddress(ip))
  {
    AddressTrimmed(lib, ip);
    TrimAround(before, IPString(lib, ip), after);
    ParsePrintedIP(lib, ip);
    AddressItem(lib, before + IPString(lib, ip) + after, ip);
  }

  /** A dotted quad with a port is that address. */
  lemma AddressPortEntry(lib: Lib, ip: IP, port: nat)
    requires Lawful(lib) && |ip| == 4
    ensures Means(lib, Dotted(ip) + ":" + Decimal(port), OnlyAddress(ip))
  {
    DottedText(ip);
    HostWithPort(lib, Dotted(ip), port);
    ParsePrintedIP(lib, ip);
    AddressItem(lib, Dotted(ip) + ":" + Decimal(port), ip);
  }

  lemma BracketsAreCut(host: string, port: string)
    requires '[' !in host && ']' !in host && NoPortChars(port)
    ensures SplitHostPort("[" + host + "]:" + port) == Some(host)
  {
    var s := "[" + host + "]:" + port;
    ColonIsMarker();
    FreeOfFirst(port, ":");
    LastMarker("[" + host + "]", ":", port);
    assert s == "[" + host + "]" + ":" + port;
    IndexFinds(s, "]");
    assert At(s, "]", |host| + 1);
    forall j | 0 <= j < |host| + 1 ensures !At(s, "]", j) {
      assert s[j..j + 1][0] == if j == 0 then '[' else host[j - 1];
    }
    assert s[1..] == host + "]:" + port && s[|host| + 2..] == ":" + port;
    assert s[1..|host| + 1] == host;
  }

  /** "host:port", with neither brackets nor another colon. */
  ghost predicate IsHostPort(s: string, host: string) {
    exists port :: s == host + ":" + port && NoPortChars(host) && NoPortChars(port)
  }

  /** "[host]:port", with no other brackets. */
  ghost predicate IsBracketed(s: string, host: string) {
    exists port :: s == "[" + host + "]:" + port && '[' !in host && ']' !in host && NoPortChars(port)
  }

  lemma LastColon(s: string) returns (front: string, port: string)
    requires LastIndex(s, ":") >= 0
    ensures front == s[..LastIndex(s, ":")] && s == front + ":" + port && ':' !in port
  {
    AfterLast(s, ":");
    var k := LastIndex(s, ":");
    front, port := s[..k], s[k + 1..];
    forall i | 0 <= i < |port| ensures port[i] != ':' {
      assert !At(port, ":", i);
      assert port[i..i + 1] == [port[i]];
    }
  }

  lemma BracketWasCut(s: string)
    requires SplitHostPort(s).Some? && s[0] == '['
    ensures IsBracketed(s, SplitHostPort(s).value)
  {
    var front, port := LastColon(s);
    var end := Index(s, "]");
    var host := s[1..end];
    IndexFinds(s, "]");
    BeforeFirst(s, "]");
    assert s[end..end + 1] == "]" && front == s[..end + 1];
    assert front == "[" + host + "]";
    forall i | 0 <= i < |host| ensures host[i] != ']' {
      assert !At(s[..end], "]", i + 1);
      assert s[..end][i + 1..i + 2] == [host[i]];
    }
    assert s == "[" + host + "]:" + port;
    assert s[1..] == host + "]:" + port && s[end + 1..] == ":" + port;
    assert '[' !in host && '[' !in port;
    assert ']' !in port;
    assert ']' !in host;
    assert NoPortChars(port);
  }

  /** Exactly these two forms have a port to cut. */
  lemma PortExactly(s: string, host: string)
    ensures SplitHostPort(s) == Some(host) <==> IsHostPort(s, host) || IsBracketed(s, host)
  {
    if port: string :| s == host + ":" + port && NoPortChars(host) && NoPortChars(port) {
      PortIsCut(host, port);
    }
    if port: string :| s == "[" + host + "]:" + port && '[' !in host && ']' !in host && NoPortChars(port) {
      BracketsAreCut(host, port);
    }
    if SplitHostPort(s) == Some(host) {
      if s[0] == '[' {
        BracketWasCut(s);
      } else {
        var front, port := LastColon(s);
        forall c | c in front || c in port ensures c in s {}
      }
    }
  }

  lemma BracketsTrimmed(host: string, port: nat)
    ensures var s := "[" + host + "]:" + Decimal(port); TrimSpace(s) == s && '[' in s
  {
    var s := "[" + host + "]:" + Decimal(port);
    assert s == "[" + host + "]" + ":" + Decimal(port) && s[0] == '[';
    HostPortTrimmed("[" + host + "]", port);
    TrimSpaceIs(s);
  }

  lemma BracketedHost(lib: Lib, host: string, port: nat)
    requires Lawful(lib) && host != "" && '[' !in host && ']' !in host
    ensures var s := "[" + host + "]:" + Decimal(port);
            Classify(lib, s) == if '*' in host then ClassifyWildcard(s, host) else ClassifyHost(lib, s, host)
  {
    var s := "[" + host + "]:" + Decimal(port);
    PortText(port);
    BracketsTrimmed(host, port);
    NoAddress(lib, s, '[');
    BracketsAreCut(host, Decimal(port));
    ViaHost(lib, s, s, host);
  }

  /** An IPv6 address in brackets with a port is that address. */
  lemma BracketedEntry(lib: Lib, ip: IP, port: nat)
    requires Lawful(lib) && |ip| == 16 && !IsMapped(ip)
    ensures Means(lib, "[" + lib.showV6(ip) + "]:" + Decimal(port), OnlyAddress(ip))
  {
    var host := lib.showV6(ip);
    assert IPString(lib, ip) == host;
    IPTextPlain(lib, ip);
    BracketedHost(lib, host, port);
    ParsePrintedIP(lib, ip);
    AddressItem(lib, "[" + host + "]:" + Decimal(port), ip);
  }

  // ---------------------------------------------------------------- ranges

  function OnlyRange(b: IP, n: nat): Destinations
    requires n <= 8 * |b|
  {
    (d: string, x: Option<IP>) => x.Some? && InRange(b, n, x.value)
  }

  lemma UnderMask(a: byte, b: byte, m: byte)
    ensures SameUnder(a & m, b, m) <==> SameUnder(a, b, m)
  {
    MaskTwice(a, m);
  }

  lemma MaskedIsNetwork(b: IP, n: nat)
    requires n <= 8 * |b|
    ensures IsNetwork(IPNet(Masked(b, n), n))
  {
    forall i | 0 <= i < |b| ensures Masked(Masked(b, n), n)[i] == Masked(b, n)[i] {
      MaskTwice(b[i], MaskAt(n, i));
    }
  }

  lemma MappedBase(b: IP, n: nat)
    requires n <= 8 * |b| && IsMapped(Masked(b, n))
    ensures IsMapped(b)
  {
    var net := IPNet(Masked(b, n), n);
    MaskedIsNetwork(b, n);
    MappedNeedsLongMask(net);
    forall i | 0 <= i < 12 ensures b[i] == net.ip[i] {
      AndOnes(b[i]);
    }
    assert b[..12] == net.ip[..12];
  }

  lemma MaskedAgain(b: IP, x: IP, n: nat)
    requires |b| == |x|
    ensures SameMasked(Masked(b, n), x, n) <==> SameMasked(b, x, n)
  {
    forall i | 0 <= i < |b|
      ensures SameUnder(Masked(b, n)[i], x[i], MaskAt(n, i)) <==> SameUnder(b[i], x[i], MaskAt(n, i))
    {
      UnderMask(b[i], x[i], MaskAt(n, i));
    }
  }

  /** The addresses that share the first n bits. */
  predicate InRange(b: IP, n: nat, x: IP)
    requires n <= 8 * |b|
  {
    |Canon(x)| == |b| && SameBits(b, Canon(x), n)
  }

  /** A range whose base is written with bits below the mask contains what shares its first bits. */
  lemma MaskedContains(b: IP, n: nat, x: IP)
    requires n <= 8 * |b| && !IsMapped(b)
    ensures NetContains(IPNet(Masked(b, n), n), x) <==> InRange(b, n, x)
  {
    if IsMapped(Masked(b, n)) {
      MappedBase(b, n);
    }
    MaskedIsNetwork(b, n);
    ContainsIsMatch(IPNet(Masked(b, n), n), x);
    if |Canon(x)| == |b| {
      MaskedAgain(b, Canon(x), n);
      MaskedIsPrefix(b, Canon(x), n);
      MaskedIsPrefix(Masked(b, n), Canon(x), n);
    }
  }

  /** A range with an IPv4-mapped base counts its bits from the start of the 16-byte form. */
  lemma MappedContains(net: IPNet, x: IP)
    requires IsNetwork(net) && IsMapped(net.ip)
    ensures net.ones >= 96
    ensures NetContains(net, x) <==> InRange(Canon(net.ip), net.ones - 96, x)
  {
    MappedNeedsLongMask(net);
    var base, c := Canon(net.ip), Canon(x);
    if |c| == 4 {
      MaskedIsPrefix(base, c, net.ones - 96);
      forall i | 0 <= i < 4
        ensures SameUnder(base[i], c[i], MaskAt(net.ones, 12 + i))
           <==> SameUnder(base[i], c[i], MaskAt(net.ones - 96, i))
      {
        assert MaskAt(net.ones, 12 + i) == MaskAt(net.ones - 96, i);
      }
    }
  }

  lemma FirstSlash(base: string, bits: string)
    requires '/' !in base
    ensures Index(base + "/" + bits, "/") == |base|
  {
    var s := base + "/" + bits;
    IndexFinds(s, "/");
    assert At(s, "/", |base|);
    forall j | 0 <= j < |base| ensures !At(s, "/", j) {
      assert s[j..j + 1][0] == base[j];
      assert base[j] in base;
    }
  }

  /** What stands before the slash as the address parser reads it. */
  function ReadBase(lib: Lib, base: string): Option<IP> {
    match Separator(base)
    case Some(c) => if c == '.' then ReadDotted(base) else if c == ':' then lib.readV6(base) else None
    case None => None
  }

  lemma SlashIsCut(lib: Lib, base: string, bits: string, ip: IP, n: nat)
    requires '/' !in base && ReadBase(lib, base) == Some(ip) && ParseUint(bits, 8 * |ip|) == Some(n)
    ensures ParseCIDR(lib, base + "/" + bits) == Some(IPNet(Masked(ip, n), n))
  {
    var s := base + "/" + bits;
    FirstSlash(base, bits);
    assert s[..|base|] == base && s[|base| + 1..] == bits;
  }

  lemma PrintedBase(lib: Lib, ip: IP)
    requires Lawful(lib) && !IsMapped(ip)
    ensures ReadBase(lib, IPString(lib, ip)) == Some(ip) && '/' !in IPString(lib, ip)
    ensures |ip| == 4 ==> ':' !in IPString(lib, ip)
  {
    var t := IPString(lib, ip);
    if |ip| == 4 {
      DottedText(ip);
      SeparatorIs(t, '.');
      DottedRoundTrip(ip);
    } else {
      SeparatorIs(t, ':');
    }
  }

  lemma SlashTrimmed(base: string, bits: string)
    requires base != "" && !IsSpace(base[0]) && bits != "" && AllDigits(bits)
    ensures Trimmed(base + "/" + bits) && (base + "/" + bits)[|base|] == '/' && (base + "/" + bits)[0] == base[0]
  {
    var s := base + "/" + bits;
    assert s[|s| - 1] == bits[|bits| - 1];
  }

  /** A base without a port in front of it, a slash and a prefix length. */
  lemma SlashEntry(lib: Lib, base: string, bits: string, ip: IP, n: nat)
    requires Lawful(lib) && base != "" && !IsSpace(base[0]) && '*' !in base && '/' !in base
    requires bits != "" && AllDigits(bits) && HostOf(base + "/" + bits) == base + "/" + bits
    requires ReadBase(lib, base) == Some(ip) && ParseUint(bits, 8 * |ip|) == Some(n)
    ensures Classify(lib, base + "/" + bits) == Ok(Range(IPNet(Masked(ip, n), n)))
  {
    var s := base + "/" + bits;
    SlashTrimmed(base, bits);
    TrimSpaceIs(s);
    NoAddress(lib, s, '/');
    ViaHost(lib, s, s, s);
    SlashIsCut(lib, base, bits, ip, n);
  }

  lemma PrintedHasNoPort(lib: Lib, ip: IP, bits: string)
    requires Lawful(lib) && !IsMapped(ip) && ':' !in bits
    ensures var s := IPString(lib, ip) + "/" + bits; HostOf(s) == s
  {
    var t := IPString(lib, ip);
    var s := t + "/" + bits;
    if |ip| == 4 {
      PrintedBase(lib, ip);
      NoColonNoPort(s);
    } else {
      assert IsV6Input(t);
      var i, j :| 0 <= i < j < |t| && t[i] == ':' && t[j] == ':';
      IPTextPlain(lib, ip);
      assert t[0] in t && s[0] == t[0] && s[i] == t[i] && s[j] == t[j];
      TwoColonsNoPort(s, i, j);
    }
  }

  lemma RangeItem(lib: Lib, raw: string, ip: IP, n: nat)
    requires Lawful(lib) && n <= 8 * |ip| && !IsMapped(ip)
    requires Classify(lib, raw) == Ok(Range(IPNet(Masked(ip, n), n)))
    ensures Means(lib, raw, OnlyRange(ip, n))
  {
    var net := IPNet(Masked(ip, n), n);
    forall d: string, x: Option<IP> ensures ItemAllows(Range(net), d, x) <==> OnlyRange(ip, n)(d, x) {
      if x.Some? {
        MaskedContains(ip, n, x.value);
      }
    }
    ItemMeans(lib, raw, Range(net), OnlyRange(ip, n));
  }

  /** A range as it is written: it allows exactly the addresses that share its first n bits. */
  lemma RangeEntry(lib: Lib, ip: IP, n: nat)
    requires Lawful(lib) && !IsMapped(ip) && n <= 8 * |ip|
    ensures Means(lib, IPString(lib, ip) + "/" + Decimal(n), OnlyRange(ip, n))
  {
    var base, bits := IPString(lib, ip), Decimal(n);
    RangeText(lib, ip);
    PrintedBase(lib, ip);
    PrintedHasNoPort(lib, ip, bits);
    SlashEntry(lib, base, bits, ip, n);
    RangeItem(lib, base + "/" + bits, ip, n);
  }

  lemma RangeText(lib: Lib, ip: IP)
    requires Lawful(lib)
    ensures var t := IPString(lib, ip); t != "" && !IsSpace(t[0]) && '*' !in t
  {
    IPTextPlain(lib, ip);
    AddressTrimmed(lib, ip);
  }

  /** The text of an IPv6 address in its compressed form, as "::ffff:10.0.0.0". */
  predicate IsCompressed(base: string) {
    |base| > 2 && base[0] == base[1] == ':' && forall c :: c in base ==> IsV6Char(c) || c == '.'
  }

  /** A compressed base, a slash and a prefix length: the entry becomes that range. */
  lemma CompressedRangeEntry(lib: Lib, base: string, bits: string, ip: IP, n: nat)
    requires Lawful(lib) && IsCompressed(base) && lib.readV6(base) == Some(ip)
    requires ParseUint(bits, 8 * |ip|) == Some(n)
    ensures Classify(lib, base + "/" + bits) == Ok(Range(IPNet(Masked(ip, n), n)))
  {
    var s := base + "/" + bits;
    assert s[0] == ':' && s[1] == ':';
    TwoColonsNoPort(s, 0, 1);
    SlashEntry(lib, base, bits, ip, n);
  }

  // ---------------------------------------------------------------- names

  /** A name as it may stand in the list. */
  predicate IsName(lib: Lib, name: string) {
    && name != "" && Trimmed(name) && ':' !in name && '/' !in name && '*' !in name
    && ParseIP(lib, name).None?
  }

  function OnlyName(name: string): Destinations {
    (d: string, x: Option<IP>) => SameFold(d, name)
  }

  lemma NameItem(lib: Lib, raw: string, name: string)
    requires Lawful(lib) && name != "" && Classify(lib, raw) == Ok(Exact(ToLower(name)))
    ensures Means(lib, raw, OnlyName(name))
  {
    forall d: string, x: Option<IP> ensures ItemAllows(Exact(ToLower(name)), d, x) <==> OnlyName(name)(d, x) {
      SameFoldExactly(d, name);
    }
    ItemMeans(lib, raw, Exact(ToLower(name)), OnlyName(name));
  }

  lemma NoSlashNoRange(lib: Lib, s: string)
    requires '/' !in s
    ensures ParseCIDR(lib, s).None?
  {
    NoCharNoIndex(s, '/');
  }

  lemma NameAsHost(lib: Lib, entry: string, name: string)
    requires IsName(lib, name)
    ensures ClassifyHost(lib, entry, name) == Ok(Exact(ToLower(name)))
  {
    NoSlashNoRange(lib, name);
  }

  /** A plain name allows that name in any case, and no other. */
  lemma NameEntry(lib: Lib, name: string)
    requires Lawful(lib) && IsName(lib, name)
    ensures Means(lib, name, OnlyName(name))
  {
    HostAlone(lib, name);
    NameAsHost(lib, name, name);
    NameItem(lib, name, name);
  }

  /** So does the name with a port, which is not looked at. */
  lemma NamePortEntry(lib: Lib, name: string, port: nat)
    requires Lawful(lib) && IsName(lib, name) && NoPortChars(name)
    ensures Means(lib, name + ":" + Decimal(port), OnlyName(name))
  {
    HostWithPort(lib, name, port);
    NameAsHost(lib, name + ":" + Decimal(port), name);
    NameItem(lib, name + ":" + Decimal(port), name);
  }

  lemma FoldKeeps(a: string, b: string, c: char)
    requires SameFold(a, b) && c in a && c !in UPPER && c !in LOWER
    ensures c in b
  {
    var i :| 0 <= i < |a| && a[i] == c;
    assert SameLetter(a[i], b[i]);
    forall k: nat | k < 26 ensures UPPER[k] in UPPER && LOWER[k] in LOWER {}
    assert b[i] == c;
  }

  // ---------------------------------------------------------------- wildcards

  /** What may stand behind "*.": two or more labels, none of them empty. */
  predicate IsBase(base: string) {
    |Split(base, '.')| >= 2 && "" !in Split(base, '.') && ':' !in base && '*' !in base
  }

  /** The name is longer: something, a dot, and the base in any case. */
  ghost predicate IsLonger(name: string, base: string) {
    exists front, tail :: name == front + "." + tail && SameFold(tail, base)
  }

  ghost function OnlyLonger(base: string): Destinations {
    (d: string, x: Option<IP>) => IsLonger(d, base)
  }

  lemma LowerConcat(a: string, b: string)
    ensures ToLower(a + b) == ToLower(a) + ToLower(b)
  {
  }

  lemma DotIsLow()
    ensures ToLower(".") == "."
  {
  }

  lemma SuffixIsLonger(name: string, base: string)
    requires HasSuffix(ToLower(name), "." + ToLower(base))
    ensures IsLonger(name, base)
  {
    var k := |name| - |base| - 1;
    var front, tail := name[..k], name[k + 1..];
    assert ToLower(name)[k..] == "." + ToLower(base);
    assert ToLower(name)[k..][0] == ToLower(name)[k] == LowerChar(name[k]);
    assert name[k] == '.' && name == front + "." + tail;
    assert ToLower(name)[k..][1..] == ToLower(tail) == ToLower(base);
    SameFoldExactly(tail, base);
  }

  lemma EndsInSuffix(a: string, b: string)
    ensures HasSuffix(a + b, b)
  {
  }

  lemma LongerLowered(front: string, tail: string, base: string)
    requires ToLower(tail) == ToLower(base)
    ensures ToLower(front + "." + tail) == ToLower(front) + ("." + ToLower(base))
  {
    LowerConcat(front + ".", tail);
    LowerConcat(front, ".");
    DotIsLow();
  }

  lemma LongerIsSuffix(name: string, base: string)
    ensures HasSuffix(ToLower(name), "." + ToLower(base)) <==> IsLonger(name, base)
  {
    if HasSuffix(ToLower(name), "." + ToLower(base)) {
      SuffixIsLonger(name, base);
    }
    if front: string, tail: string :| name == front + "." + tail && SameFold(tail, base) {
      SameFoldExactly(tail, base);
      LongerLowered(front, tail, base);
      EndsInSuffix(ToLower(front), "." + ToLower(base));
    }
  }

  lemma WildcardAllows(base: string, d: string, x: Option<IP>)
    ensures ItemAllows(Wildcard("." + ToLower(base)), d, x) <==> IsLonger(d, base)
  {
    LongerIsSuffix(d, base);
  }

  lemma WildcardItem(lib: Lib, raw: string, base: string)
    requires Lawful(lib) && Classify(lib, raw) == Ok(Wildcard("." + ToLower(base)))
    ensures Means(lib, raw, OnlyLonger(base))
  {
    var item := Wildcard("." + ToLower(base));
    forall d: string, x: Option<IP> ensures ItemAllows(item, d, x) <==> OnlyLonger(base)(d, x) {
      WildcardAllows(base, d, x);
    }
    ItemMeans(lib, raw, item, OnlyLonger(base));
  }

  lemma BaseAsWildcard(entry: string, base: string)
    requires IsBase(base)
    ensures ClassifyWildcard(entry, "*." + base) == Ok(Wildcard("." + ToLower(base)))
  {
    assert ("*." + base)[2..] == base;
  }

  lemma StarIsNoAddress(lib: Lib, s: string)
    requires Lawful(lib) && '*' in s
    ensures ParseIP(lib, s).None?
  {
    NoAddress(lib, s, '*');
  }

  /** A wildcard allows every longer name in any case, and no other. */
  lemma WildcardEntry(lib: Lib, base: string)
    requires Lawful(lib) && IsBase(base) && Trimmed("*." + base)
    ensures Means(lib, "*." + base, OnlyLonger(base))
  {
    var host := "*." + base;
    assert host[0] == '*';
    StarIsNoAddress(lib, host);
    HostAlone(lib, host);
    BaseAsWildcard(host, base);
    WildcardItem(lib, host, base);
  }

  lemma WildcardPortEntry(lib: Lib, base: string, port: nat)
    requires Lawful(lib) && IsBase(base) && NoPortChars(base)
    ensures Means(lib, "*." + base + ":" + Decimal(port), OnlyLonger(base))
  {
    var host := "*." + base;
    assert host[0] == '*';
    HostWithPort(lib, host, port);
    BaseAsWildcard(host + ":" + Decimal(port), base);
    WildcardItem(lib, host + ":" + Decimal(port), base);
  }

  lemma WildcardLoadsExactly(s: string)
    requires '*' in s && ':' !in s
    ensures ClassifyWildcard(s, s).Ok? <==> "*." <= s && IsBase(s[2..])
  {
    if "*." <= s {
      assert ':' in s[2..] ==> ':' in s;
    }
  }

  /** Of the texts with an asterisk and no colon, exactly these load. */
  lemma StarLoadsExactly(lib: Lib, s: string)
    requires Lawful(lib) && Trimmed(s) && '*' in s && ':' !in s
    ensures Acceptable(ClassifierOf(lib), [s]) <==> "*." <= s && IsBase(s[2..])
  {
    StarIsNoAddress(lib, s);
    HostAlone(lib, s);
    WildcardLoadsExactly(s);
    assert s in [s];
  }

  // ---------------------------------------------------------------- neither

  function Nothing(): Destinations {
    (d: string, x: Option<IP>) => false
  }

  /** White space alone, or a port alone, is skipped: it loads and allows nothing. */
  lemma EmptyEntry(lib: Lib, raw: string)
    requires Lawful(lib) && Blank(raw)
    ensures Means(lib, raw, Nothing())
  {
    assert "" + "" + raw == raw;
    TrimAround("", "", raw);
    NoColonNoPort("");
    ItemMeans(lib, raw, Skipped, Nothing());
  }

  lemma PortAloneEntry(lib: Lib, port: nat)
    requires Lawful(lib)
    ensures Means(lib, ":" + Decimal(port), Nothing())
  {
    var s := "" + ":" + Decimal(port);
    assert s == ":" + Decimal(port);
    PortText(port);
    HostPortTrimmed("", port);
    TrimSpaceIs(s);
    OneColonNoAddress(lib, "", Decimal(port));
    PortIsCut("", Decimal(port));
    ItemMeans(lib, s, Skipped, Nothing());
  }

  /** Two colons in what is neither an address nor a range: the whole policy is refused. */
  lemma StrayColonsAreRefused(lib: Lib, s: string, i: nat, j: nat)
    requires Lawful(lib) && Trimmed(s) && '[' !in s && '*' !in s && '/' !in s
    requires i < j < |s| && s[i] == ':' && s[j] == ':' && ParseIP(lib, s).None?
    ensures !Acceptable(ClassifierOf(lib), [s])
  {
    assert s[0] in s;
    TrimSpaceIs(s);
    TwoColonsNoPort(s, i, j);
    ViaHost(lib, s, s, s);
    NoSlashNoRange(lib, s);
    assert s in [s];
  }

  /** So does any other colon that does not stand in front of a port. */
  lemma OtherColonsAreRefused(lib: Lib, s: string)
    requires Lawful(lib) && Trimmed(s) && ':' in s && '*' !in s && '/' !in s && ParseIP(lib, s).None?
    requires forall host :: !IsHostPort(s, host) && !IsBracketed(s, host)
    ensures !Acceptable(ClassifierOf(lib), [s])
  {
    TrimSpaceIs(s);
    if SplitHostPort(s).Some? {
      PortExactly(s, SplitHostPort(s).value);
    }
    ViaHost(lib, s, s, s);
    NoSlashNoRange(lib, s);
    assert s in [s];
  }

  // ---------------------------------------------------------------- case

  /** A policy does not tell names apart that differ only in the case of their letters. */
  lemma CaseIsFolded(e: Engine, a: string, b: string)
    requires SameFold(a, b)
    ensures IsAllowedDomain(e, a) <==> IsAllowedDomain(e, b)
  {
    SameFoldExactly(a, b);
  }

  /** Nor entries that do: a name in other case is a name, and becomes the same item. */
  lemma NameCaseIsFolded(lib: Lib, a: string, b: string)
    requires Lawful(lib) && IsName(lib, a) && SameFold(a, b)
    ensures IsName(lib, b) && Classify(lib, a) == Classify(lib, b)
  {
    FoldedIsName(lib, a, b);
    HostAlone(lib, a);
    HostAlone(lib, b);
    NameAsHost(lib, a, a);
    NameAsHost(lib, b, b);
    SameFoldExactly(a, b);
  }

  lemma WildcardCaseIsFolded(lib: Lib, a: string, b: string)
    requires Lawful(lib) && IsBase(a) && IsBase(b) && SameFold(a, b) && Trimmed("*." + a) && Trimmed("*." + b)
    ensures Classify(lib, "*." + a) == Classify(lib, "*." + b)
  {
    assert ("*." + a)[0] == ("*." + b)[0] == '*';
    StarIsNoAddress(lib, "*." + a);
    StarIsNoAddress(lib, "*." + b);
    HostAlone(lib, "*." + a);
    HostAlone(lib, "*." + b);
    BaseAsWildcard("*." + a, a);
    BaseAsWildcard("*." + b, b);
    SameFoldExactly(a, b);
  }

  lemma FoldSymmetric(a: string, b: string)
    requires SameFold(a, b)
    ensures SameFold(b, a)
  {
  }

  lemma NotALetter(c: char)
    requires !('A' <= c <= 'Z') && !('a' <= c <= 'z')
    ensures c !in UPPER && c !in LOWER
  {
    forall k: nat | k < 26 ensures UPPER[k] != c && LOWER[k] != c {
      Letters(k);
    }
  }

  lemma FoldedHasNot(a: string, b: string, c: char)
    requires SameFold(a, b) && c !in a && c !in UPPER && c !in LOWER
    ensures c !in b
  {
    if c in b {
      FoldSymmetric(a, b);
      FoldKeeps(b, a, c);
    }
  }

  /** Folding leaves text without letters alone. */
  lemma FoldedDigits(a: string, b: string)
    requires SameFold(a, b) && forall i :: 0 <= i < |b| ==> IsDigit(b[i]) || b[i] == '.'
    ensures a == b
  {
    forall i | 0 <= i < |b| ensures a[i] == b[i] {
      SameLetterExactly(a[i], b[i]);
    }
  }

  lemma FoldedIsName(lib: Lib, a: string, b: string)
    requires Lawful(lib) && IsName(lib, a) && SameFold(a, b)
    ensures IsName(lib, b)
  {
    NotALetter(':');
    NotALetter('/');
    NotALetter('*');
    FoldedHasNot(a, b, ':');
    FoldedHasNot(a, b, '/');
    FoldedHasNot(a, b, '*');
    SameSpace(a[0], b[0]);
    SameSpace(a[|a| - 1], b[|a| - 1]);
    if ParseIP(lib, b).Some? {
      FoldedAddress(lib, a, b);
    }
  }

  lemma FoldedAddress(lib: Lib, a: string, b: string)
    requires Lawful(lib) && SameFold(a, b) && ':' !in b && ParseIP(lib, b).Some?
    ensures a == b
  {
    AddressText(lib, b);
    var d: IP :| |d| == 4 && b == Dotted(d);
    DottedText(d);
    FoldedDigits(a, b);
  }

  lemma SameSpace(c: char, d: char)
    requires SameLetter(c, d)
    ensures IsSpace(c) <==> IsSpace(d)
  {
    SameLetterExactly(c, d);
  }
}
