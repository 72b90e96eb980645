/**
 * The policy engine: every allowlist entry is classified into one store, and a
 * destination is allowed when some store holds it.
 */
module Policy {
  import opened Basics
  import opened Strings
  import opened Net

  // ---------------------------------------------------------------- data

  /** mode is "audit", "block", or "" when the file leaves it to the caller. */
  datatype Config = Config(mode: string, allowlist: seq<string>, allowAllDNS: bool)

  /** What one allowlist entry becomes. */
  datatype Item =
    | Skipped
    | Address(ip: IP)
    | Range(net: IPNet)
    | Exact(domain: string)
    | Wildcard(suffix: string) // with its leading dot

  datatype PolicyError =
    | InvalidMode(mode: string)
    | UnsupportedWildcard(entry: string)
    | MalformedWildcard(entry: string)
    | TooBroadWildcard(entry: string)
    | EmptyLabel(entry: string)
    | MalformedEntry(entry: string)

  datatype Engine = Engine(
    mode: string,
    domains: set<string>,
    wildcards: seq<string>,
    allowedIP: map<string, IP>, // keyed by the address text
    cidrs: seq<IPNet>,
    allowAllDNS: bool)

  predicate ValidMode(mode: string) {
    mode == "audit" || mode == "block" || mode == ""
  }

  // ---------------------------------------------------------------- classification

  /** net.SplitHostPort, keeping the host; None is any of its errors. */
  function SplitHostPort(s: string): Option<string> {
    var i := LastIndex(s, ":");
    if i < 0 then None
    else if s[0] == '[' then
      var end := Index(s, "]");
      if end < 0 || end + 1 != i then None
      else if '[' in s[1..] || ']' in s[end + 1..] then None
      else Some(s[1..end])
    else
      var host := s[..i];
      if ':' in host || '[' in s || ']' in s then None else Some(host)
  }

  /** The entry without the optional port. */
  function HostOf(entry: string): string {
    match SplitHostPort(entry) case Some(h) => h case None => entry
  }

  function ClassifyWildcard(entry: string, host: string): Result<Item, PolicyError> {
    if !("*." <= host) || '*' in host[2..] then Err(UnsupportedWildcard(entry))
    else
      var suffix := host[2..];
      var labels := Split(suffix, '.');
      if ':' in suffix then Err(MalformedWildcard(entry))
      else if |labels| < 2 then Err(TooBroadWildcard(entry))
      else if "" in labels then Err(EmptyLabel(entry))
      else Ok(Wildcard("." + ToLower(suffix)))
  }

  function ClassifyHost(lib: Lib, entry: string, host: string): Result<Item, PolicyError> {
    match ParseIP(lib, host)
    case Some(ip) => Ok(Address(ip))
    case None =>
      match ParseCIDR(lib, host)
      case Some(net) => Ok(Range(net))
      case None => if ':' in host then Err(MalformedEntry(entry)) else Ok(Exact(ToLower(host)))
  }

  /** One turn of the loading loop. */
  function Classify(lib: Lib, raw: string): Result<Item, PolicyError> {
    var entry := TrimSpace(raw);
    match ParseIP(lib, entry)
    case Some(ip) => Ok(Address(ip))
    case None =>
      var host := HostOf(entry);
      if host == "" then Ok(Skipped)
      else if '*' in host then ClassifyWildcard(entry, host)
      else ClassifyHost(lib, entry, host)
  }

  // ---------------------------------------------------------------- loading

  type Classifier = string -> Result<Item, PolicyError>

  function ClassifierOf(lib: Lib): Classifier {
    raw => Classify(lib, raw)
  }

  ghost predicate Acceptable(c: Classifier, entries: seq<string>) {
    forall raw :: raw in entries ==> c(raw).Ok?
  }

  /** The items of an acceptable list of entries. */
  ghost function Items(c: Classifier, entries: seq<string>): set<Item>
    requires Acceptable(c, entries)
  {
    set raw | raw in entries :: c(raw).value
  }

  /** The stores hold exactly the items, each in the store of its kind. */
  ghost predicate Stores(lib: Lib, e: Engine, items: set<Item>) {
    && (forall d :: d in e.domains <==> Exact(d) in items)
    && (forall w :: w in e.wildcards <==> Wildcard(w) in items)
    && (forall n :: n in e.cidrs <==> Range(n) in items)
    && (forall ip: IP :: Address(ip) in items ==> IPString(lib, ip) in e.allowedIP)
    && (forall t :: t in e.allowedIP ==> Address(e.allowedIP[t]) in items && IPString(lib, e.allowedIP[t]) == t)
  }

  /** Adds one classified entry to its store. */
  function Store(lib: Lib, e: Engine, item: Item): (f: Engine)
    ensures f.mode == e.mode && f.allowAllDNS == e.allowAllDNS
  {
    match item
    case Skipped => e
    case Address(ip) => e.(allowedIP := e.allowedIP[IPString(lib, ip) := ip])
    case Range(net) => e.(cidrs := e.cidrs + [net])
    case Exact(d) => e.(domains := e.domains + {d})
    case Wildcard(w) => e.(wildcards := e.wildcards + [w])
  }

  lemma StoreKeepsStores(lib: Lib, e: Engine, items: set<Item>, item: Item)
    requires Stores(lib, e, items)
    ensures Stores(lib, Store(lib, e, item), items + {item})
  {
    var f := Store(lib, e, item);
    match item
    case Skipped =>
    case Address(ip) =>
      var key := IPString(lib, ip);
      assert f.allowedIP == e.allowedIP[key := ip];
    case Range(net) => assert forall n :: n in f.cidrs <==> n in e.cidrs || n == net;
    case Exact(d) =>
    case Wildcard(w) => assert forall v :: v in f.wildcards <==> v in e.wildcards || v == w;
  }

  lemma ItemsAppend(c: Classifier, entries: seq<string>, raw: string)
    requires Acceptable(c, entries) && c(raw).Ok?
    ensures Acceptable(c, entries + [raw])
    ensures Items(c, entries + [raw]) == Items(c, entries) + {c(raw).value}
  {
    assert forall s :: s in entries + [raw] <==> s in entries || s == raw;
  }

  /** The loading loop: stores every entry, or stops at the first that is refused. */
  method LoadEntries(lib: Lib, c: Classifier, empty: Engine, entries: seq<string>)
    returns (r: Result<Engine, PolicyError>)
    requires Stores(lib, empty, {})
    ensures r.Ok? <==> Acceptable(c, entries)
    ensures r.Ok? ==> r.value.mode == empty.mode && r.value.allowAllDNS == empty.allowAllDNS
    ensures r.Ok? ==> Stores(lib, r.value, Items(c, entries))
    ensures r.Err? ==> exists i :: 0 <= i < |entries| && Acceptable(c, entries[..i]) && c(entries[i]) == Err(r.error)
  {
    var e := empty;
    ghost var items := {};
    for n := 0 to |entries|
      invariant e.mode == empty.mode && e.allowAllDNS == empty.allowAllDNS
      invariant Acceptable(c, entries[..n]) && items == Items(c, entries[..n])
      invariant Stores(lib, e, items)
    {
      var item := c(entries[n]);
      if item.Err? {
        return Err(item.error);
      }
      assert entries[..n + 1] == entries[..n] + [entries[n]];
      ItemsAppend(c, entries[..n], entries[n]);
      StoreKeepsStores(lib, e, items, item.value);
      e, items := Store(lib, e, item.value), items + {item.value};
    }
    assert entries[..|entries|] == entries;
    r := Ok(e);
  }

  /** What a configuration that loads becomes. */
  ghost predicate Loaded(lib: Lib, cfg: Config, e: Engine) {
    && cfg.mode in {"audit", "block", ""} && e.mode == cfg.mode && e.allowAllDNS == cfg.allowAllDNS
    && Acceptable(ClassifierOf(lib), cfg.allowlist)
    && Stores(lib, e, Items(ClassifierOf(lib), cfg.allowlist))
  }

  /**
   * Loading succeeds exactly when the mode is valid and every entry is acceptable on its
   * own; otherwise it reports the first reason. The stores then hold exactly the items.
   */
  method NewEngine(lib: Lib, cfg: Config) returns (r: Result<Engine, PolicyError>)
    ensures r.Ok? <==> cfg.mode in {"audit", "block", ""} && Acceptable(ClassifierOf(lib), cfg.allowlist)
    ensures r.Ok? ==> Loaded(lib, cfg, r.value)
    ensures cfg.mode !in {"audit", "block", ""} ==> r == Err(InvalidMode(cfg.mode))
    ensures cfg.mode in {"audit", "block", ""} && r.Err? ==>
              exists i :: 0 <= i < |cfg.allowlist| && Acceptable(ClassifierOf(lib), cfg.allowlist[..i])
                       && ClassifierOf(lib)(cfg.allowlist[i]) == Err(r.error)
  {
    if !ValidMode(cfg.mode) {
      return Err(InvalidMode(cfg.mode));
    }
    r := LoadEntries(lib, ClassifierOf(lib), Engine(cfg.mode, {}, [], map[], [], cfg.allowAllDNS), cfg.allowlist);
  }

  // ---------------------------------------------------------------- decisions

  predicate MatchesWildcard(e: Engine, domain: string) {
    exists i :: 0 <= i < |e.wildcards| && HasSuffix(domain, e.wildcards[i])
  }

  predicate IsAllowedDomain(e: Engine, domain: string) {
    domain != "" && (ToLower(domain) in e.domains || MatchesWildcard(e, ToLower(domain)))
  }

  predicate AllowsIP(lib: Lib, e: Engine, ip: IP) {
    IPString(lib, ip) in e.allowedIP || SomeContains(e.cidrs, ip)
  }

  /** Engine.Allow; the address is absent when it is nil. */
  predicate Allow(lib: Lib, e: Engine, domain: string, ip: Option<IP>) {
    (ip.Some? && AllowsIP(lib, e, ip.value)) || IsAllowedDomain(e, domain)
  }

  /** What one item allows, without looking at any other. */
  predicate ItemAllows(item: Item, domain: string, ip: Option<IP>) {
    match item
    case Skipped => false
    case Address(a) => ip.Some? && Canon(a) == Canon(ip.value)
    case Range(net) => ip.Some? && NetContains(net, ip.value)
    case Exact(d) => domain != "" && ToLower(domain) == d
    case Wildcard(w) => domain != "" && HasSuffix(ToLower(domain), w)
  }

  /** The engine allows a destination exactly when one of its items does. */
  lemma AllowMeaning(lib: Lib, e: Engine, items: set<Item>, domain: string, ip: Option<IP>)
    requires Lawful(lib) && Stores(lib, e, items)
    ensures Allow(lib, e, domain, ip) <==> exists item :: item in items && ItemAllows(item, domain, ip)
  {
    if ip.Some? && IPString(lib, ip.value) in e.allowedIP {
      var a := e.allowedIP[IPString(lib, ip.value)];
      IPStringInjective(lib, a, ip.value);
      assert ItemAllows(Address(a), domain, ip);
    } else if ip.Some? && AllowsIP(lib, e, ip.value) {
      var net :| net in e.cidrs && NetContains(net, ip.value);
      assert ItemAllows(Range(net), domain, ip);
    } else if domain != "" && ToLower(domain) in e.domains {
      assert ItemAllows(Exact(ToLower(domain)), domain, ip);
    } else if IsAllowedDomain(e, domain) {
      var i :| 0 <= i < |e.wildcards| && HasSuffix(ToLower(domain), e.wildcards[i]);
      assert e.wildcards[i] in e.wildcards;
      assert ItemAllows(Wildcard(e.wildcards[i]), domain, ip);
    } else {
      forall item | item in items ensures !ItemAllows(item, domain, ip) {
        match item
        case Skipped =>
        case Address(a) => if ip.Some? { IPStringInjective(lib, a, ip.value); }
        case Range(net) => assert net in e.cidrs;
        case Exact(d) =>
        case Wildcard(w) => assert w in e.wildcards;
      }
    }
  }

  /**
   * Two policies whose entries are related by inclusion as sets: order and repetition do
   * not matter, acceptance can only be lost and permission can only be gained.
   */
  lemma PolicyMonotone(lib: Lib, c: Classifier, small: seq<string>, large: seq<string>,
                       e: Engine, f: Engine, domain: string, ip: Option<IP>)
    requires Lawful(lib)
    requires forall s :: s in small ==> s in large
    requires Acceptable(c, large)
    ensures Acceptable(c, small)
    ensures (Stores(lib, e, Items(c, small)) && Stores(lib, f, Items(c, large)) && Allow(lib, e, domain, ip))
              ==> Allow(lib, f, domain, ip)
  {
    if Stores(lib, e, Items(c, small)) && Stores(lib, f, Items(c, large)) {
      AllowMeaning(lib, e, Items(c, small), domain, ip);
      AllowMeaning(lib, f, Items(c, large), domain, ip);
    }
  }

  /** The same entries in any order and with any repetition: the same decisions. */
  lemma PolicyIsASet(lib: Lib, c: Classifier, a: seq<string>, b: seq<string>, e: Engine, f: Engine,
                     domain: string, ip: Option<IP>)
    requires Lawful(lib)
    requires forall s :: s in a <==> s in b
    ensures Acceptable(c, a) <==> Acceptable(c, b)
    ensures Acceptable(c, a) && Stores(lib, e, Items(c, a)) && Stores(lib, f, Items(c, b)) ==>
              (Allow(lib, e, domain, ip) <==> Allow(lib, f, domain, ip))
  {
    if Acceptable(c, b) {
      PolicyMonotone(lib, c, a, b, e, f, domain, ip);
    }
    if Acceptable(c, a) {
      PolicyMonotone(lib, c, b, a, f, e, domain, ip);
    }
  }

  // ---------------------------------------------------------------- what an entry can be

  lemma LowerKeeps(s: string, c: char)
    requires c !in s && !('a' <= c <= 'z')
    ensures c !in ToLower(s)
  {
    forall i | 0 <= i < |s| ensures ToLower(s)[i] != c {
      assert s[i] in s;
    }
  }

  lemma ExactHost(lib: Lib, entry: string, host: string)
    requires ClassifyHost(lib, entry, host).Ok? && ClassifyHost(lib, entry, host).value.Exact?
    ensures ':' !in host && ClassifyHost(lib, entry, host).value == Exact(ToLower(host))
  {
  }

  /** A name that is resolved at startup is never empty and never holds '*' or ':'. */
  lemma ExactNames(lib: Lib, raw: string)
    requires Classify(lib, raw).Ok? && Classify(lib, raw).value.Exact?
    ensures var d := Classify(lib, raw).value.domain;
            d != "" && '*' !in d && ':' !in d
  {
    var host := HostOf(TrimSpace(raw));
    assert Classify(lib, raw) == ClassifyHost(lib, TrimSpace(raw), host);
    ExactHost(lib, TrimSpace(raw), host);
    LowerKeeps(host, '*');
    LowerKeeps(host, ':');
  }

  /** No name of an engine's Domains() holds '*' or ':'. */
  lemma DomainNames(lib: Lib, entries: seq<string>, e: Engine, d: string)
    requires Acceptable(ClassifierOf(lib), entries) && Stores(lib, e, Items(ClassifierOf(lib), entries))
    requires d in e.domains
    ensures d != "" && '*' !in d && ':' !in d
  {
    assert Exact(d) in Items(ClassifierOf(lib), entries);
    var raw :| raw in entries && Classify(lib, raw).value == Exact(d);
    ExactNames(lib, raw);
  }

  lemma RangeEntry(lib: Lib, raw: string)
    requires Classify(lib, raw).Ok? && Classify(lib, raw).value.Range?
    ensures ParseCIDR(lib, HostOf(TrimSpace(raw))) == Some(Classify(lib, raw).value.net)
  {
    var host := HostOf(TrimSpace(raw));
    assert Classify(lib, raw) == ClassifyHost(lib, TrimSpace(raw), host);
  }

  /** Every range of an engine is a network as ParseCIDR returns it. */
  lemma RangesAreNetworks(lib: Lib, entries: seq<string>, e: Engine, net: IPNet)
    requires Acceptable(ClassifierOf(lib), entries) && Stores(lib, e, Items(ClassifierOf(lib), entries))
    requires net in e.cidrs
    ensures IsNetwork(net)
  {
    assert Range(net) in Items(ClassifierOf(lib), entries);
    var raw :| raw in entries && Classify(lib, raw).value == Range(net);
    RangeEntry(lib, raw);
    ParseCIDRIsNetwork(lib, HostOf(TrimSpace(raw)));
  }

  // ---------------------------------------------------------------- wildcards

  /** The labels of a wildcard come last in the name, and the name has more in front. */
  ghost predicate ProperLabelSuffix(name: seq<string>, labels: seq<string>) {
    |labels| < |name| && name[|name| - |labels|..] == labels
  }

  /** Ending in ".b" character by character is ending in the labels of b and one more. */
  lemma SuffixIsLabelSuffix(name: string, b: string)
    ensures HasSuffix(name, "." + b) <==> ProperLabelSuffix(Split(name, '.'), Split(b, '.'))
  {
    var n, l := Split(name, '.'), Split(b, '.');
    if HasSuffix(name, "." + b) {
      var front := name[..|name| - |b| - 1];
      assert name == front + name[|front|..];
      assert name == front + ['.'] + b;
      SplitConcat(front, '.', b);
      assert n[|n| - |l|..] == l;
    }
    if ProperLabelSuffix(n, l) {
      var front := n[..|n| - |l|];
      assert n == front + l;
      JoinConcat(front, l, '.');
      assert name == Join(front, '.') + ['.'] + b;
      assert name[|name| - |b| - 1..] == "." + b;
    }
  }

  /**
   * A wildcard entry has at least two labels, none empty, and matches exactly the names
   * that have them, case folded, as a proper suffix of their labels.
   */
  lemma WildcardMeaning(lib: Lib, raw: string, domain: string)
    requires Classify(lib, raw).Ok? && Classify(lib, raw).value.Wildcard?
    ensures var w := Classify(lib, raw).value.suffix;
            var host := HostOf(TrimSpace(raw));
            && "*." <= host && w == "." + ToLower(host[2..])
            && |Split(host[2..], '.')| >= 2 && "" !in Split(host[2..], '.')
            && (HasSuffix(ToLower(domain), w)
                <==> ProperLabelSuffix(Split(ToLower(domain), '.'), Split(ToLower(host[2..]), '.')))
  {
    var host := HostOf(TrimSpace(raw));
    SuffixIsLabelSuffix(ToLower(domain), ToLower(host[2..]));
  }

  /** Neither the base name nor a longer name with no dot in front of it matches. */
  lemma WildcardNeedsADot(b: string, x: string)
    ensures !HasSuffix(b, "." + b)
    ensures x != "" && x[|x| - 1] != '.' ==> !HasSuffix(x + b, "." + b)
  {
    if x != "" && x[|x| - 1] != '.' {
      assert (x + b)[|x| - 1..][0] == x[|x| - 1];
    }
  }
}
