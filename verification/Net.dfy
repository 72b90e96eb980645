/**
 * Go's `net` package as far as the agent uses it: addresses as byte slices of length 4 or
 * 16, their text, CIDR ranges. Dotted quads are concrete. The text form of IPv6 and the
 * printable-rune table are library data, taken as a parameter Lib with a contract.
 */
module Net {
  import opened Basics
  import opened Strings

  type byte = bv8
  type IP = s: seq<byte> | |s| == 4 || |s| == 16 witness [0, 0, 0, 0]

  // ---------------------------------------------------------------- addresses

  const V4_IN_V6: seq<byte> := [0, 0, 0, 0, 0, 0, 0, 0, 0, 0, 0xff, 0xff]
  const V6_LOOPBACK: seq<byte> := [0, 0, 0, 0, 0, 0, 0, 0, 0, 0, 0, 0, 0, 0, 0, 1]

  /** An IPv4-mapped IPv6 address, ::ffff:a.b.c.d. */
  predicate IsMapped(ip: seq<byte>) {
    |ip| == 16 && ip[..12] == V4_IN_V6
  }

  function To4(ip: IP): Option<IP> {
    if |ip| == 4 then Some(ip) else if IsMapped(ip) then Some(ip[12..]) else None
  }

  function To16(ip: IP): IP {
    if |ip| == 4 then V4_IN_V6 + ip else ip
  }

  /** The four-byte form when there is one, as every map and table keys addresses. */
  function Canon(ip: IP): IP {
    match To4(ip) case Some(ip4) => ip4 case None => ip
  }

  predicate IsLoopback(ip: IP) {
    match To4(ip) case Some(ip4) => ip4[0] == 127 case None => ip == V6_LOOPBACK
  }

  /** The mapped form, byte by byte, and the address it stands for. */
  lemma MappedMeaning(ip: IP)
    ensures IsMapped(ip) <==> |ip| == 16 && (forall i :: 0 <= i < 10 ==> ip[i] == 0) && ip[10] == ip[11] == 0xff
    ensures Canon(ip) == if IsMapped(ip) then [ip[12], ip[13], ip[14], ip[15]] else ip
  {
    if |ip| == 16 {
      assert forall i :: 0 <= i < 12 ==> ip[..12][i] == ip[i];
    }
  }

  /** 127.0.0.0/8 in either form, and ::1. */
  lemma LoopbackMeaning(ip: IP)
    ensures IsLoopback(ip) <==>
              || (|Canon(ip)| == 4 && Canon(ip)[0] == 127)
              || (|ip| == 16 && ip[15] == 1 && forall i :: 0 <= i < 15 ==> ip[i] == 0)
  {
    MappedMeaning(ip);
    if |ip| == 16 && ip[15] == 1 && forall i :: 0 <= i < 15 ==> ip[i] == 0 {
      assert ip == V6_LOOPBACK;
    }
  }

  lemma To16Canon(ip: IP)
    ensures To16(Canon(ip)) == To16(ip) && Canon(To16(ip)) == Canon(ip)
    ensures Canon(Canon(ip)) == Canon(ip)
    ensures |Canon(ip)| == 16 ==> !IsMapped(Canon(ip))
  {
    if |ip| == 4 {
      assert To16(ip)[..12] == V4_IN_V6 && To16(ip)[12..] == ip;
    } else if IsMapped(ip) {
      assert V4_IN_V6 + ip[12..] == ip;
    }
  }

  // ---------------------------------------------------------------- text

  /** Library data: which runes are printable, and how IPv6 addresses are written and read. */
  datatype Lib = Lib(isPrint: char -> bool, showV6: seq<byte> -> string, readV6: string -> Option<IP>)

  predicate IsV6Char(c: char) {
    IsDigit(c) || 'a' <= c <= 'f' || c == ':'
  }

  predicate IsV6Text(s: string) {
    ':' in s && forall i :: 0 <= i < |s| ==> IsV6Char(s[i])
  }

  /** Text that can be read as IPv6: hexadecimal digits, dots, and two colons or more. */
  predicate IsV6Input(s: string) {
    && (exists i, j :: 0 <= i < j < |s| && s[i] == ':' && s[j] == ':')
    && forall c :: c in s ==> IsV6Char(c) || 'A' <= c <= 'F' || c == '.'
  }

  /** What the model asks of the library: reading undoes writing, and blanks stand out. */
  ghost predicate Lawful(lib: Lib) {
    && (forall c :: lib.isPrint(c) && IsSpace(c) ==> c == ' ')
    && (forall c :: ' ' <= c <= '~' ==> lib.isPrint(c))
    && !lib.isPrint('\n')
    && (forall b: IP :: |b| == 16 && !IsMapped(b) ==>
          IsV6Text(lib.showV6(b)) && |lib.showV6(b)| <= 39 && lib.readV6(lib.showV6(b)) == Some(b))
    && (forall s :: lib.readV6(s).Some? ==> |lib.readV6(s).value| == 16 && IsV6Input(s))
  }

  function Octet(b: byte): string {
    Decimal(b as nat)
  }

  function Dotted(b: IP): string
    requires |b| == 4
  {
    Octet(b[0]) + ['.'] + (Octet(b[1]) + ['.'] + (Octet(b[2]) + ['.'] + Octet(b[3])))
  }

  /** One field of a dotted quad: at most 255, and no leading zero. */
  predicate IsOctet(s: string) {
    s != "" && AllDigits(s) && (|s| > 1 ==> s[0] != '0') && Value(s) <= 255
  }

  function ByteOf(s: string): byte
    requires IsOctet(s)
  {
    Value(s) as byte
  }

  function ReadDotted(s: string): Option<IP> {
    var f := Split(s, '.');
    if |f| == 4 && IsOctet(f[0]) && IsOctet(f[1]) && IsOctet(f[2]) && IsOctet(f[3]) then
      Some([ByteOf(f[0]), ByteOf(f[1]), ByteOf(f[2]), ByteOf(f[3])])
    else None
  }

  /** net.IP.String: an IPv4-mapped address is written as its dotted quad. */
  function IPString(lib: Lib, ip: IP): string {
    match To4(ip) case Some(ip4) => Dotted(ip4) case None => lib.showV6(ip)
  }

  /** Where the first '.', ':' or '%' stands, which is what picks the parser. */
  function Separator(s: string): (r: Option<char>)
    ensures r.Some? ==> r.value in s && (r.value == '.' || r.value == ':' || r.value == '%')
    ensures r.None? ==> '.' !in s && ':' !in s && '%' !in s
  {
    if s == "" then None
    else if s[0] == '.' || s[0] == ':' || s[0] == '%' then Some(s[0])
    else Separator(s[1..])
  }

  /** net.ParseIP: the 16-byte form, or None. */
  function ParseIP(lib: Lib, s: string): Option<IP> {
    match Separator(s)
    case Some(c) =>
      if c == '.' then
        match ReadDotted(s) case Some(ip4) => Some(To16(ip4)) case None => None
      else if c == ':' then lib.readV6(s)
      else None
    case None => None
  }

  lemma OctetText(b: byte)
    ensures IsOctet(Octet(b)) && ByteOf(Octet(b)) == b
    ensures '.' !in Octet(b)
  {
  }

  lemma SplitFour(s0: string, s1: string, s2: string, s3: string, sep: char)
    requires sep !in s0 && sep !in s1 && sep !in s2 && sep !in s3
    ensures Split(s0 + [sep] + (s1 + [sep] + (s2 + [sep] + s3)), sep) == [s0, s1, s2, s3]
  {
    SplitPlain(s0, sep); SplitPlain(s1, sep); SplitPlain(s2, sep); SplitPlain(s3, sep);
    SplitConcat(s2, sep, s3);
    SplitConcat(s1, sep, s2 + [sep] + s3);
    SplitConcat(s0, sep, s1 + [sep] + (s2 + [sep] + s3));
  }

  lemma ReadFour(s: string, f0: string, f1: string, f2: string, f3: string)
    requires Split(s, '.') == [f0, f1, f2, f3]
    requires IsOctet(f0) && IsOctet(f1) && IsOctet(f2) && IsOctet(f3)
    ensures ReadDotted(s) == Some([ByteOf(f0), ByteOf(f1), ByteOf(f2), ByteOf(f3)])
  {
  }

  lemma FourBytes(b: IP, b0: byte, b1: byte, b2: byte, b3: byte)
    requires |b| == 4 && b0 == b[0] && b1 == b[1] && b2 == b[2] && b3 == b[3]
    ensures [b0, b1, b2, b3] == b
  {
  }

  lemma DottedRoundTrip(b: IP)
    requires |b| == 4
    ensures ReadDotted(Dotted(b)) == Some(b)
  {
    var s0, s1, s2, s3 := Octet(b[0]), Octet(b[1]), Octet(b[2]), Octet(b[3]);
    OctetText(b[0]); OctetText(b[1]); OctetText(b[2]); OctetText(b[3]);
    SplitFour(s0, s1, s2, s3, '.');
    ReadFour(Dotted(b), s0, s1, s2, s3);
    FourBytes(b, ByteOf(s0), ByteOf(s1), ByteOf(s2), ByteOf(s3));
  }

  // A cast from a number to a byte and back is the identity below 256.

  lemma NextByte(b: byte)
    requires b != 255
    ensures (b + 1) as nat == b as nat + 1
  {
  }

  lemma LastByte(b: byte)
    requires b == 255
    ensures b as nat == 255
  {
  }

  lemma {:induction false} ByteFor(v: nat) returns (b: byte)
    requires v < 256
    ensures b as nat == v
  {
    b := 0;
    if v > 0 {
      b := ByteFor(v - 1);
      if b == 255 {
        LastByte(b);
        assert false;
      }
      NextByte(b);
      b := b + 1;
    }
  }

  lemma SameByte(b: byte)
    ensures (b as nat) as byte == b
  {
  }

  lemma CastBack(v: nat)
    requires v < 256
    ensures (v as byte) as nat == v
  {
    var b := ByteFor(v);
    SameByte(b);
  }

  /** An octet that is read is written the same way. */
  lemma OctetIsWritten(f: string)
    requires IsOctet(f)
    ensures Octet(ByteOf(f)) == f
  {
    CastBack(Value(f));
    DecimalOfValue(f);
  }

  lemma JoinFour(s0: string, s1: string, s2: string, s3: string, sep: char)
    ensures Join([s0, s1, s2, s3], sep) == s0 + [sep] + (s1 + [sep] + (s2 + [sep] + s3))
  {
    assert [s0, s1, s2, s3][1..] == [s1, s2, s3];
    assert [s1, s2, s3][1..] == [s2, s3];
    assert [s2, s3][1..] == [s3];
    assert Join([s2, s3], sep) == s2 + [sep] + s3;
    assert Join([s1, s2, s3], sep) == s1 + [sep] + Join([s2, s3], sep);
  }

  lemma ReadIsWritten(s: string)
    requires ReadDotted(s).Some?
    ensures s == Dotted(ReadDotted(s).value)
  {
    var f := Split(s, '.');
    OctetIsWritten(f[0]); OctetIsWritten(f[1]); OctetIsWritten(f[2]); OctetIsWritten(f[3]);
    JoinFour(f[0], f[1], f[2], f[3], '.');
    assert f == [f[0], f[1], f[2], f[3]];
  }

  /** A dotted quad is read exactly from the text it is written as: no leading zero, no other form. */
  lemma ReadDottedExactly(s: string, b: IP)
    requires |b| == 4
    ensures ReadDotted(s) == Some(b) <==> s == Dotted(b)
  {
    DottedRoundTrip(b);
    if ReadDotted(s) == Some(b) {
      ReadIsWritten(s);
    }
  }

  predicate IsDottedText(s: string) {
    s != "" && IsDigit(s[0]) && '.' in s && forall i :: 0 <= i < |s| ==> IsDigit(s[i]) || s[i] == '.'
  }

  lemma DottedPlain(d: string, rest: string)
    requires d != "" && AllDigits(d)
    requires forall i :: 0 <= i < |rest| ==> IsDigit(rest[i]) || rest[i] == '.'
    ensures IsDottedText(d + ['.'] + rest)
  {
    assert (d + ['.'] + rest)[|d|] == '.';
  }

  lemma DottedText(b: IP)
    requires |b| == 4
    ensures IsDottedText(Dotted(b))
  {
    OctetText(b[0]); OctetText(b[1]); OctetText(b[2]); OctetText(b[3]);
    DottedPlain(Octet(b[2]), Octet(b[3]));
    DottedPlain(Octet(b[1]), Octet(b[2]) + ['.'] + Octet(b[3]));
    DottedPlain(Octet(b[0]), Octet(b[1]) + ['.'] + (Octet(b[2]) + ['.'] + Octet(b[3])));
  }

  lemma {:induction false} SeparatorIs(s: string, c: char)
    requires c in s && (c == '.' || c == ':')
    requires forall d :: d in s && (d == '.' || d == ':' || d == '%') ==> d == c
    ensures Separator(s) == Some(c)
  {
    if s[0] != c {
      assert forall d :: d in s[1..] ==> d in s;
      assert s == [s[0]] + s[1..];
      SeparatorIs(s[1..], c);
    }
  }

  /** Reading a written address gives its 16-byte form, whichever form was written. */
  lemma ParsePrintedIP(lib: Lib, ip: IP)
    requires Lawful(lib)
    ensures ParseIP(lib, IPString(lib, ip)) == Some(To16(ip))
  {
    var s := IPString(lib, ip);
    match To4(ip)
    case Some(ip4) =>
      DottedText(ip4);
      SeparatorIs(s, '.');
      DottedRoundTrip(ip4);
      To16Canon(ip);
    case None =>
      SeparatorIs(s, ':');
  }

  /** Only a dotted quad or a text with two colons is an address. */
  lemma AddressText(lib: Lib, s: string)
    requires Lawful(lib) && ParseIP(lib, s).Some?
    ensures (exists b: IP :: |b| == 4 && s == Dotted(b) && ParseIP(lib, s) == Some(To16(b))) || IsV6Input(s)
    ensures forall c :: c in s ==> IsV6Char(c) || 'A' <= c <= 'F' || c == '.'
  {
    if Separator(s) == Some('.') {
      var b := ReadDotted(s).value;
      ReadDottedExactly(s, b);
      DottedText(b);
      assert s == Dotted(b);
    }
  }

  /** Text with any other character is no address. */
  lemma NoAddress(lib: Lib, s: string, c: char)
    requires Lawful(lib) && c in s && !IsV6Char(c) && !('A' <= c <= 'F') && c != '.'
    ensures ParseIP(lib, s).None?
  {
    if ParseIP(lib, s).Some? {
      AddressText(lib, s);
    }
  }

  /** Two addresses have the same text exactly when they are the same address. */
  lemma IPStringInjective(lib: Lib, a: IP, b: IP)
    requires Lawful(lib)
    ensures IPString(lib, a) == IPString(lib, b) <==> Canon(a) == Canon(b)
  {
    ParsePrintedIP(lib, a);
    ParsePrintedIP(lib, b);
    To16Canon(a);
    To16Canon(b);
    CanonText(lib, a);
    CanonText(lib, b);
  }

  lemma CanonText(lib: Lib, ip: IP)
    ensures IPString(lib, Canon(ip)) == IPString(lib, ip)
  {
    To16Canon(ip);
  }

  /** The text of an address: no blank, no parenthesis, and it starts without white space. */
  lemma IPTextPlain(lib: Lib, ip: IP)
    requires Lawful(lib)
    ensures IPString(lib, ip) != ""
    ensures forall c :: c in IPString(lib, ip) ==> IsV6Char(c) || c == '.'
  {
    match To4(ip)
    case Some(ip4) => DottedText(ip4);
    case None =>
  }

  // ---------------------------------------------------------------- ranges

  /** A parsed CIDR range: the masked base and the number of leading ones of its mask. */
  datatype IPNet = IPNet(ip: IP, ones: nat)

  /** ^byte(0xff >> n), the partial byte of a mask. */
  function MaskByte(k: nat): byte
    requires k <= 8
  {
    !((0xff as byte) >> k)
  }

  /** Byte i of net.CIDRMask(ones, _). */
  function MaskAt(ones: nat, i: nat): byte {
    if ones >= 8 * i + 8 then 0xff else if ones <= 8 * i then 0 else MaskByte(ones - 8 * i)
  }

  function Masked(ip: IP, ones: nat): IP {
    seq(|ip|, i requires 0 <= i < |ip| => ip[i] & MaskAt(ones, i))
  }

  /** The bytes a and b agree under mask m. */
  predicate SameUnder(a: byte, b: byte, m: byte) {
    a & m == b & m
  }

  /** IPNet.Contains: byte by byte under the mask, in the four-byte form when there is one. */
  predicate NetContains(net: IPNet, ip: IP) {
    var base, x := Canon(net.ip), Canon(ip);
    var skip := |net.ip| - |base|;
    |x| == |base| && forall i :: 0 <= i < |x| ==> SameUnder(base[i], x[i], MaskAt(net.ones, skip + i))
  }

  predicate SomeContains(nets: seq<IPNet>, ip: IP) {
    exists net :: net in nets && NetContains(net, ip)
  }

  /** net.ParseCIDR, keeping the network it returns. */
  function ParseCIDR(lib: Lib, s: string): Option<IPNet> {
    var slash := Index(s, "/");
    if slash < 0 then None
    else
      var addr, bits := s[..slash], s[slash + 1..];
      match Separator(addr)
      case Some(c) =>
        var ip := if c == '.' then ReadDotted(addr) else if c == ':' then lib.readV6(addr) else None;
        if ip.None? then None
        else
          var ones := ParseUint(bits, 8 * |ip.value|);
          if ones.None? then None else Some(IPNet(Masked(ip.value, ones.value), ones.value))
      case None => None
  }

  /** What ParseCIDR can return: the base has nothing below the mask. */
  predicate IsNetwork(net: IPNet) {
    net.ones <= 8 * |net.ip| && Masked(net.ip, net.ones) == net.ip
  }

  lemma MaskTwice(b: byte, m: byte)
    ensures (b & m) & m == b & m
  {
  }

  lemma ParseCIDRIsNetwork(lib: Lib, s: string)
    requires ParseCIDR(lib, s).Some?
    ensures IsNetwork(ParseCIDR(lib, s).value)
  {
    var net := ParseCIDR(lib, s).value;
    forall i | 0 <= i < |net.ip| ensures net.ip[i] & MaskAt(net.ones, i) == net.ip[i] {
      var slash := Index(s, "/");
      var addr := s[..slash];
      var ip := if Separator(addr).value == '.' then ReadDotted(addr).value else lib.readV6(addr).value;
      MaskTwice(ip[i], MaskAt(net.ones, i));
    }
  }

  // ---------------------------------------------------------------- bits

  /** Bit k of a byte, counted from the most significant one. */
  function BitByte(k: nat): byte
    requires k < 8
  {
    (0x80 as byte) >> k
  }

  /** The addresses a and b have the same bit at position i. */
  predicate SameBit(a: seq<byte>, b: seq<byte>, i: nat)
    requires |a| == |b| && i < 8 * |a|
  {
    SameUnder(a[i / 8], b[i / 8], BitByte(i % 8))
  }

  lemma SameUnderXor(a: byte, b: byte, m: byte)
    ensures SameUnder(a, b, m) <==> (a ^ b) & m == 0
  {
  }

  lemma ZeroUnderOr(d: byte, m: byte, n: byte)
    ensures d & (m | n) == 0 <==> d & m == 0 && d & n == 0
  {
  }

  lemma SameUnderOr(a: byte, b: byte, m: byte, n: byte)
    ensures SameUnder(a, b, m | n) <==> SameUnder(a, b, m) && SameUnder(a, b, n)
  {
    SameUnderXor(a, b, m | n);
    SameUnderXor(a, b, m);
    SameUnderXor(a, b, n);
    ZeroUnderOr(a ^ b, m, n);
  }

  lemma MaskGrows(k: nat)
    requires k < 8
    ensures MaskByte(k + 1) == MaskByte(k) | BitByte(k)
  {
    if k == 0 {} else if k == 1 {} else if k == 2 {} else if k == 3 {}
    else if k == 4 {} else if k == 5 {} else if k == 6 {} else {}
  }

  /** A mask of ones in front is a mask one shorter and one more bit. */
  lemma MaskSplits(ones: nat, i: nat)
    requires 8 * i <= ones < 8 * i + 8
    ensures MaskAt(ones + 1, i) == MaskAt(ones, i) | BitByte(ones - 8 * i)
  {
    MaskGrows(ones - 8 * i);
    assert MaskByte(0) == 0;
    assert MaskByte(8) == 0xff;
    assert MaskAt(ones + 1, i) == MaskByte(ones + 1 - 8 * i);
    assert MaskAt(ones, i) == MaskByte(ones - 8 * i);
  }

  predicate SameMasked(a: seq<byte>, b: seq<byte>, ones: nat)
    requires |a| == |b|
  {
    forall i :: 0 <= i < |a| ==> SameUnder(a[i], b[i], MaskAt(ones, i))
  }

  predicate SameBits(a: seq<byte>, b: seq<byte>, ones: nat)
    requires |a| == |b| && ones <= 8 * |a|
  {
    forall i :: 0 <= i < ones ==> SameBit(a, b, i)
  }

  lemma MaskElsewhere(ones: nat, i: nat)
    requires !(8 * i <= ones < 8 * i + 8)
    ensures MaskAt(ones + 1, i) == MaskAt(ones, i)
  {
  }

  /** The engine's byte-wise masked comparison is the trie's bit-wise prefix comparison. */
  lemma {:induction false} MaskedIsPrefix(a: seq<byte>, b: seq<byte>, ones: nat)
    requires |a| == |b| && ones <= 8 * |a|
    ensures SameMasked(a, b, ones) <==> SameBits(a, b, ones)
  {
    if ones == 0 {
      forall i | 0 <= i < |a| ensures SameUnder(a[i], b[i], MaskAt(0, i)) {
        NothingUnderZero(a[i], b[i]);
      }
    } else {
      var k := ones - 1;
      MaskedIsPrefix(a, b, k);
      MaskSplits(k, k / 8);
      SameUnderOr(a[k / 8], b[k / 8], MaskAt(k, k / 8), BitByte(k % 8));
      assert SameUnder(a[k / 8], b[k / 8], MaskAt(ones, k / 8))
        <==> SameUnder(a[k / 8], b[k / 8], MaskAt(k, k / 8)) && SameBit(a, b, k);
      SameMaskedStep(a, b, k);
      assert SameBits(a, b, ones) <==> SameBits(a, b, k) && SameBit(a, b, k);
    }
  }

  lemma NothingUnderZero(a: byte, b: byte)
    ensures SameUnder(a, b, 0)
  {
  }

  lemma SameMaskedStep(a: seq<byte>, b: seq<byte>, k: nat)
    requires |a| == |b| && k < 8 * |a|
    requires SameUnder(a[k / 8], b[k / 8], MaskAt(k + 1, k / 8))
        <==> SameUnder(a[k / 8], b[k / 8], MaskAt(k, k / 8)) && SameBit(a, b, k)
    ensures SameMasked(a, b, k + 1) <==> SameMasked(a, b, k) && SameBit(a, b, k)
  {
    forall i | 0 <= i < |a| && i != k / 8 ensures MaskAt(k + 1, i) == MaskAt(k, i) {
      MaskElsewhere(k, i);
    }
  }
}
