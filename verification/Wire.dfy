/**
 * The bytes that go from the kernel programs to user space: the connect record, and the
 * capture of DNS responses from raw packets.
 */
module Wire {
  import opened Basics
  import opened Net
  import opened Connect

  // ---------------------------------------------------------------- integers

  /** An unsigned integer in width bytes, least significant first. */
  function Little(n: nat, width: nat): (s: seq<octet>)
    ensures |s| == width
  {
    if width == 0 then [] else [n % 256] + Little(n / 256, width - 1)
  }

  function LittleValue(s: seq<octet>): nat {
    if s == [] then 0 else s[0] + 256 * LittleValue(s[1..])
  }

  function Reverse(s: seq<octet>): (r: seq<octet>)
    ensures |r| == |s|
  {
    seq(|s|, i requires 0 <= i < |s| => s[|s| - 1 - i])
  }

  /** The machine's own byte order, which both sides share. */
  function Native(big: bool, n: nat, width: nat): (s: seq<octet>)
    ensures |s| == width
  {
    if big then Reverse(Little(n, width)) else Little(n, width)
  }

  function NativeValue(big: bool, s: seq<octet>): nat {
    LittleValue(if big then Reverse(s) else s)
  }

  function Pow256(width: nat): nat {
    if width == 0 then 1 else 256 * Pow256(width - 1)
  }

  lemma {:induction false} LittleRoundTrip(n: nat, width: nat)
    requires n < Pow256(width)
    ensures LittleValue(Little(n, width)) == n
  {
    if width > 0 {
      LittleRoundTrip(n / 256, width - 1);
      LittleCons(n % 256, Little(n / 256, width - 1));
    }
  }

  lemma LittleCons(low: octet, rest: seq<octet>)
    ensures LittleValue([low] + rest) == low + 256 * LittleValue(rest)
  {
    assert ([low] + rest)[1..] == rest;
  }

  lemma NativeRoundTrip(big: bool, n: nat, width: nat)
    requires n < Pow256(width)
    ensures NativeValue(big, Native(big, n, width)) == n
  {
    LittleRoundTrip(n, width);
    assert Reverse(Reverse(Little(n, width))) == Little(n, width);
  }

  lemma Widths()
    ensures Pow256(2) == 0x1_0000 && Pow256(4) == TWO32 && Pow256(8) == TWO64
  {
    assert Pow256(1) == 256;
    assert Pow256(3) == 0x100_0000;
    assert Pow256(5) == 0x100_0000_0000;
    assert Pow256(6) == 0x1_0000_0000_0000;
    assert Pow256(7) == 0x100_0000_0000_0000;
  }

  // ---------------------------------------------------------------- the connect record

  const RECORD_SIZE: nat := 56

  function Octets(a: seq<byte>): (s: seq<octet>)
    ensures |s| == |a|
  {
    seq(|a|, i requires 0 <= i < |a| => a[i] as nat)
  }

  function FromOctets(s: seq<octet>): (a: seq<byte>)
    ensures |a| == |s|
  {
    seq(|s|, i requires 0 <= i < |s| => s[i] as byte)
  }

  lemma OctetsRoundTrip(a: seq<byte>)
    ensures FromOctets(Octets(a)) == a
  {
    forall i | 0 <= i < |a| ensures FromOctets(Octets(a))[i] == a[i] {
      OctetBack(a[i]);
    }
  }

  lemma OctetBack(b: byte)
    ensures (b as nat) as byte == b
  {
  }

  /** struct event as it lies in the ring: 4 4 2 2 16 16, 4 of padding, 8. */
  function Encode(big: bool, r: Record): (s: seq<octet>)
    ensures |s| == RECORD_SIZE
  {
    Native(big, r.pid, 4) + Native(big, r.tgid, 4) + Native(big, r.dport, 2) + Native(big, r.family, 2)
    + Octets(r.daddr) + r.comm + [0, 0, 0, 0] + Native(big, r.connectNs, 8)
  }

  datatype Captured = Captured(pid: nat, tgid: nat, dport: nat, daddr: IP, comm: seq<octet>)

  /** nullTerminatedString. */
  function UpToNul(b: seq<octet>): (r: seq<octet>)
    ensures r <= b && 0 !in r
    ensures r == b || b[|r|] == 0
  {
    if b == [] || b[0] == 0 then [] else [b[0]] + UpToNul(b[1..])
  }

  /** parseEvent: None when the record is too short. */
  function ParseEvent(big: bool, data: seq<octet>): Option<Captured> {
    if |data| < RECORD_SIZE then None
    else
      var family := NativeValue(big, data[10..12]);
      var daddr: IP := FromOctets(if family == AF_INET6 then data[12..28] else data[12..16]);
      Some(Captured(NativeValue(big, data[0..4]), NativeValue(big, data[4..8]), NativeValue(big, data[8..10]),
                    daddr, UpToNul(data[28..44])))
  }

  lemma EncodeSlices(big: bool, r: Record, extra: seq<octet>)
    ensures var d := Encode(big, r) + extra;
            && d[0..4] == Native(big, r.pid, 4) && d[4..8] == Native(big, r.tgid, 4)
            && d[8..10] == Native(big, r.dport, 2) && d[10..12] == Native(big, r.family, 2)
            && d[12..28] == Octets(r.daddr) && d[28..44] == r.comm && d[12..16] == Octets(r.daddr[..4])
  {
  }

  /** Decoding a record gives its fields; the name ends at its first NUL. */
  lemma ParseEncoded(big: bool, r: Record, extra: seq<octet>)
    requires r.pid < TWO32 && r.tgid < TWO32
    ensures ParseEvent(big, Encode(big, r) + extra)
         == Some(Captured(r.pid, r.tgid, r.dport,
                          if r.family == AF_INET6 then r.daddr else r.daddr[..4], UpToNul(r.comm)))
  {
    EncodeSlices(big, r, extra);
    Widths();
    NativeRoundTrip(big, r.pid, 4);
    NativeRoundTrip(big, r.tgid, 4);
    NativeRoundTrip(big, r.dport, 2);
    NativeRoundTrip(big, r.family, 2);
    OctetsRoundTrip(r.daddr);
    OctetsRoundTrip(r.daddr[..4]);
  }

  /** A record is decoded exactly when it has all of its 56 bytes. */
  lemma DecodedExactly(big: bool, data: seq<octet>)
    ensures ParseEvent(big, data).Some? <==> |data| >= 56
  {
  }

  /** The address and port a connect call named. */
  function AddressOf(sa: Sockaddr): IP
    requires sa.Inet? || sa.Inet6?
  {
    if sa.Inet? then sa.addr4 else sa.addr16
  }

  /** The elapsed time is the one 64-bit number that takes the first clock reading to the second. */
  lemma ElapsedExactly(from: uint64, to: uint64, d: uint64)
    ensures d == Elapsed(from, to) <==> (from + d) % TWO64 == to
    ensures from <= to ==> Elapsed(from, to) == to - from
  {
  }

  lemma IdsFit(tid: uint64)
    ensures tid % TWO32 < TWO32 && tid / TWO32 < TWO32
  {
  }

  /** What the record of an enter that left an entry holds. */
  lemma RecordFields(e: Step, now: uint64, r: Record)
    requires Records(e) && r == RecordOf(PendingOf(e.tid, e.now, e.sa, e.comm).value, now)
    ensures e.sa.Inet? || e.sa.Inet6?
    ensures r.pid == e.tid % TWO32 && r.tgid == e.tid / TWO32 && r.dport == e.sa.port && r.comm == e.comm
    ensures (if r.family == AF_INET6 then r.daddr else r.daddr[..4]) == AddressOf(e.sa)
    ensures r.connectNs == Elapsed(e.now, now)
  {
    if e.sa.Inet? {
      assert (e.sa.addr4 + ZEROS12)[..4] == e.sa.addr4;
    }
  }

  /**
   * From the call to the event: what user space reads for an emitted record is the address,
   * port, ids and name of the enter it belongs to.
   */
  lemma CallToEvent(big: bool, steps: seq<Step>, i: nat, j: nat, r: Record)
    requires Emitted(steps, i, j, r)
    ensures var e := steps[i];
            && (e.sa.Inet? || e.sa.Inet6?)
            && ParseEvent(big, Encode(big, r))
               == Some(Captured(e.tid % TWO32, e.tid / TWO32, e.sa.port, AddressOf(e.sa), UpToNul(e.comm)))
            && (e.now + r.connectNs) % TWO64 == steps[j].now
            && (e.now <= steps[j].now ==> r.connectNs == steps[j].now - e.now)
  {
    RecordFields(steps[i], steps[j].now, r);
    IdsFit(steps[i].tid);
    ElapsedExactly(steps[i].now, steps[j].now, r.connectNs);
    ParseEncoded(big, r, []);
    assert Encode(big, r) + [] == Encode(big, r);
  }

  // ---------------------------------------------------------------- DNS capture

  const ETH_HLEN: nat := 14
  const DNS_MAX_LEN: nat := 512

  /** bpf_skb_load_bytes, for a load inside the packet. */
  predicate CanLoad(skb: seq<octet>, offset: nat, len: nat) {
    offset + len <= |skb|
  }

  /** One byte of the packet; a load that fails leaves the zero it was given. */
  function Load1(skb: seq<octet>, offset: nat): nat {
    if CanLoad(skb, offset, 1) then skb[offset] else 0
  }

  /** Two bytes in network order. */
  function Load2(skb: seq<octet>, offset: nat): nat {
    if CanLoad(skb, offset, 2) then
      var hi: nat, lo: nat := skb[offset], skb[offset + 1];
      256 * hi + lo
    else 0
  }

  datatype DnsEvent = DnsEvent(len: nat, saddr: seq<octet>, payload: seq<octet>)

  function Zeros(n: nat): (s: seq<octet>)
    ensures |s| == n
  {
    seq(n, _ => 0)
  }

  /** capture_dns; full says that the ring has no room. */
  method CaptureDns(skb: seq<octet>, full: bool) returns (ev: Option<DnsEvent>)
    ensures ev == Capture(skb, full)
  {
    ev := None;
    if |skb| < ETH_HLEN + 20 + 8 {
      return;
    }
    if Load1(skb, ETH_HLEN + 9) != 17 {
      return;
    }
    var ihl := (Load1(skb, ETH_HLEN) % 16) * 4;
    if ihl < 20 || ihl > 60 {
      return;
    }
    if Load2(skb, ETH_HLEN + ihl) != 53 {
      return;
    }
    var dnsLen := Load2(skb, ETH_HLEN + ihl + 4);
    if dnsLen <= 8 {
      return;
    }
    dnsLen := dnsLen - 8;
    dnsLen := dnsLen % DNS_MAX_LEN;
    if dnsLen == 0 || full {
      return;
    }
    var payload := Zeros(DNS_MAX_LEN);
    var offset := ETH_HLEN + ihl + 8;
    if !CanLoad(skb, offset, dnsLen) {
      return;
    }
    assert payload[dnsLen..] == Zeros(DNS_MAX_LEN - dnsLen);
    payload := skb[offset..offset + dnsLen] + payload[dnsLen..];
    ev := Some(DnsEvent(dnsLen, skb[ETH_HLEN + 12..ETH_HLEN + 16], payload));
  }

  /** The header length in bytes a packet claims. */
  function HeaderLen(skb: seq<octet>): nat {
    (Load1(skb, ETH_HLEN) % 16) * 4
  }

  /** A UDP packet from port 53 as far as the program checks it. */
  predicate IsDnsPacket(skb: seq<octet>) {
    && |skb| >= ETH_HLEN + 20 + 8 && Load1(skb, ETH_HLEN + 9) == 17
    && 20 <= HeaderLen(skb) <= 60 && Load2(skb, ETH_HLEN + HeaderLen(skb)) == 53
  }

  /** What is captured of a packet: the length is what the UDP header says, modulo 512. */
  function Capture(skb: seq<octet>, full: bool): Option<DnsEvent> {
    var h := HeaderLen(skb);
    var udp := Load2(skb, ETH_HLEN + h + 4);
    var offset := ETH_HLEN + h + 8;
    if !IsDnsPacket(skb) || udp <= 8 || full then None
    else
      var len := (udp - 8) % DNS_MAX_LEN;
      if len == 0 || !CanLoad(skb, offset, len) then None
      else Some(DnsEvent(len, skb[ETH_HLEN + 12..ETH_HLEN + 16], skb[offset..offset + len] + Zeros(DNS_MAX_LEN - len)))
  }

  /**
   * What is captured, in the bytes of an Ethernet frame: only what has room for all three
   * headers, is UDP, comes from port 53 behind a header of 20 to 60 bytes, says it has a
   * payload, and holds as much of it as its length modulo 512.
   */
  lemma CapturedExactly(skb: seq<octet>, full: bool)
    ensures Capture(skb, full).Some? <==>
              && !full && |skb| >= 42 && skb[23] == 17
              && var h := 4 * (skb[14] % 16);
                 && 20 <= h <= 60 && |skb| > 19 + h && skb[14 + h] == 0 && skb[15 + h] == 53
                 && var n := 256 * (skb[18 + h] as int) + skb[19 + h] as int - 8;
                    n > 0 && n % 512 != 0 && |skb| >= 22 + h + n % 512
    ensures Capture(skb, full).Some? ==>
              var h := 4 * (skb[14] % 16);
              var ev := Capture(skb, full).value;
              && ev.len == (256 * (skb[18 + h] as int) + skb[19 + h] as int - 8) % 512
              && ev.saddr == skb[26..30] && |ev.payload| == 512
              && ev.payload[..ev.len] == skb[22 + h..22 + h + ev.len]
              && forall i :: ev.len <= i < 512 ==> ev.payload[i] == 0
  {
    assert |skb| >= 42 ==> HeaderLen(skb) == 4 * (skb[14] % 16);
  }

  function EncodeDns(big: bool, ev: DnsEvent): seq<octet> {
    Native(big, ev.len, 4) + ev.saddr + ev.payload
  }

  /** What run takes from a record: the source and the payload, or nothing. */
  function DecodeDns(big: bool, data: seq<octet>): Option<(seq<octet>, seq<octet>)> {
    if |data| < 8 then None
    else
      var length := NativeValue(big, data[..4]);
      if length == 0 || length > |data| - 8 then None else Some((data[4..8], data[8..8 + length]))
  }

  /** A complete packet: Ethernet, an IPv4 header of h bytes, a UDP header, the payload. */
  ghost predicate IsComplete(skb: seq<octet>, h: nat, src: seq<octet>, payload: seq<octet>) {
    && IsDnsPacket(skb) && h == HeaderLen(skb) && |src| == 4 && |payload| + 8 < 0x1_0000
    && skb[ETH_HLEN + 12..ETH_HLEN + 16] == src
    && Load2(skb, ETH_HLEN + h + 4) == |payload| + 8
    && |skb| >= ETH_HLEN + h + 8 + |payload| && skb[ETH_HLEN + h + 8..ETH_HLEN + h + 8 + |payload|] == payload
  }

  /** An IPv4 header without options, a UDP header from port 53, and the payload. */
  function Packet(src: seq<octet>, payload: seq<octet>): seq<octet>
    requires |src| == 4 && |payload| + 8 < 0x1_0000
  {
    var udp := |payload| + 8;
    Zeros(14) + ([0x45, 0, 0, 0, 0, 0, 0, 0, 0, 17, 0, 0] + src + Zeros(4))
    + [0, 53, 0, 0, udp / 256, udp % 256, 0, 0] + payload
  }

  /** Every payload has a complete packet, those that are not handed over among them. */
  lemma PacketIsComplete(src: seq<octet>, payload: seq<octet>)
    requires |src| == 4 && |payload| + 8 < 0x1_0000
    ensures IsComplete(Packet(src, payload), 20, src, payload)
  {
    var skb := Packet(src, payload);
    PacketBytes(src, payload);
    assert Load1(skb, 14) % 16 == 5;
    assert Load2(skb, 34) == 53 && Load2(skb, 38) == |payload| + 8;
  }

  lemma PacketBytes(src: seq<octet>, payload: seq<octet>)
    requires |src| == 4 && |payload| + 8 < 0x1_0000
    ensures var skb := Packet(src, payload);
            && |skb| == 42 + |payload| && skb[14] == 0x45 && skb[23] == 17 && skb[34] == 0 && skb[35] == 53
            && skb[38] == (|payload| + 8) / 256 && skb[39] == (|payload| + 8) % 256
            && skb[26..30] == src && skb[42..42 + |payload|] == payload
  {
  }

  /** The packet with the largest payload that RFC 1035 allows is dropped. */
  lemma LargestPayloadExample(src: seq<octet>)
    requires |src| == 4
    ensures var skb := Packet(src, Zeros(512));
            IsComplete(skb, 20, src, Zeros(512)) && Capture(skb, false).None?
  {
    PacketIsComplete(src, Zeros(512));
    CaptureExactly(false, Packet(src, Zeros(512)), 20, src, Zeros(512));
  }

  /** A complete packet is captured up to its length modulo 512. */
  lemma CaptureComplete(skb: seq<octet>, h: nat, src: seq<octet>, payload: seq<octet>)
    requires IsComplete(skb, h, src, payload)
    ensures var n := |payload| % DNS_MAX_LEN;
            Capture(skb, false)
            == if n == 0 then None else Some(DnsEvent(n, src, payload[..n] + Zeros(DNS_MAX_LEN - n)))
  {
    var n, offset := |payload| % DNS_MAX_LEN, ETH_HLEN + h + 8;
    assert skb[offset..offset + |payload|][..n] == skb[offset..offset + n];
  }

  /**
   * The hand-over of a response that gets a ring slot is lossless exactly when its payload has
   * 1 to 511 bytes. RFC 1035, section 4.2.1, allows 512 without the headers; that one is
   * masked to 0 and dropped.
   */
  lemma CaptureExactly(big: bool, skb: seq<octet>, h: nat, src: seq<octet>, payload: seq<octet>)
    requires IsComplete(skb, h, src, payload)
    ensures var ev := Capture(skb, false);
            (ev.Some? && DecodeDns(big, EncodeDns(big, ev.value)) == Some((src, payload))) <==> 1 <= |payload| <= 511
    ensures |payload| == 512 ==> Capture(skb, false).None?
  {
    CaptureComplete(skb, h, src, payload);
    LosslessExactly(big, src, payload, Capture(skb, false));
  }

  /** A record is taken exactly when its length is not 0 and within what was handed over. */
  lemma TakenExactly(big: bool, len: nat, saddr: seq<octet>, rest: seq<octet>)
    requires len < TWO32 && |saddr| == 4
    ensures DecodeDns(big, Native(big, len, 4) + saddr + rest)
         == if len == 0 || len > |rest| then None else Some((saddr, rest[..len]))
  {
    var d := Native(big, len, 4) + saddr + rest;
    Widths();
    NativeRoundTrip(big, len, 4);
    assert d[..4] == Native(big, len, 4) && d[4..8] == saddr;
    assert len <= |rest| ==> d[8..8 + len] == rest[..len];
  }

  lemma LosslessExactly(big: bool, src: seq<octet>, payload: seq<octet>, c: Option<DnsEvent>)
    requires |src| == 4
    requires var n := |payload| % DNS_MAX_LEN;
             c == if n == 0 then None else Some(DnsEvent(n, src, payload[..n] + Zeros(DNS_MAX_LEN - n)))
    ensures (c.Some? && DecodeDns(big, EncodeDns(big, c.value)) == Some((src, payload))) <==> 1 <= |payload| <= 511
  {
    var n := |payload| % DNS_MAX_LEN;
    if n > 0 {
      DecodeCaptured(big, c.value);
      assert c.value.payload[..n] == payload[..n];
      assert |payload| == n ==> payload[..n] == payload;
    }
  }

  lemma DecodeCaptured(big: bool, ev: DnsEvent)
    requires |ev.saddr| == 4 && |ev.payload| == DNS_MAX_LEN && 0 < ev.len < DNS_MAX_LEN
    ensures DecodeDns(big, EncodeDns(big, ev)) == Some((ev.saddr, ev.payload[..ev.len]))
  {
    var d := EncodeDns(big, ev);
    Widths();
    NativeRoundTrip(big, ev.len, 4);
    assert d[..4] == Native(big, ev.len, 4);
    assert d[4..8] == ev.saddr;
    assert d[8..8 + ev.len] == ev.payload[..ev.len];
  }
}
