/**
 * A library that keeps the contract Net.Lawful asks for: ASCII printing, and IPv6 addresses
 * written as eight full groups. The contract can therefore be met.
 */
module PlainLib {
  import opened Basics
  import opened Net
  import opened Policy
  import opened ReportSoundness

  function Nibble(n: nat): char
    requires n < 16
  {
    if n < 10 then ('0' as int + n) as char else ('a' as int + n - 10) as char
  }

  function NibbleValue(c: char): Option<nat> {
    if '0' <= c <= '9' then Some(c as int - '0' as int)
    else if 'a' <= c <= 'f' then Some(c as int - 'a' as int + 10)
    else None
  }

  /** Nibble k of an address. */
  function NibbleAt(b: seq<byte>, k: nat): (n: nat)
    requires k < 2 * |b|
    ensures n < 16
  {
    if k % 2 == 0 then b[k / 2] as nat / 16 else b[k / 2] as nat % 16
  }

  /** Where nibble k stands in the text. */
  function Place(k: nat): nat {
    k + k / 4
  }

  function Show(b: seq<byte>): string {
    if |b| != 16 then ""
    else seq(39, i requires 0 <= i < 39 => if i % 5 == 4 then ':' else Nibble(NibbleAt(b, i - i / 5)))
  }

  /** Eight groups of four hexadecimal digits. */
  predicate IsFull(s: string) {
    && |s| == 39
    && (forall k :: 0 <= k < 32 ==> NibbleValue(s[Place(k)]).Some?)
    && forall i :: 0 <= i < 39 ==> if i % 5 == 4 then s[i] == ':' else NibbleValue(s[i]).Some?
  }

  function Read(s: string): Option<IP> {
    if IsFull(s) then
      Some(seq(16, j requires 0 <= j < 16 => ByteAt(s, j)))
    else None
  }

  function ByteAt(s: string, j: nat): byte
    requires |s| == 39 && j < 16 && forall k :: 0 <= k < 32 ==> NibbleValue(s[Place(k)]).Some?
  {
    var hi, lo := NibbleValue(s[Place(2 * j)]).value, NibbleValue(s[Place(2 * j + 1)]).value;
    if 16 * hi + lo < 256 then (16 * hi + lo) as byte else 0
  }

  const PLAIN := Lib(c => ' ' <= c <= '~', Show, Read)

  lemma NibbleRoundTrip(n: nat)
    requires n < 16
    ensures NibbleValue(Nibble(n)) == Some(n) && IsV6Char(Nibble(n)) && Nibble(n) != ':'
  {
  }

  lemma PlaceBack(k: nat)
    requires k < 32
    ensures Place(k) < 39 && Place(k) % 5 != 4 && Place(k) - Place(k) / 5 == k
  {
  }

  lemma ShownNibble(b: IP, k: nat)
    requires |b| == 16 && k < 32
    ensures |Show(b)| == 39 && Place(k) < 39 && NibbleValue(Show(b)[Place(k)]) == Some(NibbleAt(b, k))
  {
    PlaceBack(k);
    NibbleRoundTrip(NibbleAt(b, k));
  }

  lemma ByteOfNibbles(x: byte)
    ensures 16 * (x as nat / 16) + x as nat % 16 == x as nat
    ensures (16 * (x as nat / 16) + x as nat % 16) as byte == x
  {
  }

  lemma ShownNibbles(b: IP)
    requires |b| == 16
    ensures |Show(b)| == 39
    ensures forall k :: 0 <= k < 32 ==> NibbleValue(Show(b)[Place(k)]) == Some(NibbleAt(b, k))
  {
    forall k | 0 <= k < 32 ensures NibbleValue(Show(b)[Place(k)]) == Some(NibbleAt(b, k)) {
      ShownNibble(b, k);
    }
  }

  lemma ByteShown(b: IP, j: nat)
    requires |b| == 16 && j < 16
    requires |Show(b)| == 39 && forall k :: 0 <= k < 32 ==> NibbleValue(Show(b)[Place(k)]).Some?
    ensures ByteAt(Show(b), j) == b[j]
  {
    ShownNibble(b, 2 * j);
    ShownNibble(b, 2 * j + 1);
    NibblesOf(b, j);
    ByteOfNibbles(b[j]);
  }

  lemma NibblesOf(b: IP, j: nat)
    requires |b| == 16 && j < 16
    ensures NibbleAt(b, 2 * j) == b[j] as nat / 16 && NibbleAt(b, 2 * j + 1) == b[j] as nat % 16
  {
    assert 2 * j / 2 == j && (2 * j + 1) / 2 == j;
  }

  lemma ShowIsFull(b: IP)
    requires |b| == 16
    ensures IsFull(Show(b))
  {
    ShownNibbles(b);
    forall i | 0 <= i < 39 && i % 5 != 4 ensures NibbleValue(Show(b)[i]).Some? {
      NibbleRoundTrip(NibbleAt(b, i - i / 5));
    }
  }

  lemma ReadShow(b: IP)
    requires |b| == 16
    ensures Read(Show(b)) == Some(b)
  {
    ShowIsFull(b);
    forall j | 0 <= j < 16 ensures ByteAt(Show(b), j) == b[j] {
      ByteShown(b, j);
    }
    SameBytes(Read(Show(b)).value, b);
  }

  lemma SameBytes(a: IP, b: IP)
    requires |a| == |b| && forall j :: 0 <= j < |a| ==> a[j] == b[j]
    ensures a == b
  {
  }

  lemma ShowIsText(b: IP)
    requires |b| == 16
    ensures IsV6Text(Show(b)) && |Show(b)| == 39
  {
    assert Show(b)[4] == ':';
    forall i | 0 <= i < 39 ensures IsV6Char(Show(b)[i]) {
      if i % 5 != 4 {
        NibbleRoundTrip(NibbleAt(b, i - i / 5));
      }
    }
  }

  lemma FullIsInput(s: string)
    requires IsFull(s)
    ensures IsV6Input(s)
  {
    assert s[4] == ':' && s[9] == ':';
    forall c | c in s ensures IsV6Char(c) || 'A' <= c <= 'F' || c == '.' {
      var i :| 0 <= i < 39 && s[i] == c;
    }
  }

  /** The contract of the library can be met. */
  lemma PlainIsLawful()
    ensures Lawful(PLAIN)
  {
    forall s | PLAIN.readV6(s).Some? ensures IsV6Input(s) {
      FullIsInput(s);
    }
    forall b: IP | |b| == 16 && !IsMapped(b)
      ensures IsV6Text(PLAIN.showV6(b)) && |PLAIN.showV6(b)| <= 39 && PLAIN.readV6(PLAIN.showV6(b)) == Some(b)
    {
      ReadShow(b);
      ShowIsText(b);
    }
  }

  /** PLAIN, but with one IPv4-mapped address also read in its compressed form. */
  const COMPRESSED := PLAIN.(readV6 := s => if s == MAPPED_TEXT then Some(MAPPED_BASE) else Read(s))

  /** Such a library loads the mapped range, so the policies with one are not an empty case. */
  lemma MappedRangeCanBeLoaded()
    ensures Lawful(COMPRESSED)
    ensures Classify(COMPRESSED, MAPPED_TEXT + "/" + "104") == Ok(Range(MAPPED_RANGE))
  {
    PlainIsLawful();
    forall b: IP | |b| == 16 && !IsMapped(b)
      ensures COMPRESSED.readV6(COMPRESSED.showV6(b)) == Some(b)
    {
      assert |PLAIN.showV6(b)| == 39 && |MAPPED_TEXT| == 15;
      ReadShow(b);
    }
    assert MAPPED_TEXT[0] == ':' && MAPPED_TEXT[1] == ':';
    assert IsV6Input(MAPPED_TEXT);
    MappedRangeEntry(COMPRESSED);
  }
}
