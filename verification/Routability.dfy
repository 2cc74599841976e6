/** Which addresses may be dialled (src/dest.rs): prefix tests, the classification of IPv4 and IPv6
    addresses, and the IPv4 addresses embedded in IPv6 ones. */
module Routability {
  import opened Addresses
  import opened Bits
  import opened Wrappers

  // ------------------------------------------------------------ prefix tests

  predicate Ipv4In(ip: u32, prefix: u32, bits: u8)
    requires bits <= 32
  {
    bits == 0 || (var mask := Shl(Pow2(32) - 1, 32 - bits, 32); And(ip, mask) == And(prefix, mask))
  }

  predicate Ipv6In(ip: u128, prefix: u128, bits: u8)
    requires bits <= 128
  {
    bits == 0 || (var mask := Shl(Pow2(128) - 1, 128 - bits, 128); And(ip, mask) == And(prefix, mask))
  }

  predicate InBlockOf(ip: nat, prefix: nat, size: nat)
    requires size > 0
  {
    prefix - prefix % size <= ip < prefix - prefix % size + size
  }

  lemma Ipv4InIsInterval(ip: u32, prefix: u32, bits: u8)
    requires bits <= 32
    ensures Ipv4In(ip, prefix, bits) <==> InBlockOf(ip, prefix, Pow2(32 - bits))
  {
    Widths();
    if bits == 0 {
      ModUnique(prefix, 0, prefix, Pow2(32));
    } else {
      MaskIsInterval(ip, prefix, 32, bits);
    }
  }

  lemma Ipv6InIsInterval(ip: u128, prefix: u128, bits: u8)
    requires bits <= 128
    ensures Ipv6In(ip, prefix, bits) <==> InBlockOf(ip, prefix, Pow2(128 - bits))
  {
    Widths();
    if bits == 0 {
      ModUnique(prefix, 0, prefix, Pow2(128));
    } else {
      MaskIsInterval(ip, prefix, 128, bits);
    }
  }

  // ------------------------------------------------------------ IPv4

  function Octet(a: u32, i: nat): u8
    requires i < 4
  {
    match i
    case 0 => a / 0x100_0000
    case 1 => a / 0x1_0000 % 0x100
    case 2 => a / 0x100 % 0x100
    case _ => a % 0x100
  }

  function FromOctets(o0: u8, o1: u8, o2: u8, o3: u8): u32 {
    o0 * 0x100_0000 + o1 * 0x1_0000 + o2 * 0x100 + o3
  }

  /** The standard library's tests that `is_global_v4` starts with. */
  predicate StdSpecialV4(a: u32) {
    var o0, o1, o2 := Octet(a, 0), Octet(a, 1), Octet(a, 2);
    || a == 0
    || o0 == 127
    || o0 == 10 || (o0 == 172 && 16 <= o1 <= 31) || (o0 == 192 && o1 == 168)
    || (o0 == 169 && o1 == 254)
    || a == 0xffff_ffff
    || (o0 == 192 && o1 == 0 && o2 == 2) || (o0 == 198 && o1 == 51 && o2 == 100)
    || (o0 == 203 && o1 == 0 && o2 == 113)
    || 224 <= o0 <= 239
  }

  predicate IsGlobalV4(a: u32) {
    && !StdSpecialV4(a)
    && !Ipv4In(a, 0x0000_0000, 8)   // 0.0.0.0
    && !Ipv4In(a, 0x6440_0000, 10)  // 100.64.0.0
    && !Ipv4In(a, 0xc000_0000, 24)  // 192.0.0.0
    && !Ipv4In(a, 0xc612_0000, 15)  // 198.18.0.0
    && !Ipv4In(a, 0xf000_0000, 4)   // 240.0.0.0
  }

  /** The addresses that are not dialled, as a union of integer intervals. */
  predicate ReservedV4(a: u32) {
    || a < 0x0100_0000
    || 0x0a00_0000 <= a < 0x0b00_0000
    || 0x6440_0000 <= a < 0x6480_0000
    || 0x7f00_0000 <= a < 0x8000_0000
    || 0xa9fe_0000 <= a < 0xa9ff_0000
    || 0xac10_0000 <= a < 0xac20_0000
    || 0xc000_0000 <= a < 0xc000_0100
    || 0xc000_0200 <= a < 0xc000_0300
    || 0xc0a8_0000 <= a < 0xc0a9_0000
    || 0xc612_0000 <= a < 0xc614_0000
    || 0xc633_6400 <= a < 0xc633_6500
    || 0xcb00_7100 <= a < 0xcb00_7200
    || 0xe000_0000 <= a
  }

  /** An address is the sum of its octets. */
  lemma OctetsSum(a: u32)
    ensures a == Octet(a, 0) * 0x100_0000 + Octet(a, 1) * 0x1_0000 + Octet(a, 2) * 0x100 + Octet(a, 3)
  {
    var q1 := a / 0x100;
    var q2 := q1 / 0x100;
    assert a == q1 * 0x100 + a % 0x100;
    assert q1 == q2 * 0x100 + q1 % 0x100;
    assert q2 == q2 / 0x100 * 0x100 + q2 % 0x100;
    DivTwice(a);
  }

  lemma DivTwice(a: u32)
    ensures a / 0x100 / 0x100 == a / 0x1_0000 && a / 0x1_0000 / 0x100 == a / 0x100_0000
  {
  }

  lemma StdSpecialV4Ranges(a: u32)
    ensures StdSpecialV4(a)
            <==> || a == 0 || a == 0xffff_ffff
                 || 0x7f00_0000 <= a < 0x8000_0000
                 || 0x0a00_0000 <= a < 0x0b00_0000 || 0xac10_0000 <= a < 0xac20_0000
                 || 0xc0a8_0000 <= a < 0xc0a9_0000 || 0xa9fe_0000 <= a < 0xa9ff_0000
                 || 0xc000_0200 <= a < 0xc000_0300 || 0xc633_6400 <= a < 0xc633_6500
                 || 0xcb00_7100 <= a < 0xcb00_7200 || 0xe000_0000 <= a < 0xf000_0000
  {
    OctetsSum(a);
    hide Octet;
    OctetRanges(a, Octet(a, 0), Octet(a, 1), Octet(a, 2), Octet(a, 3));
  }

  lemma OctetRanges(a: int, o0: u8, o1: u8, o2: u8, o3: u8)
    requires a == o0 * 0x100_0000 + o1 * 0x1_0000 + o2 * 0x100 + o3
    ensures o0 == 127 <==> 0x7f00_0000 <= a < 0x8000_0000
    ensures o0 == 10 <==> 0x0a00_0000 <= a < 0x0b00_0000
    ensures 224 <= o0 <= 239 <==> 0xe000_0000 <= a < 0xf000_0000
    ensures o0 == 172 && 16 <= o1 <= 31 <==> 0xac10_0000 <= a < 0xac20_0000
    ensures o0 == 192 && o1 == 168 <==> 0xc0a8_0000 <= a < 0xc0a9_0000
    ensures o0 == 169 && o1 == 254 <==> 0xa9fe_0000 <= a < 0xa9ff_0000
    ensures o0 == 192 && o1 == 0 && o2 == 2 <==> 0xc000_0200 <= a < 0xc000_0300
    ensures o0 == 198 && o1 == 51 && o2 == 100 <==> 0xc633_6400 <= a < 0xc633_6500
    ensures o0 == 203 && o1 == 0 && o2 == 113 <==> 0xcb00_7100 <= a < 0xcb00_7200
  {
  }

  lemma IsGlobalV4IsComplement(a: u32)
    ensures IsGlobalV4(a) <==> !ReservedV4(a)
  {
    StdSpecialV4Ranges(a);
    SmallPowers();
    hide Pow2, Ipv4In, StdSpecialV4;
    AlignedV4(a, 0x0000_0000, 8, 0x100_0000);
    AlignedV4(a, 0x6440_0000, 10, 0x40_0000);
    AlignedV4(a, 0xc000_0000, 24, 0x100);
    AlignedV4(a, 0xc612_0000, 15, 0x2_0000);
    AlignedV4(a, 0xf000_0000, 4, 0x1000_0000);
  }

  lemma SmallPowers()
    ensures Pow2(8) == 0x100 && Pow2(16) == 0x1_0000 && Pow2(17) == 0x2_0000
    ensures Pow2(22) == 0x40_0000 && Pow2(24) == 0x100_0000 && Pow2(28) == 0x1000_0000
  {
    assert Pow2(8) == 0x100;
    Pow2Sum(8, 8);
    Pow2Sum(16, 1);
    Pow2Sum(16, 6);
    Pow2Sum(16, 8);
    Pow2Sum(24, 4);
  }

  lemma AlignedV4(a: u32, prefix: u32, bits: u8, size: nat)
    requires bits <= 32 && size == Pow2(32 - bits) && prefix % size == 0
    ensures Ipv4In(a, prefix, bits) <==> prefix <= a < prefix + size
  {
    Ipv4InIsInterval(a, prefix, bits);
  }

  // ------------------------------------------------------------ IPv6

  /** `x >> 16 * k`. */
  function DropSegments(x: u128, k: nat): u128 {
    if k == 0 then x else DropSegments(x, k - 1) / 0x1_0000
  }

  function Segment(x: u128, i: nat): u16
    requires i < 8
  {
    DropSegments(x, 7 - i) % 0x1_0000
  }

  function FromSegments(hi: u16, lo: u16): u32 {
    FromOctets(hi / 0x100, hi % 0x100, lo / 0x100, lo % 0x100)
  }

  function EmbeddedIpv4(x: u128): Option<u32> {
    if ToMapped(x).Some? then ToMapped(x)
    else if SixZeroSegments(x) then Some(FromSegments(Segment(x, 6), Segment(x, 7)))
    else if Nat64Segments(x) then Some(FromSegments(Segment(x, 6), Segment(x, 7)))
    else if Segment(x, 0) == 0x2002 then Some(FromSegments(Segment(x, 1), Segment(x, 2)))
    else None
  }

  /** The standard library's tests on an address that embeds no IPv4 one. */
  predicate StdSpecialV6(x: u128) {
    || x == 0 || x == 1
    || Segment(x, 0) / 0x100 == 0xff
    || 0xfe80 <= Segment(x, 0) < 0xfec0
    || 0xfc00 <= Segment(x, 0) < 0xfe00
  }

  predicate IsGlobalV6(x: u128) {
    match EmbeddedIpv4(x)
    case Some(a) => IsGlobalV4(a)
    case None =>
      && !StdSpecialV6(x)
      && !Ipv6In(x, 0x20010000_00000000_00000000_00000000, 23)
      && !Ipv6In(x, 0x20010db8_00000000_00000000_00000000, 32)
      && !Ipv6In(x, 0x01000000_00000000_00000000_00000000, 64)
      && !Ipv6In(x, 0x0064ff9b_00010000_00000000_00000000, 48)
  }

  predicate IsGlobalUnicast(ip: IpAddr) {
    match ip
    case V4(a) => IsGlobalV4(a)
    case V6(b) => IsGlobalV6(b)
  }

  function MappedForm(a: u32): u128 { 0xffff_00000000 + a }

  function CompatibleForm(a: u32): u128 { a }

  function Nat64Form(a: u32): u128 { 0x0064ff9b_00000000_00000000_00000000 + a }

  type u80 = n: nat | n < 0x1_0000_00000000_00000000

  function SixToFourForm(a: u32, suffix: u80): u128 {
    0x20020000_00000000_00000000_00000000 + a * 0x1_0000_00000000_00000000 + suffix
  }

  /** The segments are the base-65536 digits of the address. */
  lemma SegmentsSum(x: u128)
    ensures x == Segment(x, 0) * 0x1_0000_00000000_00000000_00000000
              + Segment(x, 1) * 0x1_00000000_00000000_00000000
              + Segment(x, 2) * 0x1_0000_00000000_00000000
              + Segment(x, 3) * 0x1_00000000_00000000
              + Segment(x, 4) * 0x1_0000_00000000
              + Segment(x, 5) * 0x1_00000000
              + Segment(x, 6) * 0x1_0000
              + Segment(x, 7)
  {
    var d1, d2, d3 := DropSegments(x, 1), DropSegments(x, 2), DropSegments(x, 3);
    var d4, d5, d6 := DropSegments(x, 4), DropSegments(x, 5), DropSegments(x, 6);
    var d7 := DropSegments(x, 7);
    assert x == d1 * 0x1_0000 + Segment(x, 7);
    assert d1 == d2 * 0x1_0000 + Segment(x, 6);
    assert d2 == d3 * 0x1_0000 + Segment(x, 5);
    assert d3 == d4 * 0x1_0000 + Segment(x, 4);
    assert d4 == d5 * 0x1_0000 + Segment(x, 3);
    assert d5 == d6 * 0x1_0000 + Segment(x, 2);
    assert d6 == d7 * 0x1_0000 + Segment(x, 1);
    assert d7 == Segment(x, 0) by { assert d7 < 0x1_0000; }
  }

  /** The upper 96 bits and the low 32, in terms of segments. */
  lemma LowWord(x: u128)
    ensures FromSegments(Segment(x, 6), Segment(x, 7)) == x % 0x1_0000_0000
    ensures x / 0x1_0000_0000
            == Segment(x, 0) * 0x1_0000_00000000_00000000 + Segment(x, 1) * 0x1_00000000_00000000
               + Segment(x, 2) * 0x1_0000_00000000 + Segment(x, 3) * 0x1_00000000
               + Segment(x, 4) * 0x1_0000 + Segment(x, 5)
  {
    SegmentsSum(x);
    ModUnique(x,
              Segment(x, 0) * 0x1_0000_00000000_00000000 + Segment(x, 1) * 0x1_00000000_00000000
              + Segment(x, 2) * 0x1_0000_00000000 + Segment(x, 3) * 0x1_00000000
              + Segment(x, 4) * 0x1_0000 + Segment(x, 5),
              Segment(x, 6) * 0x1_0000 + Segment(x, 7),
              0x1_0000_0000);
  }

  /** The upper 48 bits and the free suffix of a 6to4 address, in terms of segments. */
  lemma HighWord(x: u128)
    ensures x / 0x1_0000_00000000_00000000
            == Segment(x, 0) * 0x1_0000_0000 + FromSegments(Segment(x, 1), Segment(x, 2))
  {
    SegmentsSum(x);
    ModUnique(x,
              Segment(x, 0) * 0x1_0000_0000 + Segment(x, 1) * 0x1_0000 + Segment(x, 2),
              Segment(x, 3) * 0x1_00000000_00000000 + Segment(x, 4) * 0x1_0000_00000000
              + Segment(x, 5) * 0x1_00000000 + Segment(x, 6) * 0x1_0000 + Segment(x, 7),
              0x1_0000_00000000_00000000);
  }

  predicate SixZeroSegments(x: u128) { forall i | 0 <= i < 6 :: Segment(x, i) == 0 }

  predicate Nat64Segments(x: u128) {
    Segment(x, 0) == 0x64 && Segment(x, 1) == 0xff9b && forall i | 2 <= i < 6 :: Segment(x, i) == 0
  }

  lemma PrefixSegments(x: u128)
    ensures SixZeroSegments(x) <==> x / 0x1_0000_0000 == 0
    ensures Nat64Segments(x) <==> x / 0x1_0000_0000 == 0x0064ff9b_00000000_00000000
  {
    LowWord(x);
    SixDigits(Segment(x, 0), Segment(x, 1), Segment(x, 2), Segment(x, 3), Segment(x, 4), Segment(x, 5));
    if x / 0x1_0000_0000 == 0 || x / 0x1_0000_0000 == 0x0064ff9b_00000000_00000000 {
      forall i | 2 <= i < 6 ensures Segment(x, i) == 0 {
        assert i == 2 || i == 3 || i == 4 || i == 5;
      }
    }
  }

  lemma SixDigits(s0: u16, s1: u16, s2: u16, s3: u16, s4: u16, s5: u16)
    ensures var sum := s0 * 0x1_0000_00000000_00000000 + s1 * 0x1_00000000_00000000
                       + s2 * 0x1_0000_00000000 + s3 * 0x1_00000000 + s4 * 0x1_0000 + s5;
            && (sum == 0 <==> s0 == s1 == s2 == s3 == s4 == s5 == 0)
            && (sum == 0x0064ff9b_00000000_00000000
                <==> s0 == 0x64 && s1 == 0xff9b && s2 == s3 == s4 == s5 == 0)
  {
  }

  /** The code recovers an IPv4 address from exactly the four embeddings, and the right one. */
  lemma EmbeddedExactly(x: u128, a: u32)
    ensures EmbeddedIpv4(x) == Some(a)
            <==> x == MappedForm(a) || x == CompatibleForm(a) || x == Nat64Form(a)
                 || exists suffix: u80 :: x == SixToFourForm(a, suffix)
  {
    PrefixSegments(x);
    LowWord(x);
    SixToFourExactly(x, a);
  }

  lemma SixToFourExactly(x: u128, a: u32)
    ensures Segment(x, 0) == 0x2002 && FromSegments(Segment(x, 1), Segment(x, 2)) == a
            <==> exists suffix: u80 :: x == SixToFourForm(a, suffix)
  {
    HighWord(x);
    if Segment(x, 0) == 0x2002 && FromSegments(Segment(x, 1), Segment(x, 2)) == a {
      assert x == SixToFourForm(a, x % 0x1_0000_00000000_00000000);
    }
    if suffix: u80 :| x == SixToFourForm(a, suffix) {
      ModUnique(x, 0x2002_0000_0000 + a, suffix, 0x1_0000_00000000_00000000);
    }
  }

  /** Classification commutes with embedding, whatever the free suffix bits are. */
  lemma EmbeddingKeepsClass(a: u32, suffix: u80)
    ensures IsGlobalV6(MappedForm(a)) == IsGlobalV4(a)
    ensures IsGlobalV6(CompatibleForm(a)) == IsGlobalV4(a)
    ensures IsGlobalV6(Nat64Form(a)) == IsGlobalV4(a)
    ensures IsGlobalV6(SixToFourForm(a, suffix)) == IsGlobalV4(a)
  {
    EmbeddedExactly(MappedForm(a), a);
    EmbeddedExactly(CompatibleForm(a), a);
    EmbeddedExactly(Nat64Form(a), a);
    EmbeddedExactly(SixToFourForm(a, suffix), a);
  }

  /** A mapped address is dialled exactly when the IPv4 address it stands for is. */
  lemma UnmapKeepsClass(ip: IpAddr)
    ensures IsGlobalUnicast(Unmap(ip)) == IsGlobalUnicast(ip)
  {
    if IsMapped(ip) { EmbeddingKeepsClass(ToMapped(ip.b).value, 0); }
  }

  /** The IPv6 blocks that are refused when no IPv4 address is embedded, as intervals. */
  predicate ReservedV6(x: u128) {
    || 0x01000000_00000000_00000000_00000000 <= x < 0x01000000_00000001_00000000_00000000
    || 0x0064ff9b_00010000_00000000_00000000 <= x < 0x0064ff9b_00020000_00000000_00000000
    || 0x20010000_00000000_00000000_00000000 <= x < 0x20010200_00000000_00000000_00000000
    || 0x20010db8_00000000_00000000_00000000 <= x < 0x20010db9_00000000_00000000_00000000
    || 0xfc000000_00000000_00000000_00000000 <= x < 0xfe000000_00000000_00000000_00000000
    || 0xfe800000_00000000_00000000_00000000 <= x < 0xfec00000_00000000_00000000_00000000
    || 0xff000000_00000000_00000000_00000000 <= x
  }

  lemma StdSpecialV6Ranges(x: u128)
    requires EmbeddedIpv4(x).None?
    ensures StdSpecialV6(x)
            <==> || 0xfc000000_00000000_00000000_00000000 <= x < 0xfe000000_00000000_00000000_00000000
                 || 0xfe800000_00000000_00000000_00000000 <= x < 0xfec00000_00000000_00000000_00000000
                 || 0xff000000_00000000_00000000_00000000 <= x
  {
    HighWord(x);
    PrefixSegments(x);
  }

  lemma AlignedV6(x: u128, prefix: u128, bits: u8, size: nat)
    requires bits <= 128 && size == Pow2(128 - bits) && prefix % size == 0
    ensures Ipv6In(x, prefix, bits) <==> prefix <= x < prefix + size
  {
    Ipv6InIsInterval(x, prefix, bits);
  }

  lemma LargePowers()
    ensures Pow2(64) == 0x1_00000000_00000000 && Pow2(80) == 0x1_0000_00000000_00000000
    ensures Pow2(96) == 0x1_00000000_00000000_00000000
    ensures Pow2(105) == 0x200_00000000_00000000_00000000
  {
    SmallPowers();
    Widths();
    assert Pow2(1) == 2;
    hide *;
    Pow2Sum(32, 32);
    Pow2Sum(64, 16);
    Pow2Sum(64, 32);
    Pow2Sum(96, 8);
    Pow2Sum(104, 1);
  }

  lemma RefusedBlocksV6(x: u128)
    ensures Ipv6In(x, 0x20010000_00000000_00000000_00000000, 23)
            <==> 0x20010000_00000000_00000000_00000000 <= x < 0x20010200_00000000_00000000_00000000
    ensures Ipv6In(x, 0x20010db8_00000000_00000000_00000000, 32)
            <==> 0x20010db8_00000000_00000000_00000000 <= x < 0x20010db9_00000000_00000000_00000000
    ensures Ipv6In(x, 0x01000000_00000000_00000000_00000000, 64)
            <==> 0x01000000_00000000_00000000_00000000 <= x < 0x01000000_00000001_00000000_00000000
    ensures Ipv6In(x, 0x0064ff9b_00010000_00000000_00000000, 48)
            <==> 0x0064ff9b_00010000_00000000_00000000 <= x < 0x0064ff9b_00020000_00000000_00000000
  {
    LargePowers();
    hide Pow2, Ipv6In;
    AlignedV6(x, 0x20010000_00000000_00000000_00000000, 23, 0x200_00000000_00000000_00000000);
    AlignedV6(x, 0x20010db8_00000000_00000000_00000000, 32, 0x1_00000000_00000000_00000000);
    AlignedV6(x, 0x01000000_00000000_00000000_00000000, 64, 0x1_00000000_00000000);
    AlignedV6(x, 0x0064ff9b_00010000_00000000_00000000, 48, 0x1_0000_00000000_00000000);
  }

  lemma IsGlobalV6IsComplement(x: u128)
    requires EmbeddedIpv4(x).None?
    ensures IsGlobalV6(x) <==> !ReservedV6(x)
  {
    hide Ipv6In, StdSpecialV6, EmbeddedIpv4, Pow2;
    StdSpecialV6Ranges(x);
    RefusedBlocksV6(x);
  }
}
