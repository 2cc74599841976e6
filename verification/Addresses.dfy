/** IP addresses: the limiter's key (src/limits.rs), CIDR membership (src/config.rs) and the
    classification of routable addresses (src/dest.rs). */
module Addresses {
  import opened Bits
  import opened Wrappers

  type u8 = n: nat | n < 0x100
  type u16 = n: nat | n < 0x1_0000
  type u32 = n: nat | n < 0x1_0000_0000
  type u128 = n: nat | n < 0x1_00000000_00000000_00000000_00000000

  datatype IpAddr = V4(a: u32) | V6(b: u128)

  lemma Squared(n: nat, v: nat)
    requires Pow2(n) == v
    ensures Pow2(2 * n) == v * v
  {
    Pow2Sum(n, n);
  }

  lemma Widths()
    ensures Pow2(32) == 0x1_0000_0000
    ensures Pow2(128) == 0x1_00000000_00000000_00000000_00000000
  {
    Squared(4, 0x10);
    hide Pow2;
    Squared(8, 0x100);
    Squared(16, 0x1_0000);
    Squared(32, 0x1_0000_0000);
    Squared(64, 0x1_00000000_00000000);
  }

  function Min(x: nat, y: nat): nat { if x < y then x else y }

  /** The standard library's `to_ipv4_mapped`: the low word of `::ffff:0:0/96`. */
  function ToMapped(b: u128): Option<u32> {
    if b / 0x1_0000_0000 == 0xffff then Some(b % 0x1_0000_0000) else None
  }

  predicate IsMapped(ip: IpAddr) { ip.V6? && ToMapped(ip.b).Some? }

  // ------------------------------------------------------------ limit keys

  function MaskV4(a: u32, bits: nat): (r: u32)
    requires bits <= 32
    ensures r == a - a % Pow2(32 - bits)
  {
    Widths();
    MaskTruncates(a, 32, bits);
    And(a, PrefixMask(32, bits))
  }

  function MaskV6(b: u128, bits: nat): (r: u128)
    requires bits <= 128
    ensures r == b - b % Pow2(128 - bits)
  {
    Widths();
    MaskTruncates(b, 128, bits);
    And(b, PrefixMask(128, bits))
  }

  function LimitKey(ip: IpAddr, v4Bits: u8, v6Bits: u8): IpAddr
    decreases ip.V6?
  {
    match ip
    case V4(a) =>
      var bits := Min(v4Bits, 32);
      if bits == 32 then ip else V4(MaskV4(a, bits))
    case V6(b) =>
      match ToMapped(b)
      case Some(a) => LimitKey(V4(a), v4Bits, v6Bits)
      case None =>
        var bits := Min(v6Bits, 128);
        if bits == 128 then ip else V6(MaskV6(b, bits))
  }

  /** The address a mapped IPv6 address stands for; any other address itself. */
  function Unmap(ip: IpAddr): IpAddr {
    if IsMapped(ip) then V4(ToMapped(ip.b).value) else ip
  }

  lemma TruncateTwice(x: nat, m: nat)
    requires m > 0
    ensures (x - x % m) % m == 0
  {
    assert x - x % m == x / m * m;
    ModUnique(x - x % m, x / m, 0, m);
  }

  /** Masking an address that is not IPv4-mapped never produces a mapped one. */
  lemma MaskingStaysUnmapped(b: u128, bits: nat)
    requires bits <= 128 && ToMapped(b).None?
    ensures ToMapped(MaskV6(b, bits)).None?
  {
    Widths();
    if bits >= 96 {
      HighWordKept(b, 128 - bits);
    } else {
      LowBitOfHighWordCleared(b, 128 - bits);
    }
  }

  lemma HighWordKept(x: nat, s: nat)
    requires s <= 32
    ensures (x - x % Pow2(s)) / Pow2(32) == x / Pow2(32)
  {
    Pow2Sum(s, 32 - s);
    SameHigh(x, Pow2(s), Pow2(32 - s));
  }

  lemma LowBitOfHighWordCleared(x: nat, s: nat)
    requires s >= 33
    ensures (x - x % Pow2(s)) / Pow2(32) % 2 == 0
  {
    Pow2Sum(33, s - 33);
    assert Pow2(33) == 2 * Pow2(32);
    EvenQuotient(x, Pow2(s), Pow2(32), Pow2(s - 33));
  }

  lemma EvenQuotient(x: nat, m: nat, w: nat, k: nat)
    requires m > 0 && w > 0 && m == 2 * w * k
    ensures (x - x % m) / w % 2 == 0
  {
    var q := x / m;
    Regroup(q, w, k);
    ModUnique(x - x % m, 2 * (q * k), 0, w);
  }

  lemma Regroup(q: nat, w: nat, k: nat)
    ensures q * (2 * w * k) == (2 * (q * k)) * w
  {
  }

  lemma Distribute(q: nat, k: nat, h: nat, m: nat)
    ensures (q * k + h) * m == q * (m * k) + h * m
  {
  }

  /** Rounding down to a multiple of `m` keeps the quotient by any multiple of `m`. */
  lemma SameHigh(x: nat, m: nat, k: nat)
    requires m > 0 && k > 0
    ensures x / (m * k) == (x - x % m) / (m * k)
  {
    var w := m * k;
    var q, r := x / w, x % w;
    var h, t := r / m, r % m;
    Distribute(q, k, h, m);
    assert x == q * w + (h * m + t);
    ModUnique(x, q * k + h, t, m);
    ModUnique(x - t, q, h * m, w);
  }

  /** The largest multiple of `m` up to `x`. */
  function Floor(x: nat, m: nat): (r: nat)
    requires m > 0
    ensures r == x - x % m <= x
  {
    x - x % m
  }

  /** The key in numbers. */
  lemma KeyIs(ip: IpAddr, v4Bits: u8, v6Bits: u8)
    ensures LimitKey(ip, v4Bits, v6Bits)
            == match Unmap(ip)
               case V4(a) => V4(Floor(a, Pow2(32 - Min(v4Bits, 32))))
               case V6(b) => V6(Floor(b, Pow2(128 - Min(v6Bits, 128))))
  {
    assert Pow2(0) == 1;
    hide MaskV4, MaskV6, Pow2;
  }

  lemma LimitKeyIdempotent(ip: IpAddr, v4Bits: u8, v6Bits: u8)
    ensures LimitKey(LimitKey(ip, v4Bits, v6Bits), v4Bits, v6Bits) == LimitKey(ip, v4Bits, v6Bits)
  {
    hide MaskV4, MaskV6, Pow2, LimitKey;
    KeyIs(ip, v4Bits, v6Bits);
    KeyIs(LimitKey(ip, v4Bits, v6Bits), v4Bits, v6Bits);
    match Unmap(ip) {
      case V4(a) =>
        TruncateTwice(a, Pow2(32 - Min(v4Bits, 32)));
      case V6(b) =>
        var bits := Min(v6Bits, 128);
        MaskingStaysUnmapped(b, bits);
        TruncateTwice(b, Pow2(128 - bits));
    }
  }

  // ------------------------------------------------------------ CIDR blocks

  datatype Cidr = Cidr(addr: IpAddr, bits: u8) {
    /** `Cidr::parse` admits no longer prefix than the address has bits. */
    predicate Valid() { bits <= if addr.V4? then 32 else 128 }

    predicate Contains(ip: IpAddr)
      requires Valid()
      decreases addr.V6?, ip.V6?
    {
      match (addr, ip)
      case (V4(p), V4(x)) => MaskV4(x, bits) == MaskV4(p, bits)
      case (V6(p), V6(x)) =>
        if ToMapped(p).Some? && ToMapped(x).Some?
        then Cidr(V4(ToMapped(p).value), Min(bits, 32)).Contains(V4(ToMapped(x).value))
        else MaskV6(x, bits) == MaskV6(p, bits)
      case (V4(p), V6(x)) => ToMapped(x).Some? && Cidr(addr, bits).Contains(V4(ToMapped(x).value))
      case (V6(_), V4(_)) => false
    }
  }

  /** Two clients share a budget exactly when the second, unmapped, is inside the network of the first,
      unmapped; an IPv4-mapped address is never in the class of a plain IPv6 one. */
  lemma LimitKeyClasses(a: IpAddr, b: IpAddr, v4Bits: u8, v6Bits: u8)
    ensures var u := Unmap(a);
            LimitKey(a, v4Bits, v6Bits) == LimitKey(b, v4Bits, v6Bits)
            <==> Cidr(u, Min(if u.V4? then v4Bits else v6Bits, if u.V4? then 32 else 128)).Contains(b)
                 && (u.V6? ==> !IsMapped(b))
  {
    assert Pow2(0) == 1;
    UnmapKeepsKey(a, v4Bits, v6Bits);
    UnmapKeepsKey(b, v4Bits, v6Bits);
  }

  lemma UnmapKeepsKey(a: IpAddr, v4Bits: u8, v6Bits: u8)
    ensures LimitKey(Unmap(a), v4Bits, v6Bits) == LimitKey(a, v4Bits, v6Bits) && !IsMapped(Unmap(a))
  {
  }

  /** The same in numbers: an IPv4 budget is one aligned interval of addresses. */
  lemma LimitKeyIntervalV4(a: u32, b: IpAddr, v4Bits: u8, v6Bits: u8)
    ensures var m := Pow2(32 - Min(v4Bits, 32));
            LimitKey(V4(a), v4Bits, v6Bits) == LimitKey(b, v4Bits, v6Bits)
            <==> Unmap(b).V4? && a - a % m <= Unmap(b).a < a - a % m + m
  {
    assert Pow2(0) == 1;
    if Unmap(b).V4? { SameBlock(a, Unmap(b).a, Pow2(32 - Min(v4Bits, 32))); }
  }

  /** And so is an IPv6 budget, less the IPv4-mapped addresses. */
  lemma LimitKeyIntervalV6(a: u128, b: IpAddr, v4Bits: u8, v6Bits: u8)
    requires ToMapped(a).None?
    ensures var m := Pow2(128 - Min(v6Bits, 128));
            LimitKey(V6(a), v4Bits, v6Bits) == LimitKey(b, v4Bits, v6Bits)
            <==> Unmap(b).V6? && a - a % m <= Unmap(b).b < a - a % m + m
  {
    assert Pow2(0) == 1;
    if Unmap(b).V6? { SameBlock(a, Unmap(b).b, Pow2(128 - Min(v6Bits, 128))); }
  }

  lemma SameBlock(a: nat, b: nat, m: nat)
    requires m > 0
    ensures a - a % m == b - b % m <==> a - a % m <= b < a - a % m + m
  {
    if a - a % m <= b < a - a % m + m { InBlock(b, a, m); }
  }

  /** `x` lies in the aligned block of `size` numbers that holds `p`. */
  predicate Aligned(p: nat, x: nat, size: nat)
    requires size > 0
  {
    p - p % size <= x < p - p % size + size
  }

  /** What a block contains: an interval of addresses. A plain IPv6 one may hold mapped addresses; one written
      as a mapped address holds mapped addresses as an IPv4 block of no more than 32 bits does. */
  lemma ContainsExactly(c: Cidr, ip: IpAddr)
    requires c.Valid()
    ensures c.Contains(ip)
            <==> match c.addr
                 case V4(p) => Unmap(ip).V4? && Aligned(p, Unmap(ip).a, Pow2(32 - c.bits))
                 case V6(p) =>
                   && ip.V6?
                   && if ToMapped(p).Some? && IsMapped(ip)
                      then Aligned(ToMapped(p).value, Unmap(ip).a, Pow2(32 - Min(c.bits, 32)))
                      else Aligned(p, ip.b, Pow2(128 - c.bits))
  {
    hide MaskV4, MaskV6, Pow2;
    match (c.addr, Unmap(ip)) {
      case (V4(p), V4(x)) => SameBlock(p, x, Pow2(32 - c.bits));
      case (V6(p), V4(x)) =>
        if ToMapped(p).Some? { SameBlock(ToMapped(p).value, x, Pow2(32 - Min(c.bits, 32))); }
        if ip.V6? { SameBlock(p, ip.b, Pow2(128 - c.bits)); }
      case (V6(p), V6(x)) => SameBlock(p, x, Pow2(128 - c.bits));
      case _ =>
    }
  }

  /** The numbers of one block of `m` are in one block of any multiple of `m`. */
  lemma CoarserBlock(p: nat, x: nat, m: nat, k: nat)
    requires m > 0 && k > 0 && p - p % m == x - x % m
    ensures m * k > 0 && Aligned(p, x, m * k)
  {
    SameHigh(p, m, k);
    SameHigh(x, m, k);
    assert p / (m * k) == x / (m * k);
    assert p - p % (m * k) == p / (m * k) * (m * k) && x - x % (m * k) == x / (m * k) * (m * k);
    SameBlock(p, x, m * k);
  }

  /** The block as its 128 bits say it. */
  ghost predicate MeansItsBits(p: u128, bits: u8)
    requires bits <= 128
  {
    forall x: u128 | ToMapped(x).Some? :: Cidr(V6(p), bits).Contains(V6(x)) <==> Aligned(p, x, Pow2(128 - bits))
  }

  /** The mapped address that differs in the first of its 32 bits only. */
  function FirstFlipped(p: u128): u128
    requires ToMapped(p).Some?
  {
    if p % 0x1_0000_0000 < 0x8000_0000 then p + 0x8000_0000 else p - 0x8000_0000
  }

  function LastFlipped(p: u128): u128 { if p % 2 == 0 then p + 1 else p - 1 }

  lemma SmallBlockMisses(p: u128, bits: u8)
    requires ToMapped(p).Some? && 0 < bits < 32
    ensures !MeansItsBits(p, bits)
  {
    var x := FirstFlipped(p);
    assert ToMapped(x).Some? && x - x % 0x1_0000_0000 == p - p % 0x1_0000_0000;
    Widths();
    Pow2Sum(32, 96 - bits);
    CoarserBlock(p, x, 0x1_0000_0000, Pow2(96 - bits));
    Pow2Sum(32 - bits, bits - 1);
    assert Pow2(31) == 0x8000_0000;
    ContainsExactly(Cidr(V6(p), bits), V6(x));
    HalfIsNoLess(Pow2(32 - bits), Pow2(bits - 1));
  }

  lemma HalfIsNoLess(m: nat, k: nat)
    requires m > 0 && k > 0
    ensures m <= m * k
  {
  }

  lemma LoneAddressMisses(p: u128, bits: u8)
    requires ToMapped(p).Some? && 32 <= bits < 128
    ensures !MeansItsBits(p, bits)
  {
    var x := LastFlipped(p);
    assert ToMapped(x).Some? && x - x % 2 == p - p % 2;
    assert Pow2(128 - bits) == 2 * Pow2(127 - bits) && Pow2(0) == 1;
    CoarserBlock(p, x, 2, Pow2(127 - bits));
    ContainsExactly(Cidr(V6(p), bits), V6(x));
  }

  lemma LastPow()
    ensures Pow2(0) == 1
  {
  }

  /** So a block written as a mapped address rarely means what its bits say: `::ffff:10.0.0.0/104` holds
      `10.0.0.0` alone. It does exactly when it has no bits or all. */
  lemma MappedBlockExactly(p: u128, bits: u8)
    requires ToMapped(p).Some? && bits <= 128
    ensures MeansItsBits(p, bits) <==> bits == 0 || bits == 128
  {
    if 0 < bits < 32 { SmallBlockMisses(p, bits); }
    if 32 <= bits < 128 { LoneAddressMisses(p, bits); }
    hide Cidr.Contains, Pow2;
    if bits == 0 || bits == 128 {
      forall x: u128 | ToMapped(x).Some?
        ensures Cidr(V6(p), bits).Contains(V6(x)) <==> Aligned(p, x, Pow2(128 - bits))
      {
        ContainsExactly(Cidr(V6(p), bits), V6(x));
        Widths();
        LastPow();
      }
    }
  }

  /** The exception above is real: `::/0` contains `::ffff:0:0`, whose key is an IPv4 one. */
  lemma PlainV6NetworkMayContainMapped()
    ensures var any, mapped := V6(0), V6(0xffff_0000_0000);
            Cidr(any, 0).Contains(mapped) && LimitKey(any, 0, 0) != LimitKey(mapped, 0, 0)
  {
    assert ToMapped(0xffff_0000_0000) == Some(0);
    assert MaskV6(0, 0) == 0;
    Widths();
    assert MaskV6(0xffff_0000_0000, 0) == 0 by { MaskTruncates(0xffff_0000_0000, 128, 0); }
  }
}
