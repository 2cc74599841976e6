/** Unsigned machine arithmetic on naturals: the bitwise operators, defined bit by bit, and what
    a left shift and a prefix mask amount to arithmetically. */
module Bits {

  function Pow2(n: nat): (p: nat)
    ensures p > 0
  {
    if n == 0 then 1 else 2 * Pow2(n - 1)
  }

  function And(a: nat, b: nat): nat {
    if a == 0 || b == 0 then 0 else 2 * And(a / 2, b / 2) + (a % 2) * (b % 2)
  }

  function Or(a: nat, b: nat): nat
    decreases a + b
  {
    if a == 0 then b else if b == 0 then a
    else 2 * Or(a / 2, b / 2) + (if a % 2 == 1 || b % 2 == 1 then 1 else 0)
  }

  function Xor(a: nat, b: nat): nat
    decreases a + b
  {
    if a == 0 then b else if b == 0 then a
    else 2 * Xor(a / 2, b / 2) + (if a % 2 != b % 2 then 1 else 0)
  }

  /** `a << s` on an unsigned integer of `width` bits: bits shifted past the top are lost. */
  function Shl(a: nat, s: nat, width: nat): nat {
    a * Pow2(s) % Pow2(width)
  }

  /** `!0 << (width - bits)`, with the special case the source needs for `bits == 0`. */
  function PrefixMask(width: nat, bits: nat): nat
    requires bits <= width
  {
    if bits == 0 then 0 else Shl(Pow2(width) - 1, width - bits, width)
  }

  lemma TwiceProduct(x: int, y: int)
    ensures 2 * (x * y) == (2 * x) * y
  {
  }

  lemma {:induction false} Pow2Sum(a: nat, b: nat)
    ensures Pow2(a + b) == Pow2(a) * Pow2(b)
  {
    if a > 0 {
      Pow2Sum(a - 1, b);
      TwiceProduct(Pow2(a - 1), Pow2(b));
    }
  }

  lemma ModUnique(x: int, q: int, r: int, m: int)
    requires 0 <= r < m && x == q * m + r
    ensures x / m == q && x % m == r
  {
    var d := x / m - q;
    assert d * m == r - x % m by { assert (x / m - q) * m == x / m * m - q * m; }
    if d > 0 { AtLeastOne(d, m); }
    if d < 0 { AtLeastOne(-d, m); }
  }

  lemma AtLeastOne(k: int, m: int)
    requires k > 0 && m > 0
    ensures k * m >= m
  {
    assert (k - 1) * m >= 0;
  }

  lemma ModHalf(x: nat, m: nat)
    requires m > 0
    ensures x % (2 * m) == 2 * (x / 2 % m) + x % 2
    ensures x / (2 * m) == x / 2 / m
  {
    var h := x / 2;
    var q, r := h / m, h % m;
    assert h == q * m + r;
    assert x == q * (2 * m) + (2 * r + x % 2) by {
      assert x == 2 * h + x % 2;
      assert 2 * (q * m) == q * (2 * m);
    }
    ModUnique(x, q, 2 * r + x % 2, 2 * m);
  }

  lemma AndOdd(x: nat, m: nat)
    ensures And(x, 2 * m + 1) == 2 * And(x / 2, m) + x % 2
  {
    if x != 0 {
      var y := 2 * m + 1;
      assert y / 2 == m && y % 2 == 1;
      assert And(x, y) == 2 * And(x / 2, y / 2) + (x % 2) * (y % 2);
    }
  }

  lemma {:induction false} AndOnes(x: nat, w: nat)
    requires x < Pow2(w)
    ensures And(x, Pow2(w) - 1) == x
  {
    if w > 0 {
      AndOnes(x / 2, w - 1);
      AndOdd(x, Pow2(w - 1) - 1);
      hide And;
    }
  }

  lemma AndDouble(x: nat, m: nat)
    ensures And(x, 2 * m) == 2 * And(x / 2, m)
  {
    if x != 0 && m != 0 {
      var y := 2 * m;
      assert y / 2 == m && y % 2 == 0;
      assert And(x, y) == 2 * And(x / 2, y / 2) + (x % 2) * (y % 2);
    }
  }

  /** A run of ones above bit `s` clears the low `s` bits and nothing else. */
  lemma {:induction false} AndTruncates(x: nat, w: nat, s: nat)
    requires s <= w && x < Pow2(w)
    ensures Pow2(s) <= Pow2(w)
    ensures And(x, Pow2(w) - Pow2(s)) == x - x % Pow2(s)
  {
    if s == 0 {
      AndOnes(x, w);
    } else {
      AndTruncates(x / 2, w - 1, s - 1);
      ModHalf(x, Pow2(s - 1));
      AndDouble(x, Pow2(w - 1) - Pow2(s - 1));
      hide And;
      assert Pow2(w) - Pow2(s) == 2 * (Pow2(w - 1) - Pow2(s - 1));
    }
  }

  lemma MaskValue(width: nat, bits: nat)
    requires bits <= width
    ensures Pow2(width - bits) <= Pow2(width)
    ensures PrefixMask(width, bits) == Pow2(width) - Pow2(width - bits)
  {
    var s := width - bits;
    Pow2Sum(s, bits);
    var a, b := Pow2(width), Pow2(s);
    assert b <= a by { assert Pow2(bits) >= 1; assert b * Pow2(bits) >= b * 1; }
    if bits > 0 {
      assert (a - 1) * b == (b - 1) * a + (a - b);
      ModUnique((a - 1) * b, b - 1, a - b, a);
    }
  }

  /** Masking to a prefix rounds down to the start of the block of that prefix. */
  lemma MaskTruncates(x: nat, width: nat, bits: nat)
    requires bits <= width && x < Pow2(width)
    ensures And(x, PrefixMask(width, bits)) == x - x % Pow2(width - bits)
  {
    MaskValue(width, bits);
    AndTruncates(x, width, width - bits);
  }

  lemma InBlock(x: nat, p: nat, m: nat)
    requires m > 0 && p - p % m <= x < p - p % m + m
    ensures x - x % m == p - p % m
  {
    assert p == p / m * m + p % m;
    ModUnique(x, p / m, x - (p - p % m), m);
  }

  /** Two addresses agree under the mask exactly when one lies in the other's block. */
  lemma MaskIsInterval(x: nat, p: nat, width: nat, bits: nat)
    requires bits <= width && x < Pow2(width) && p < Pow2(width)
    ensures And(x, PrefixMask(width, bits)) == And(p, PrefixMask(width, bits))
            <==> (var block := Pow2(width - bits);
                  p - p % block <= x < p - p % block + block)
  {
    MaskTruncates(x, width, bits);
    MaskTruncates(p, width, bits);
    var m := Pow2(width - bits);
    var base := p - p % m;
    if base <= x < base + m {
      InBlock(x, p, m);
    }
  }

  lemma OrStep(a: nat, b: nat)
    requires a != 0 && b != 0
    ensures Or(a, b) == 2 * Or(a / 2, b / 2) + (if a % 2 == 1 || b % 2 == 1 then 1 else 0)
  {
  }

  lemma OrWithZero(a: nat)
    ensures Or(a, 0) == a && Or(0, a) == a
  {
  }

  lemma OrEven(h: nat, b: nat)
    ensures Or(2 * h, b) == 2 * Or(h, b / 2) + b % 2
  {
    hide Or;
    OrWithZero(2 * h);
    OrWithZero(b);
    OrWithZero(h);
    OrWithZero(b / 2);
    if h != 0 && b != 0 {
      OrStep(2 * h, b);
      assert 2 * h / 2 == h && 2 * h % 2 == 0;
    }
  }

  /** Bits placed above bit `k` and a number below it combine by `|` as by `+`. */
  lemma {:induction false} OrIsSum(a: nat, b: nat, k: nat)
    requires b < Pow2(k)
    ensures Or(a * Pow2(k), b) == a * Pow2(k) + b
  {
    if k > 0 {
      var h := a * Pow2(k - 1);
      TwiceProduct(Pow2(k - 1), a);
      OrIsSum(a, b / 2, k - 1);
      OrEven(h, b);
      hide Or;
      assert a * Pow2(k) == 2 * h;
    }
  }

  lemma {:induction false} OrZero(a: nat, b: nat)
    ensures Or(a, b) == 0 <==> a == 0 && b == 0
    decreases a + b
  {
    if a != 0 && b != 0 { OrZero(a / 2, b / 2); }
  }

  lemma {:induction false} XorZero(a: nat, b: nat)
    ensures Xor(a, b) == 0 <==> a == b
    decreases a + b
  {
    if a != 0 && b != 0 { XorZero(a / 2, b / 2); }
  }
}
