// The shift and mask operators of fixed-width unsigned integers, defined digit by digit in base two,
// and the arithmetic they stand for.

module Bits {
  function Pow2(n: nat): (p: nat)
    ensures p > 0
  {
    if n == 0 then 1 else 2 * Pow2(n - 1)
  }

  /** `a & b` */
  function And(a: nat, b: nat): nat {
    if a == 0 || b == 0 then 0
    else 2 * And(a / 2, b / 2) + (if a % 2 == 1 && b % 2 == 1 then 1 else 0)
  }

  /** `a | b` */
  function Or(a: nat, b: nat): nat {
    if a == 0 then b else if b == 0 then a
    else 2 * Or(a / 2, b / 2) + (if a % 2 == 1 || b % 2 == 1 then 1 else 0)
  }

  /** `a << k` in a word of `width` bits: bits pushed out at the top are lost. */
  function Shl(a: nat, k: nat, width: nat): nat {
    (a * Pow2(k)) % Pow2(width)
  }

  /** `a >> k`, logical for unsigned and arithmetic for signed `a`. */
  function Shr(a: int, k: nat): (r: int)
    ensures a >= 0 ==> r >= 0
  {
    QuotientNonnegative(a, Pow2(k));
    a / Pow2(k)
  }

  lemma QuotientNonnegative(a: int, d: nat)
    requires d > 0
    ensures a >= 0 ==> a / d >= 0
  {
  }

  // ---- powers of two ----

  lemma {:induction false} Pow2Add(a: nat, b: nat)
    ensures Pow2(a + b) == Pow2(a) * Pow2(b)
  {
    if a > 0 {
      Pow2Add(a - 1, b);
      Associate(2, Pow2(a - 1), Pow2(b));
    }
  }

  lemma Associate(a: int, b: int, c: int)
    ensures a * b * c == a * (b * c)
  {
  }

  lemma Pow2Values()
    ensures Pow2(1) == 2 && Pow2(4) == 16 && Pow2(7) == 128 && Pow2(8) == 256
    ensures Pow2(12) == 0x1000 && Pow2(14) == 0x4000 && Pow2(16) == 0x1_0000
    ensures Pow2(21) == 0x20_0000 && Pow2(26) == 0x400_0000 && Pow2(28) == 0x1000_0000
    ensures Pow2(32) == 0x1_0000_0000 && Pow2(38) == 0x40_0000_0000
    ensures Pow2(52) == 0x10_0000_0000_0000
    ensures Pow2(64) == 0x1_0000_0000_0000_0000
  {
  }

  lemma {:induction false} Pow2Monotone(a: nat, b: nat)
    requires a <= b
    ensures Pow2(a) <= Pow2(b)
    ensures a < b ==> 2 * Pow2(a) <= Pow2(b)
  {
    if a < b { Pow2Monotone(a, b - 1); }
  }

  // ---- division ----

  /** `low` with `high` above it, in units of `base`. */
  function Plus(low: int, base: int, high: int): int {
    low + base * high
  }

  /** Quotient and remainder are determined by their defining equation. */
  lemma DivMod(a: int, d: int, q: int, r: int)
    requires d > 0 && 0 <= r < d && a == d * q + r
    ensures a / d == q && a % d == r
  {
    var e := q - a / d;
    assert d * (a / d) + a % d == a;
    assert d * e == a % d - r by {
      Distribute(d, q, a / d);
    }
    if e > 0 { Scale(1, e, d); } else if e < 0 { Scale(e, -1, d); }
  }

  lemma SmallMod(a: nat, d: nat)
    requires a < d
    ensures a % d == a && a / d == 0
  {
  }

  lemma Distribute(d: int, x: int, y: int)
    ensures d * (x - y) == d * x - d * y
    ensures d * (x + y) == d * x + d * y
  {
  }

  lemma Scale(x: int, y: int, d: int)
    requires x <= y && 0 <= d
    ensures x * d <= y * d
    ensures d * x <= d * y
  {
  }

  /** Dividing twice is dividing by the product. */
  lemma DivDiv(a: int, b: nat, c: nat)
    requires b > 0 && c > 0
    ensures b * c > 0
    ensures a / b / c == a / (b * c)
  {
    Scale(1, b, c);
    var q := a / b / c;
    var r := (a / b) % c;
    assert a == b * (a / b) + a % b;
    assert a / b == c * q + r;
    assert b * (a / b) == b * c * q + b * r by {
      Distribute(b, c * q, r);
      Associate(b, c, q);
    }
    var s := b * r + a % b;
    Scale(0, r, b);
    Scale(r, c - 1, b);
    Distribute(b, c, 1);
    assert 0 <= s < b * c;
    DivMod(a, b * c, q, s);
  }

  /** Adding a multiple of `d` changes the quotient by its factor and keeps the remainder. */
  lemma DivAddMultiple(a: int, d: nat, m: int)
    requires d > 0
    ensures (a + d * m) / d == a / d + m
    ensures (a + d * m) % d == a % d
  {
    Distribute(d, a / d, m);
    DivMod(a + d * m, d, a / d + m, a % d);
  }

  // ---- masks and disjoint bits ----

  /** The lowest bit of a remainder modulo an even number is that of the number itself. */
  lemma ModDouble(a: nat, p: nat)
    requires p > 0
    ensures a % (2 * p) == 2 * ((a / 2) % p) + a % 2
  {
    var q, r := (a / 2) / p, (a / 2) % p;
    assert a / 2 == p * q + r;
    Associate(2, p, q);
    DivMod(a, 2 * p, q, 2 * r + a % 2);
  }

  lemma AndOdd(a: nat, m: nat)
    ensures And(a, 2 * m + 1) == 2 * And(a / 2, m) + a % 2
  {
    assert (2 * m + 1) / 2 == m && (2 * m + 1) % 2 == 1;
  }

  /** Masking with `2^k - 1` is reducing modulo `2^k`. */
  lemma {:induction false} AndMask(a: nat, k: nat)
    ensures And(a, Pow2(k) - 1) == a % Pow2(k)
  {
    if k == 0 {
      assert And(a, 0) == 0;
    } else {
      var h := Pow2(k - 1);
      var low := And(a / 2, h - 1);
      assert low == (a / 2) % h by { AndMask(a / 2, k - 1); }
      assert And(a, Pow2(k) - 1) == 2 * low + a % 2 by {
        AndOdd(a, h - 1);
        assert 2 * (h - 1) + 1 == Pow2(k) - 1;
      }
      assert a % Pow2(k) == 2 * ((a / 2) % h) + a % 2 by { ModDouble(a, h); }
    }
  }

  /** Joining numbers with no bit in common is adding them. */
  lemma {:induction false} OrDisjoint(a: nat, b: nat, k: nat)
    requires a < Pow2(k)
    ensures Or(a, b * Pow2(k)) == a + b * Pow2(k)
  {
    if k > 0 && a > 0 && b > 0 {
      var p := Pow2(k - 1);
      var c := b * Pow2(k);
      assert c == 2 * (b * p) by { Associate(b, 2, p); Associate(2, b, p); }
      assert c / 2 == b * p && c % 2 == 0;
      Scale(1, b, p);
      OrDisjoint(a / 2, b, k - 1);
    }
  }

  /** Scaling dividend and divisor alike scales the remainder. */
  lemma ModScale(a: nat, m: nat, p: nat)
    requires m > 0 && p > 0
    ensures m * p > 0 && (a * p) % (m * p) == (a % m) * p
  {
    var q, r := a / m, a % m;
    Scale(1, m, p);
    Scale(0, r, p);
    Scale(r, m - 1, p);
    assert (m - 1) * p == m * p - p;
    assert a * p == m * p * q + r * p by {
      assert (m * q + r) * p == m * q * p + r * p;
      assert m * q * p == m * p * q;
    }
    DivMod(a * p, m * p, q, r * p);
  }

  /** A left shift keeps the bits that fit and moves them to `k` and above. */
  lemma ShlAsProduct(a: nat, k: nat, width: nat)
    requires k <= width
    ensures Shl(a, k, width) == (a % Pow2(width - k)) * Pow2(k)
  {
    Pow2Add(width - k, k);
    ModScale(a, Pow2(width - k), Pow2(k));
  }
}
