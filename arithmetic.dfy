/** Mathematical facts about powers of two, floor and truncating division and
    congruence, used to state and prove what the machine integer operations do. */
module Arithmetic {

  /** 2 to the power n. */
  function Pow2(n: nat): (r: int)
    ensures r >= 1
  {
    if n == 0 then 1 else 2 * Pow2(n - 1)
  }

  lemma {:induction false} Pow2Add(a: nat, b: nat)
    ensures Pow2(a + b) == Pow2(a) * Pow2(b)
  {
    if b > 0 {
      Pow2Add(a, b - 1);
      calc {
        Pow2(a + b);
        2 * Pow2(a + b - 1);
        2 * (Pow2(a) * Pow2(b - 1));
        Pow2(a) * (2 * Pow2(b - 1));
        Pow2(a) * Pow2(b);
      }
    }
  }

  lemma {:induction false} Pow2Monotone(a: nat, b: nat)
    requires a <= b
    ensures Pow2(a) <= Pow2(b)
  {
    if a < b {
      Pow2Monotone(a, b - 1);
    }
  }

  function Abs(x: int): (r: nat)
    ensures r == x || r == -x
  {
    if x < 0 then -x else x
  }

  /** Euclidean division by a positive divisor is determined by any
      decomposition x == q * d + r with 0 <= r < d. */
  lemma DivModUnique(x: int, d: int, q: int, r: int)
    requires d > 0 && 0 <= r < d && x == q * d + r
    ensures x / d == q && x % d == r
  {
    var q0, r0 := x / d, x % d;
    assert x == q0 * d + r0;
    assert (q - q0) * d == r0 - r;
    if q - q0 >= 1 {
      MulAtLeast(q - q0, d);
    } else if q0 - q >= 1 {
      MulAtLeast(q0 - q, d);
    }
  }

  lemma MulAtLeast(k: int, d: int)
    requires k >= 1 && d > 0
    ensures k * d >= d
  {
  }

  lemma MulLe(a: int, b: int, c: int)
    requires a <= b && c >= 0
    ensures a * c <= b * c
  {
  }

  /** Floor division by d >= 1 moves a value towards zero without crossing it. */
  lemma FloorDivBounds(x: int, d: int)
    requires d >= 1
    ensures x >= 0 ==> 0 <= x / d <= x
    ensures x < 0 ==> x <= x / d < 0
  {
    QuotientBounds(x, d, x / d, x % d);
  }

  lemma QuotientBounds(x: int, d: int, q: int, r: int)
    requires d >= 1 && 0 <= r < d && x == q * d + r
    ensures x >= 0 ==> 0 <= q <= x
    ensures x < 0 ==> x <= q < 0
  {
    if q >= 1 {
      MulLe(1, d, q);
    } else if q <= -1 {
      MulLe(1, d, -q);
      assert (-q) * d == -(q * d);
    }
  }

  /** Scaling numerator and divisor by the same positive factor does not change
      a floor quotient. */
  lemma {:induction false} FloorDivScale(x: int, d: int, c: int)
    requires d > 0 && c > 0
    ensures (x * c) / (d * c) == x / d
  {
    var q, r := x / d, x % d;
    assert x == q * d + r;
    assert x * c == q * (d * c) + r * c;
    assert 0 <= r * c < d * c by {
      assert (d - r) * c > 0 by { MulAtLeast(d - r, c); }
    }
    DivModUnique(x * c, d * c, q, r * c);
  }

  /** Division that truncates toward zero, as machine integer division does
      (the remainder takes the sign of the dividend). */
  function TruncDiv(a: int, b: int): (q: int)
    requires b != 0
    ensures Abs(q) == Abs(a) / Abs(b)
    ensures Abs(a - q * b) < Abs(b)
    ensures a - q * b == 0 || (a - q * b < 0 <==> a < 0)
  {
    TruncDivFacts(a, b);
    if (a < 0) == (b < 0) then Abs(a) / Abs(b) else -(Abs(a) / Abs(b))
  }

  lemma TruncDivFacts(a: int, b: int)
    requires b != 0
    ensures var q := if (a < 0) == (b < 0) then Abs(a) / Abs(b) else -(Abs(a) / Abs(b));
      Abs(q) == Abs(a) / Abs(b) && Abs(a - q * b) < Abs(b) &&
      (a - q * b == 0 || (a - q * b < 0 <==> a < 0))
  {
    TruncRemainder(a, b, Abs(a) / Abs(b), Abs(a) % Abs(b));
  }

  lemma TruncRemainder(a: int, b: int, q0: int, r0: int)
    requires b != 0 && q0 >= 0 && 0 <= r0 < Abs(b) && Abs(a) == q0 * Abs(b) + r0
    ensures var q := if (a < 0) == (b < 0) then q0 else -q0;
      a - q * b == (if a < 0 then -r0 else r0)
  {
    if b < 0 {
      assert q0 * b == -(q0 * Abs(b));
    }
  }

  /** The truncated quotient of a product and a divisor scaled by the same
      positive factor does not depend on that factor. */
  lemma TruncDivScale(a: int, b: int, c: int)
    requires b != 0 && c > 0
    ensures TruncDiv(a * c, b * c) == TruncDiv(a, b)
  {
    AbsScale(a, c);
    AbsScale(b, c);
    FloorDivScale(Abs(a), Abs(b), c);
  }

  lemma AbsScale(a: int, c: int)
    requires c > 0
    ensures Abs(a * c) == Abs(a) * c
    ensures a * c < 0 <==> a < 0
  {
    if a < 0 {
      assert a * c == -(Abs(a) * c);
      MulAtLeast(Abs(a), c);
    } else if a > 0 {
      MulAtLeast(a, c);
    }
  }

  /** x and y leave the same remainder modulo m. */
  predicate Congruent(x: int, y: int, m: int)
    requires m > 0
  {
    x % m == y % m
  }

  lemma {:induction false} CongruentShift(x: int, y: int, c: int, m: int)
    requires m > 0 && Congruent(x, y, m)
    ensures Congruent(x + c, y + c, m)
  {
    var rc := (x % m + c % m) % m;
    DivModUnique(x + c, m, x / m + c / m + (x % m + c % m) / m, rc);
    DivModUnique(y + c, m, y / m + c / m + (y % m + c % m) / m, rc);
  }

  lemma CongruentMultiple(x: int, k: int, m: int)
    requires m > 0
    ensures Congruent(x + k * m, x, m)
  {
    DivModUnique(x + k * m, m, x / m + k, x % m);
  }

  /** Congruence modulo m implies congruence modulo every divisor of m. */
  lemma CongruentDivisor(x: int, y: int, d: int, k: int)
    requires d > 0 && k > 0 && Congruent(x, y, d * k)
    ensures Congruent(x, y, d)
  {
    var m := d * k;
    ReduceModulus(x, d, k, x / m, x % m);
    ReduceModulus(y, d, k, y / m, y % m);
  }

  lemma ReduceModulus(x: int, d: int, k: int, q: int, r: int)
    requires d > 0 && x == q * (d * k) + r
    ensures Congruent(x, r, d)
  {
    assert q * (d * k) == (q * k) * d;
    CongruentMultiple(r, q * k, d);
  }

  /** Reducing x into the window [lo, lo + m) by a multiple of m. */
  lemma ModWindow(x: int, lo: int, m: int)
    requires m > 0
    ensures var r := (x - lo) % m + lo;
      lo <= r < lo + m && Congruent(r, x, m) && (lo <= x < lo + m ==> r == x)
  {
    ModWindowDecomposed(x, lo, m, (x - lo) / m, (x - lo) % m);
  }

  lemma ModWindowDecomposed(x: int, lo: int, m: int, k: int, rem: int)
    requires m > 0 && x - lo == k * m + rem && 0 <= rem < m
    ensures var r := rem + lo;
      Congruent(r, x, m) && (lo <= x < lo + m ==> r == x)
  {
    assert (-k) * m == -(k * m);
    CongruentMultiple(x, -k, m);
    if lo <= x < lo + m {
      DivModUnique(x - lo, m, 0, x - lo);
      DivModUnique(x - lo, m, k, rem);
    }
  }

  /** The floor quotient q of x by d is the q with q * d <= x < (q + 1) * d. */
  lemma FloorDivEnclosed(x: int, d: int)
    requires d > 0
    ensures (x / d) * d <= x < (x / d + 1) * d
  {
    var q := x / d;
    assert x == q * d + x % d;
    assert (q + 1) * d == q * d + d;
  }

  /** A truncated quotient is no larger in magnitude than the dividend, at most
      half of it when the divisor is not a unit, and the dividend itself or its
      negation when it is. */
  lemma TruncDivMagnitude(x: int, y: int)
    requires y != 0
    ensures Abs(TruncDiv(x, y)) <= Abs(x)
    ensures Abs(y) >= 2 ==> 2 * Abs(TruncDiv(x, y)) <= Abs(x)
    ensures y == 1 ==> TruncDiv(x, y) == x
    ensures y == -1 ==> TruncDiv(x, y) == -x
  {
    var a, b := Abs(x), Abs(y);
    QuotientBounds(a, b, a / b, a % b);
    if b == 1 {
      DivModUnique(a, 1, a, 0);
    } else {
      QuotientHalf(a, b, a / b, a % b);
    }
  }

  lemma QuotientHalf(a: int, b: int, q0: int, r0: int)
    requires a >= 0 && b >= 2 && a == q0 * b + r0 && 0 <= r0 < b
    ensures 0 <= 2 * q0 <= a
  {
    QuotientBounds(a, b, q0, r0);
    MulLe(2, b, q0);
  }

  /** The powers of two at the widths of the machine integer types. */
  lemma Pow2Values()
    ensures Pow2(7) == 0x80 && Pow2(8) == 0x100
    ensures Pow2(15) == 0x8000 && Pow2(16) == 0x1_0000
    ensures Pow2(31) == 0x8000_0000 && Pow2(32) == 0x1_0000_0000
    ensures Pow2(63) == 0x8000_0000_0000_0000 && Pow2(64) == 0x1_0000_0000_0000_0000
    ensures Pow2(127) == 0x8000_0000_0000_0000_0000_0000_0000_0000
    ensures Pow2(128) == 0x1_0000_0000_0000_0000_0000_0000_0000_0000
  {
    assert Pow2(7) == 0x80 && Pow2(8) == 0x100;
    Pow2Add(7, 8);
    Pow2Add(8, 8);
    Pow2Add(15, 16);
    Pow2Add(16, 16);
    Pow2Add(31, 32);
    Pow2Add(32, 32);
    Pow2Add(63, 64);
    Pow2Add(64, 64);
  }

  /** Two factors in [-h, h] have a product in [-h^2, h^2], strictly inside
      [-2h^2, 2h^2 - 1]. */
  lemma SignedProductBound(x: int, y: int, h: int)
    requires h >= 1 && -h <= x <= h && -h <= y <= h
    ensures -2 * (h * h) < x * y <= 2 * (h * h) - 1
  {
    assert Abs(x * y) == Abs(x) * Abs(y);
    MulLe(Abs(x), h, Abs(y));
    MulLe(Abs(y), h, h);
    MulAtLeast(h, h);
  }

  /** Two factors in [0, m) have a product in [0, m^2). */
  lemma UnsignedProductBound(x: int, y: int, m: int)
    requires m >= 1 && 0 <= x < m && 0 <= y < m
    ensures 0 <= x * y <= m * m - 1
  {
    MulLe(x, m - 1, y);
    MulLe(y, m - 1, m - 1);
    assert (m - 1) * (m - 1) == m * m - 2 * m + 1;
  }

  /** A product with a positive factor is zero only when the other factor is. */
  lemma ZeroProduct(x: int, c: int)
    requires c >= 1
    ensures x * c == 0 <==> x == 0
  {
    if x > 0 {
      MulAtLeast(x, c);
    } else if x < 0 {
      MulAtLeast(-x, c);
    }
  }

  lemma CongruentReflect(x: int, y: int, c: int, m: int)
    requires m > 0 && Congruent(x, y, m)
    ensures Congruent(c - x, c - y, m)
  {
    var k := x / m - y / m;
    assert x == (x / m) * m + x % m && y == (y / m) * m + y % m;
    assert k * m == (x / m) * m - (y / m) * m;
    CongruentMultiple(c - x, k, m);
  }

  /** Multiplying by t * P and dividing by P * P is dividing t times the
      multiplicand by P once: one factor P cancels. */
  lemma ScaledProductQuotient(a: int, t: int, p: int)
    requires p >= 1
    ensures (a * (t * p)) / (p * p) == (a * t) / p
  {
    assert a * (t * p) == (a * t) * p;
    FloorDivScale(a * t, p, p);
  }

  /** The product of x * p and y * p, divided by p * p, is x * y. */
  lemma ScaledProductUnscaled(x: int, y: int, p: int)
    requires p >= 1
    ensures ((x * p) * (y * p)) / (p * p) == x * y
  {
    assert (x * p) * (y * p) == (x * y) * (p * p);
    DivModUnique((x * y) * (p * p), p * p, x * y, 0);
  }

  /** Scaling a nonzero number by p >= 2 changes it. */
  lemma ScalingChanges(z: int, p: int)
    requires z != 0 && p >= 2
    ensures z * p != z
  {
    assert z * p - z == z * (p - 1);
    ZeroProduct(z, p - 1);
  }
}
