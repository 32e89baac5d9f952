/** `Fyx<T, Q>`: a fixed-point number stored as a raw T that stands for
    raw / 2^Q, with its constructor and its `+`, `-`, `*` and `/` operators,
    each in a same-type and a scalar-T overload. Overflow of `+` and `-`
    wraps around, as in a release build. */
module FixedPoint {
  import opened Arithmetic
  import opened Integer
  import opened Widening

  /** The type parameters of `Fyx<T, Q>`: the representation type T and the
      number Q of fractional bits. */
  datatype Format = Format(repr: IntType, q: nat)
  {
    /** `v << Q` on T is defined only when Q < bits(T). */
    predicate Valid() {
      q < repr.Bits()
    }

    /** `Mul` and `Div` are implemented only when T: Widen, which leaves out
        u128 and i128. */
    predicate HasMulDiv() {
      Valid() && repr.HasWiden()
    }

    /** v is a value of `Fyx<T, Q>`: its raw part is a value of T. */
    predicate Holds(v: Fyx) {
      repr.Contains(v.raw)
    }
  }

  /** The raw T inside a `Fyx`. */
  datatype Fyx = Fyx(raw: int)

  /** `Fyx::new(v)`: scales the whole number v into Q-format by `v << Q`. The
      fractional bits are zero, and the raw value is v * 2^Q truncated to T,
      which is exactly v * 2^Q when that fits. */
  function New(f: Format, v: int): (r: Fyx)
    requires f.Valid() && f.repr.Contains(v)
    ensures f.Holds(r)
    ensures r.raw % Pow2(f.q) == 0
    ensures r.raw == Wrap(f.repr, v * Pow2(f.q))
    ensures f.repr.Contains(v * Pow2(f.q)) ==> r.raw == v * Pow2(f.q)
  {
    Fyx(Shl(f.repr, v, f.q))
  }

  /** `Fyx + Fyx`: adds the raw values, wrapping around on overflow. */
  function Add(f: Format, a: Fyx, b: Fyx): (r: Fyx)
    requires f.Holds(a) && f.Holds(b)
    ensures f.Holds(r)
    ensures Congruent(r.raw, a.raw + b.raw, f.repr.Modulus())
    ensures f.repr.Contains(a.raw + b.raw) ==> r.raw == a.raw + b.raw
  {
    Fyx(WrappingAdd(f.repr, a.raw, b.raw))
  }

  /** `Fyx + T`: adds the whole number t, that is t * 2^Q on the raw value. */
  function AddScalar(f: Format, a: Fyx, t: int): (r: Fyx)
    requires f.Valid() && f.Holds(a) && f.repr.Contains(t)
    ensures f.Holds(r)
    ensures r.raw == Wrap(f.repr, a.raw + t * Pow2(f.q))
  {
    WrapAddWrapped(f.repr, a.raw, t * Pow2(f.q));
    Add(f, a, New(f, t))
  }

  /** `Fyx - Fyx`: subtracts the raw values, wrapping around on overflow. */
  function Sub(f: Format, a: Fyx, b: Fyx): (r: Fyx)
    requires f.Holds(a) && f.Holds(b)
    ensures f.Holds(r)
    ensures Congruent(r.raw, a.raw - b.raw, f.repr.Modulus())
    ensures f.repr.Contains(a.raw - b.raw) ==> r.raw == a.raw - b.raw
  {
    Fyx(WrappingSub(f.repr, a.raw, b.raw))
  }

  /** `Fyx - T`: subtracts the whole number t, that is t * 2^Q on the raw value. */
  function SubScalar(f: Format, a: Fyx, t: int): (r: Fyx)
    requires f.Valid() && f.Holds(a) && f.repr.Contains(t)
    ensures f.Holds(r)
    ensures r.raw == Wrap(f.repr, a.raw - t * Pow2(f.q))
  {
    WrapSubWrapped(f.repr, a.raw, t * Pow2(f.q));
    Sub(f, a, New(f, t))
  }

  /** `Fyx * Fyx`: multiplies the widened raw values, shifts right by 2Q and
      shrinks back to T. The wide product never overflows, so the result is
      the floor of raw * raw / 2^(2Q), truncated to T. */
  function Mul(f: Format, a: Fyx, b: Fyx): (r: Fyx)
    requires f.HasMulDiv() && f.Holds(a) && f.Holds(b)
    ensures f.Holds(r)
    ensures r.raw == Wrap(f.repr, (a.raw * b.raw) / Pow2(2 * f.q))
  {
    var w := f.repr.Wider();
    WidenShrinkPaired(f.repr);
    ProductFits(f.repr, a.raw, b.raw);
    var p := WrappingMul(w, Widen(f.repr, a.raw), Widen(f.repr, b.raw));
    Fyx(Shrink(w, Shr(w, p, f.q * 2)))
  }

  /** `Fyx * T`: multiplies by `Fyx::new(t)`, whose raw value is t * 2^Q
      truncated to T. When t * 2^Q fits in T the factors 2^Q cancel once,
      leaving the floor of raw * t / 2^Q. */
  function MulScalar(f: Format, a: Fyx, t: int): (r: Fyx)
    requires f.HasMulDiv() && f.Holds(a) && f.repr.Contains(t)
    ensures f.Holds(r)
    ensures r.raw == Wrap(f.repr, (a.raw * Wrap(f.repr, t * Pow2(f.q))) / Pow2(2 * f.q))
    ensures f.repr.Contains(t * Pow2(f.q)) ==>
              r.raw == Wrap(f.repr, (a.raw * t) / Pow2(f.q))
  {
    Pow2Add(f.q, f.q);
    ScaledProductQuotient(a.raw, t, Pow2(f.q));
    Mul(f, a, New(f, t))
  }

  /** `Fyx / Fyx`: shifts both widened raw values left by Q and divides them
      in the wider type, truncating toward zero, then shrinks back to T. The
      shifts never overflow and cancel in the quotient, so the result is
      raw / raw truncated, for every Q. A zero divisor makes the wide `/`
      panic; the overflowing MIN / -1 of the wide type cannot occur. */
  function Div(f: Format, a: Fyx, b: Fyx): (r: Result<Fyx>)
    requires f.HasMulDiv() && f.Holds(a) && f.Holds(b)
    ensures r.Panic? <==> b.raw == 0
    ensures r.Panic? ==> r.fault == DivideByZero
    ensures r.Ok? ==> f.Holds(r.value) && r.value.raw == Wrap(f.repr, TruncDiv(a.raw, b.raw))
  {
    var w := f.repr.Wider();
    WidenShrinkPaired(f.repr);
    ShiftedQuotient(f.repr, a.raw, b.raw, f.q);
    var n := Shl(w, Widen(f.repr, a.raw), f.q);
    var d := Shl(w, Widen(f.repr, b.raw), f.q);
    match Divide(w, n, d)
    case Ok(quotient) => Ok(Fyx(Shrink(w, quotient)))
    case Panic(fault) => Panic(fault)
  }

  /** `Fyx / T`: divides by `Fyx::new(t)`, whose raw value s is t * 2^Q
      truncated to T. It panics exactly when s is 0, which happens for some
      nonzero t as well; otherwise the raw result is raw / s truncated. */
  function DivScalar(f: Format, a: Fyx, t: int): (r: Result<Fyx>)
    requires f.HasMulDiv() && f.Holds(a) && f.repr.Contains(t)
    ensures var s := Wrap(f.repr, t * Pow2(f.q));
      r == if s == 0 then Panic(DivideByZero) else Ok(Fyx(Wrap(f.repr, TruncDiv(a.raw, s))))
    ensures r.Panic? <==> Wrap(f.repr, t * Pow2(f.q)) == 0
    ensures r.Panic? ==> r.fault == DivideByZero
    ensures t != 0 && f.repr.Contains(t * Pow2(f.q)) ==>
              r.Ok? && r.value.raw == Wrap(f.repr, TruncDiv(a.raw, t * Pow2(f.q)))
  {
    ZeroProduct(t, Pow2(f.q));
    Div(f, a, New(f, t))
  }

  /** The product of two values of a widenable type always fits in the wider
      type: n-bit operands have a product of at most 2n bits. */
  lemma ProductFits(t: IntType, x: int, y: int)
    requires t.HasWiden() && t.Contains(x) && t.Contains(y)
    ensures t.Wider().Contains(x * y)
  {
    WiderBounds(t);
    RangeSize(t);
    if t.IsSigned() {
      SignedProductBound(x, y, -t.Min());
    } else {
      UnsignedProductBound(x, y, t.Modulus());
    }
  }

  /** `widen(x) << Q` never overflows the wider type when Q < bits(T): the
      result is x * 2^Q, zero only for x == 0, and never the wider type's MIN. */
  lemma ShiftedFits(t: IntType, x: int, q: nat)
    requires t.HasWiden() && t.Contains(x) && q < t.Bits()
    ensures t.Wider().Contains(x * Pow2(q))
    ensures x * Pow2(q) == 0 <==> x == 0
    ensures t.IsSigned() ==> x * Pow2(q) != t.Wider().Min()
  {
    var p, h := Pow2(q), t.Modulus() / 2;
    assert 1 <= p <= h by {
      ModulusIsPow2(t);
      Pow2Monotone(q, t.Bits() - 1);
    }
    assert x * p == 0 <==> x == 0 by {
      ZeroProduct(x, p);
    }
    WiderBounds(t);
    RangeSize(t);
    if t.IsSigned() {
      SignedProductBound(x, p, h);
    } else {
      assert p < t.Modulus();
      UnsignedProductBound(x, p, t.Modulus());
    }
  }

  /** Both operands of the wide division are the raw values times 2^Q, and
      the factor cancels in the truncated quotient. */
  lemma ShiftedQuotient(t: IntType, x: int, y: int, q: nat)
    requires t.HasWiden() && t.Contains(x) && t.Contains(y) && q < t.Bits()
    ensures t.Wider().Contains(x * Pow2(q)) && t.Wider().Contains(y * Pow2(q))
    ensures y * Pow2(q) == 0 <==> y == 0
    ensures t.IsSigned() ==> x * Pow2(q) != t.Wider().Min()
    ensures y != 0 ==> TruncDiv(x * Pow2(q), y * Pow2(q)) == TruncDiv(x, y)
  {
    ShiftedFits(t, x, q);
    ShiftedFits(t, y, q);
    if y != 0 {
      TruncDivScale(x, y, Pow2(q));
    }
  }
}
