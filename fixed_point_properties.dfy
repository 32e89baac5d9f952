/** Properties of `Fyx<T, Q>` that relate several operations: the additive
    identity, subtraction undoing addition, the scalar overloads, what the
    multiply and divide scalings compute, and concrete results for i32, Q = 8. */
module FixedPointProperties {
  import opened Arithmetic
  import opened Integer
  import opened Widening
  import opened FixedPoint

  /** `new(0)` has raw value 0. */
  lemma NewZero(f: Format)
    requires f.Valid()
    ensures New(f, 0) == Fyx(0)
  {
    RangeSize(f.repr);
  }

  /** `new(0)` is an identity for `+` on both sides. */
  lemma AddIdentity(f: Format, v: Fyx)
    requires f.Valid() && f.Holds(v)
    ensures Add(f, New(f, 0), v) == v
    ensures Add(f, v, New(f, 0)) == v
  {
    NewZero(f);
  }

  lemma AddCommutes(f: Format, v: Fyx, w: Fyx)
    requires f.Holds(v) && f.Holds(w)
    ensures Add(f, v, w) == Add(f, w, v)
  {
  }

  /** Under wrapping, `(v + w) - w == v` for all v and w, overflow or not. */
  lemma SubUndoesAdd(f: Format, v: Fyx, w: Fyx)
    requires f.Holds(v) && f.Holds(w)
    ensures Sub(f, Add(f, v, w), w) == v
  {
    WrapAddWrapped(f.repr, -w.raw, v.raw + w.raw);
  }

  /** Under wrapping, `(v - w) + w == v` for all v and w, overflow or not. */
  lemma AddUndoesSub(f: Format, v: Fyx, w: Fyx)
    requires f.Holds(v) && f.Holds(w)
    ensures Add(f, Sub(f, v, w), w) == v
  {
    WrapAddWrapped(f.repr, w.raw, v.raw - w.raw);
  }

  /** The product of two whole numbers x and y built by `new` has raw value
      x * y (truncated to T): the 2Q shift removes both factors 2^Q, so the
      result stands for x * y / 2^Q, not for x * y. */
  lemma MulOfWholeNumbers(f: Format, x: int, y: int)
    requires f.HasMulDiv() && f.repr.Contains(x) && f.repr.Contains(y)
    requires f.repr.Contains(x * Pow2(f.q)) && f.repr.Contains(y * Pow2(f.q))
    ensures Mul(f, New(f, x), New(f, y)).raw == Wrap(f.repr, x * y)
  {
    Pow2Add(f.q, f.q);
    ScaledProductUnscaled(x, y, Pow2(f.q));
  }

  /** So the literal multiply differs from Q-format multiplication, whose
      product of new(x) and new(y) is new(x * y): whenever Q > 0 and x * y is a
      nonzero whole number whose scaled value fits in T. */
  lemma MulIsNotQScaled(f: Format, x: int, y: int)
    requires f.HasMulDiv() && f.q > 0 && x * y != 0
    requires f.repr.Contains(x) && f.repr.Contains(y) && f.repr.Contains(x * y)
    requires f.repr.Contains(x * Pow2(f.q)) && f.repr.Contains(y * Pow2(f.q))
    requires f.repr.Contains((x * y) * Pow2(f.q))
    ensures Mul(f, New(f, x), New(f, y)) != New(f, x * y)
  {
    MulOfWholeNumbers(f, x, y);
    Pow2Monotone(1, f.q);
    ScalingChanges(x * y, Pow2(f.q));
  }

  /** The quotient of two whole numbers x and y built by `new` has raw value
      x / y truncated: the result stands for (x / y) / 2^Q. */
  lemma DivOfWholeNumbers(f: Format, x: int, y: int)
    requires f.HasMulDiv() && f.repr.Contains(x) && f.repr.Contains(y) && y != 0
    requires f.repr.Contains(x * Pow2(f.q)) && f.repr.Contains(y * Pow2(f.q))
    ensures Div(f, New(f, x), New(f, y)) == Ok(Fyx(Wrap(f.repr, TruncDiv(x, y))))
  {
    ZeroProduct(y, Pow2(f.q));
    TruncDivScale(x, y, Pow2(f.q));
  }

  /** The quotient computed by `/` does not depend on Q. */
  lemma DivIndependentOfQ(t: IntType, q1: nat, q2: nat, a: Fyx, b: Fyx)
    requires Format(t, q1).HasMulDiv() && Format(t, q2).HasMulDiv()
    requires t.Contains(a.raw) && t.Contains(b.raw)
    ensures Div(Format(t, q1), a, b) == Div(Format(t, q2), a, b)
  {
  }

  /** For a signed type, MIN / -1 does not trap: the wide quotient 2^(bits-1)
      fits in the wider type and shrinks back to MIN. */
  lemma DivMinByMinusOne(f: Format)
    requires f.HasMulDiv() && f.repr.IsSigned()
    ensures Div(f, Fyx(f.repr.Min()), Fyx(-1)) == Ok(Fyx(f.repr.Min()))
  {
    var t, h := f.repr, -f.repr.Min();
    RangeSize(t);
    assert TruncDiv(-h, -1) == h by {
      TruncDivMagnitude(-h, -1);
    }
    assert Wrap(t, h) == -h by {
      CongruentMultiple(-h, 1, t.Modulus());
      WrapUnique(t, h, -h);
    }
  }

  /** A zero divisor panics with a division by zero for every dividend. */
  lemma DivByZeroPanics(f: Format, a: Fyx)
    requires f.HasMulDiv() && f.Holds(a)
    ensures Div(f, a, Fyx(0)) == Panic(DivideByZero)
  {
    RangeSize(f.repr);
  }

  /** `v / t` panics for a nonzero t whose scaled value truncates to 0: with
      u8 and Q = 1, new(128) has raw value 256 truncated, which is 0, so every
      `v / 128` panics. */
  lemma DivScalarByVanishingScalar(f: Format, v: Fyx)
    requires f.repr == U8 && f.q == 1 && f.Holds(v)
    ensures f.HasMulDiv()
    ensures DivScalar(f, v, 128) == Panic(DivideByZero)
  {
    assert Pow2(f.q) == 2;
    WrapUnique(U8, 256, 0);
  }

  /** i32 with Q = 8: new(2), new(3) and new(6) have raw values 512, 768
      and 1536. */
  lemma NewExample(f: Format)
    requires f.repr == I32 && f.q == 8
    ensures f.HasMulDiv()
    ensures New(f, 2) == Fyx(512) && New(f, 3) == Fyx(768) && New(f, 6) == Fyx(1536)
  {
    assert Pow2(f.q) == 0x100;
  }

  /** i32 with Q = 8: new(3) * new(2) has raw value (768 * 512) >> 16 = 6. */
  lemma MulExample(f: Format)
    requires f.repr == I32 && f.q == 8
    ensures f.HasMulDiv() && Mul(f, New(f, 3), New(f, 2)) == Fyx(6)
  {
    assert Pow2(f.q) == 0x100;
    assert f.repr.Contains(3 * 0x100) && f.repr.Contains(2 * 0x100);
    MulOfWholeNumbers(f, 3, 2);
    assert f.repr.Contains(6);
  }

  /** i32 with Q = 8: new(6) / new(2) has raw value 1536 / 512 = 3. */
  lemma DivExample(f: Format)
    requires f.repr == I32 && f.q == 8
    ensures f.HasMulDiv() && Div(f, New(f, 6), New(f, 2)) == Ok(Fyx(3))
  {
    NewExample(f);
    assert TruncDiv(1536, 512) == 3 by {
      DivModUnique(1536, 512, 3, 0);
    }
    assert f.repr.Contains(3);
  }

  /** Multiply and divide need `Widen`, which the 128-bit types lack. */
  lemma NoMulDivAt128Bits(q: nat)
    ensures !Format(U128, q).HasMulDiv() && !Format(I128, q).HasMulDiv()
  {
  }
}
