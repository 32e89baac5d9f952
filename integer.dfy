/** The ten machine integer types that can back a fixed-point value, and the
    Rust operators on them that the fixed-point operators use: `as` casts,
    `+`, `-`, `*` (with wrapping overflow), `<<`, `>>` and `/`. */
module Integer {
  import opened Arithmetic

  /** The closed set of representation types: u8 to u128 and i8 to i128. */
  datatype IntType = U8 | U16 | U32 | U64 | U128 | I8 | I16 | I32 | I64 | I128
  {
    function Bits(): (n: nat)
      ensures n >= 8
    {
      match this
      case U8 | I8 => 8
      case U16 | I16 => 16
      case U32 | I32 => 32
      case U64 | I64 => 64
      case U128 | I128 => 128
    }

    predicate IsSigned() {
      this.I8? || this.I16? || this.I32? || this.I64? || this.I128?
    }

    /** 2^bits: the number of distinct values of the type. */
    function Modulus(): int {
      match this
      case U8 | I8 => 0x100
      case U16 | I16 => 0x1_0000
      case U32 | I32 => 0x1_0000_0000
      case U64 | I64 => 0x1_0000_0000_0000_0000
      case U128 | I128 => 0x1_0000_0000_0000_0000_0000_0000_0000_0000
    }

    /** Smallest value: 0, or -2^(bits-1) in two's complement. */
    function Min(): int {
      if IsSigned() then -(Modulus() / 2) else 0
    }

    /** Largest value: 2^bits - 1, or 2^(bits-1) - 1 in two's complement. */
    function Max(): int {
      if IsSigned() then Modulus() / 2 - 1 else Modulus() - 1
    }

    predicate Contains(x: int) {
      Min() <= x <= Max()
    }

    /** Every type except the 128-bit ones has a `Widen` implementation. */
    predicate HasWiden() {
      this != U128 && this != I128
    }

    /** Every type except the 8-bit ones has a `Shrink` implementation. */
    predicate HasShrink() {
      this != U8 && this != I8
    }

    /** The `Widen::Assoc` type: the next larger width of the same signedness. */
    function Wider(): (w: IntType)
      requires HasWiden()
      ensures w.Bits() == 2 * Bits() && w.IsSigned() == IsSigned()
      ensures w.HasShrink()
    {
      match this
      case U8 => U16
      case U16 => U32
      case U32 => U64
      case U64 => U128
      case I8 => I16
      case I16 => I32
      case I32 => I64
      case I64 => I128
    }

    /** The `Shrink::Assoc` type: the next smaller width of the same signedness. */
    function Narrower(): (s: IntType)
      requires HasShrink()
      ensures 2 * s.Bits() == Bits() && s.IsSigned() == IsSigned()
      ensures s.HasWiden()
    {
      match this
      case U16 => U8
      case U32 => U16
      case U64 => U32
      case U128 => U64
      case I16 => I8
      case I32 => I16
      case I64 => I32
      case I128 => I64
    }
  }

  /** The range of a type holds exactly Modulus() consecutive integers. */
  lemma RangeSize(t: IntType)
    ensures t.Max() - t.Min() + 1 == t.Modulus()
    ensures t.Min() <= 0 < t.Max()
  {
  }

  /** The modulus is 2^bits, and a signed type starts at -2^(bits-1). */
  lemma ModulusIsPow2(t: IntType)
    ensures t.Modulus() == Pow2(t.Bits()) == 2 * Pow2(t.Bits() - 1)
    ensures t.IsSigned() ==> t.Min() == -Pow2(t.Bits() - 1)
  {
    Pow2Values();
  }

  /** The widen/shrink pairing of the width table: `Widen::Assoc` implements
      `Shrink` with `Assoc = Self`, and the other way round. */
  lemma WidenShrinkPaired(t: IntType)
    ensures t.HasWiden() ==> t.Wider().Narrower() == t
    ensures t.HasShrink() ==> t.Narrower().Wider() == t
  {
    match t
    case U8 => case U16 => case U32 => case U64 => case U128 =>
    case I8 => case I16 => case I32 => case I64 => case I128 =>
  }

  /** Two's complement truncation of a mathematical integer to the width of t:
      keeps the low bits(t) bits and reinterprets them in t. This is what the
      integer cast `x as t` does. */
  function Wrap(t: IntType, x: int): (r: int)
    ensures t.Contains(r)
    ensures Congruent(r, x, t.Modulus())
    ensures t.Contains(x) ==> r == x
  {
    WrapFacts(t, x);
    (x - t.Min()) % t.Modulus() + t.Min()
  }

  lemma WrapFacts(t: IntType, x: int)
    ensures var r := (x - t.Min()) % t.Modulus() + t.Min();
      t.Contains(r) && Congruent(r, x, t.Modulus()) && (t.Contains(x) ==> r == x)
  {
    RangeSize(t);
    ModWindow(x, t.Min(), t.Modulus());
  }

  /** Wrap is the only value of the type congruent to x modulo 2^bits. */
  lemma WrapUnique(t: IntType, x: int, y: int)
    requires t.Contains(y) && Congruent(x, y, t.Modulus())
    ensures Wrap(t, x) == y
  {
    RangeSize(t);
    var m := t.Modulus();
    CongruentShift(x, y, -t.Min(), m);
    DivModUnique(y - t.Min(), m, 0, y - t.Min());
  }

  /** Congruent inputs wrap to the same value. */
  lemma WrapCongruent(t: IntType, x: int, y: int)
    requires Congruent(x, y, t.Modulus())
    ensures Wrap(t, x) == Wrap(t, y)
  {
    WrapUnique(t, x, Wrap(t, y));
  }

  /** Wrapping an operand of a sum first does not change the wrapped sum. */
  lemma WrapAddWrapped(t: IntType, c: int, x: int)
    ensures Wrap(t, c + Wrap(t, x)) == Wrap(t, c + x)
  {
    CongruentShift(Wrap(t, x), x, c, t.Modulus());
    WrapCongruent(t, Wrap(t, x) + c, x + c);
  }

  /** Wrapping the subtrahend first does not change the wrapped difference. */
  lemma WrapSubWrapped(t: IntType, c: int, x: int)
    ensures Wrap(t, c - Wrap(t, x)) == Wrap(t, c - x)
  {
    CongruentReflect(Wrap(t, x), x, c, t.Modulus());
    WrapCongruent(t, c - Wrap(t, x), c - x);
  }

  /** `x + y` on t, with wrapping overflow. */
  function WrappingAdd(t: IntType, x: int, y: int): (r: int)
    ensures t.Contains(r) && Congruent(r, x + y, t.Modulus())
    ensures t.Contains(x + y) ==> r == x + y
  {
    Wrap(t, x + y)
  }

  /** `x - y` on t, with wrapping overflow. */
  function WrappingSub(t: IntType, x: int, y: int): (r: int)
    ensures t.Contains(r) && Congruent(r, x - y, t.Modulus())
    ensures t.Contains(x - y) ==> r == x - y
  {
    Wrap(t, x - y)
  }

  /** `x * y` on t, with wrapping overflow. */
  function WrappingMul(t: IntType, x: int, y: int): (r: int)
    ensures t.Contains(r) && Congruent(r, x * y, t.Modulus())
    ensures t.Contains(x * y) ==> r == x * y
  {
    Wrap(t, x * y)
  }

  /** `x << s` on t: bits shifted past the top are lost, and the low s bits
      of the result are zero. */
  function Shl(t: IntType, x: int, s: nat): (r: int)
    requires s < t.Bits()
    ensures t.Contains(r)
    ensures Congruent(r, x * Pow2(s), t.Modulus())
    ensures r % Pow2(s) == 0
    ensures t.Contains(x * Pow2(s)) ==> r == x * Pow2(s)
  {
    var r := Wrap(t, x * Pow2(s));
    ModulusIsPow2(t);
    Pow2Add(s, t.Bits() - s);
    CongruentDivisor(r, x * Pow2(s), Pow2(s), Pow2(t.Bits() - s));
    CongruentMultiple(0, x, Pow2(s));
    r
  }

  /** `x >> s` on t: an arithmetic shift on signed types and a logical one on
      unsigned types; on a value of t both are floor division by 2^s. */
  function Shr(t: IntType, x: int, s: nat): (r: int)
    requires s < t.Bits() && t.Contains(x)
    ensures t.Contains(r)
    ensures r * Pow2(s) <= x < (r + 1) * Pow2(s)
  {
    FloorDivBounds(x, Pow2(s));
    FloorDivEnclosed(x, Pow2(s));
    RangeSize(t);
    x / Pow2(s)
  }

  /** Why Rust's `/` panics. */
  datatype Fault = DivideByZero | DivideOverflow

  /** The outcome of an operation that may panic. */
  datatype Result<+T> = Ok(value: T) | Panic(fault: Fault)

  /** `x / y` on t: truncates toward zero, and panics on a zero divisor and
      on the one quotient that overflows, MIN / -1 of a signed type. */
  function Divide(t: IntType, x: int, y: int): (r: Result<int>)
    requires t.Contains(x) && t.Contains(y)
    ensures r.Panic? <==> y == 0 || (t.IsSigned() && x == t.Min() && y == -1)
    ensures r == Panic(DivideByZero) <==> y == 0
    ensures r.Ok? ==> t.Contains(r.value)
    ensures r.Ok? ==> r.value == TruncDiv(x, y)
  {
    if y == 0 then
      Panic(DivideByZero)
    else if t.IsSigned() && x == t.Min() && y == -1 then
      Panic(DivideOverflow)
    else
      QuotientFits(t, x, y);
      Ok(TruncDiv(x, y))
  }

  lemma QuotientFits(t: IntType, x: int, y: int)
    requires t.Contains(x) && t.Contains(y) && y != 0
    requires !(t.IsSigned() && x == t.Min() && y == -1)
    ensures t.Contains(TruncDiv(x, y))
  {
    TruncDivMagnitude(x, y);
    RangeSize(t);
  }
}
