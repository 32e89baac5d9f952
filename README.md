# fyx: fixed-point numbers over machine integers, in Dafny

The Rust crate `fyx` defines `Fyx<T, Q>`, a fixed-point number stored as one
raw machine integer of type `T` (u8 to u128, i8 to i128) that stands for
`raw / 2^Q`. It has a constructor `new(v) = v << Q` and the operators `+`,
`-`, `*` and `/`, each between two `Fyx` values and between a `Fyx` and a
plain `T`. Multiply and divide work in the next wider integer type through the
`Widen`/`Shrink` pair that the `integer!` macro generates for the width chain.

The model takes the crate's own form: every Rust function is a single
expression over `Copy` values, so every operation is a Dafny `function` over
mathematical integers, and the machine semantics are written out:

- `Integer` (integer.dfy) holds the closed table of the ten representation
  types with their widths, ranges and `Widen`/`Shrink` partners. It also holds
  the Rust operators the crate uses:
  - `as` casts, as two's complement truncation (`Wrap`);
  - wrapping `+`, `-` and `*`;
  - `<<`, which drops the high bits;
  - `>>`, which is floor division by `2^s` on a value of the type;
  - `/`, which truncates toward zero and panics on a zero divisor and on
    signed `MIN / -1`. A panic is a `Panic(fault)` value of a `Result`.
- `Widening` (widening.dfy) holds `widen` and `shrink` and their round trips.
- `FixedPoint` (fixed_point.dfy) holds the `Format` (the pair `T`, `Q`), the
  `Fyx` value and the eight operator overloads with `new`. Each operator is
  defined by the same chain of integer operations as its Rust body. Its
  contract states the value the chain computes.
- `FixedPointProperties` (fixed_point_properties.dfy) relates the operators:
  - the additive identity, and subtraction undoing addition;
  - what the multiply and divide scalings compute;
  - the division panics;
  - concrete results for i32 with Q = 8.
- `Arithmetic` (arithmetic.dfy) holds powers of two, truncating division,
  congruence modulo m, and the nonlinear facts the proofs rely on.

Multiply and divide are modelled exactly as written, not as conventional
Q-format arithmetic:

- `*` shifts the wide product right by `2Q`. For two values built by `new`
  from whole numbers x and y, when x * 2^Q and y * 2^Q fit in T, the result
  is the plain product x * y truncated to T (`MulOfWholeNumbers`).
  Whenever it differs from zero and Q > 0, that is not `new` of the product
  (`MulIsNotQScaled`).
- `/` shifts both operands left by `Q`. The shifts cancel, so the result is
  the truncated quotient of the raw values whatever Q is (`DivIndependentOfQ`).

Both are proved as facts about the code, not reported as defects.

The width chain has four links per signedness, u8→u16→u32→u64→u128 and
i8→i16→i32→i64→i128 (src/lib.rs:44-45). The model follows that chain.

## Model

| member | source | states |
|---|---|---|
| Integer.IntType.Wider | src/lib.rs:44-45 | the `Widen::Assoc` of a type has twice its bits and the same signedness, and itself has a `Shrink` |
| Integer.IntType.Narrower | src/lib.rs:44-45 | the `Shrink::Assoc` of a type has half its bits and the same signedness, and itself has a `Widen` |
| Integer.WidenShrinkPaired | src/lib.rs:47-57 | `Widen::Assoc` and `Shrink::Assoc` are inverse: the wider type shrinks back to the type, and the narrower type widens back to it |
| Integer.Wrap | src/lib.rs:23-35 | the `as` cast of `widen` and `shrink`: two's complement truncation gives a value of the type, congruent to the input modulo 2^bits, and equal to the input when the input is in range |
| Integer.WrapUnique | src/lib.rs:32-35 | the truncated value is the only value of the type congruent to the input modulo 2^bits |
| Integer.WrappingAdd | src/lib.rs:75 | `+` on T returns a value of T congruent to the sum, and the exact sum when it fits |
| Integer.WrappingSub | src/lib.rs:93 | `-` on T returns a value of T congruent to the difference, and the exact difference when it fits |
| Integer.WrappingMul | src/lib.rs:111 | `*` on T returns a value of T congruent to the product, and the exact product when it fits |
| Integer.Shl | src/lib.rs:66 | `x << s` with s < bits gives the value of T congruent to x * 2^s modulo 2^bits (the high bits are dropped); its low s bits are zero, and it is x * 2^s exactly when that fits |
| Integer.Shr | src/lib.rs:111 | `x >> s` gives the value r of T with r * 2^s <= x < (r + 1) * 2^s, i.e. floor division by 2^s |
| Integer.Divide | src/lib.rs:129 | `/` panics exactly on a zero divisor (DivideByZero) or signed MIN / -1 (DivideOverflow); otherwise it returns the quotient truncated toward zero, a value of T |
| Widening.WiderBounds | src/lib.rs:44-45 | the wider type's modulus is the square of the narrow one; a signed wider type spans [-2h^2, 2h^2 - 1] with h = -MIN |
| Widening.WiderContains | src/lib.rs:23-25 | every value of a widenable type is a value of its wider type |
| Widening.Widen | src/lib.rs:23-25 | `widen` returns a value of the wider type equal to its input: it is lossless |
| Widening.Shrink | src/lib.rs:32-35 | `shrink` returns a value of the narrower type congruent to its input, and returns the input unchanged exactly when it fits in the narrower type |
| Widening.ShrinkWiden | src/lib.rs:23-35 | `shrink(widen(x)) == x` for every value x of every widenable type |
| Widening.WidenShrink | src/lib.rs:23-35 | `widen(shrink(y)) == y` holds exactly when y is in range of the narrower type |
| Widening.ShrinkTruncates | src/lib.rs:33-34 | `shrink` loses information silently: u16 256 shrinks to u8 0, and i16 128 shrinks to i8 -128 |
| FixedPoint.New | src/lib.rs:65-67 | `new(v)` has zero fractional bits and raw value v * 2^Q truncated to T, which is exactly v * 2^Q when that fits |
| FixedPoint.Add | src/lib.rs:74-76 | the raw result is a value of T congruent to the sum of the raw values, and that sum when it fits |
| FixedPoint.AddScalar | src/lib.rs:83-85 | `v + t` has raw value v.raw + t * 2^Q truncated to T |
| FixedPoint.Sub | src/lib.rs:92-94 | the raw result is a value of T congruent to the difference of the raw values, and that difference when it fits |
| FixedPoint.SubScalar | src/lib.rs:101-103 | `v - t` has raw value v.raw - t * 2^Q truncated to T |
| FixedPoint.Mul | src/lib.rs:110-112 | the raw result is floor(a.raw * b.raw / 2^(2Q)) truncated to T, computed without overflow in the wider type |
| FixedPoint.MulScalar | src/lib.rs:119-121 | `v * t` has raw value floor(v.raw * s / 2^(2Q)) truncated to T, where s is t * 2^Q truncated to T; when t * 2^Q fits, that is floor(v.raw * t / 2^Q) truncated to T |
| FixedPoint.Div | src/lib.rs:128-130 | panics (division by zero) exactly when the divisor's raw value is 0; otherwise the raw result is the truncated quotient of the raw values, truncated to T |
| FixedPoint.DivScalar | src/lib.rs:137-139 | with s the raw value t * 2^Q truncated to T: `v / t` panics with a division by zero exactly when s is 0, and otherwise has raw value v.raw / s truncated toward zero, truncated to T |
| FixedPoint.ProductFits | src/lib.rs:111 | the product of two values of a widenable type always fits in the wider type |
| FixedPoint.ShiftedFits | src/lib.rs:129 | `widen(x) << Q` with Q < bits never overflows the wider type, is zero only for x == 0, and is never the wider MIN |
| FixedPoint.ShiftedQuotient | src/lib.rs:129 | the two shifted operands of the wide division fit, the divisor is zero only when the raw divisor is, and the factor 2^Q cancels in the truncated quotient |
| FixedPointProperties.NewZero | src/lib.rs:66 | `new(0)` has raw value 0 |
| FixedPointProperties.AddIdentity | src/lib.rs:74-76 | `new(0) + v == v` and `v + new(0) == v` |
| FixedPointProperties.AddCommutes | src/lib.rs:74-76 | `v + w == w + v` |
| FixedPointProperties.SubUndoesAdd | src/lib.rs:74-94 | `(v + w) - w == v` for all v and w, whether or not the sum overflows |
| FixedPointProperties.AddUndoesSub | src/lib.rs:74-94 | `(v - w) + w == v` for all v and w, whether or not the difference overflows |
| FixedPointProperties.MulOfWholeNumbers | src/lib.rs:111 | when x * 2^Q and y * 2^Q fit in T, `new(x) * new(y)` has raw value x * y truncated to T: the 2Q shift removes both factors 2^Q |
| FixedPointProperties.MulIsNotQScaled | src/lib.rs:111 | for Q > 0 and a nonzero product whose scaled value fits, `new(x) * new(y)` differs from `new(x * y)` |
| FixedPointProperties.DivOfWholeNumbers | src/lib.rs:129 | when x * 2^Q and y * 2^Q fit in T and y != 0, `new(x) / new(y)` has raw value x / y truncated toward zero, so it stands for (x / y) / 2^Q |
| FixedPointProperties.DivIndependentOfQ | src/lib.rs:129 | the result of `/` on given raw values is the same for every Q |
| FixedPointProperties.DivMinByMinusOne | src/lib.rs:129 | for signed T, MIN / -1 does not panic and gives MIN back |
| FixedPointProperties.DivByZeroPanics | src/lib.rs:129 | dividing by a zero raw value panics with a division by zero, whatever the dividend |
| FixedPointProperties.DivScalarByVanishingScalar | src/lib.rs:137-139 | with u8 and Q = 1, `v / 128` panics for every v, because new(128) truncates to 0 |
| FixedPointProperties.NewExample | src/lib.rs:65-67 | with i32 and Q = 8, new(2), new(3) and new(6) have raw values 512, 768 and 1536 |
| FixedPointProperties.MulExample | src/lib.rs:110-112 | with i32 and Q = 8, `new(3) * new(2)` has raw value 6 |
| FixedPointProperties.DivExample | src/lib.rs:128-130 | with i32 and Q = 8, `new(6) / new(2)` has raw value 3 |
| FixedPointProperties.NoMulDivAt128Bits | src/lib.rs:39-45 | u128 and i128 have no `Widen`, so no `*` or `/` |

## Left out

- Overflow panics of debug builds: `+`, `-` and the wide `*` always wrap, as in a release build.
- Masking of oversized shift amounts in release builds: every format requires Q < bits(T) (`Format.Valid`), where `v << Q` is defined.
- The `Integer`, `Widen` and `Shrink` traits, the `integer!` macro recursion and the `min_const_generics` feature. They become a closed table (`IntType`) with the predicates `HasWiden` and `HasShrink`.
- The compile-time absence of `*` and `/` for 128-bit types. It becomes the precondition `Format.HasMulDiv`, not a compile error.
- `#[repr(transparent)]`, the `Clone`/`Copy` derives and `#[inline]`: they describe layout and performance, not behaviour.
- A panic is modelled as a returned `Panic` value, not as unwinding.
- The `usize` arithmetic `Q * 2` in the shift amount. It cannot overflow, because Q < 128.

