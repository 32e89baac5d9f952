/** The `Widen` and `Shrink` traits of the width table: each type but the
    128-bit ones converts to the next larger width of the same signedness, and
    each type but the 8-bit ones converts back to the next smaller one. */
module Widening {
  import opened Arithmetic
  import opened Integer

  /** The wider type has twice the bits: its modulus is the square of the
      narrow one, and for a signed type its bounds are -2h^2 and 2h^2 - 1
      where h = -MIN = 2^(bits - 1). */
  lemma WiderBounds(t: IntType)
    requires t.HasWiden()
    ensures t.Wider().Modulus() == t.Modulus() * t.Modulus()
    ensures t.IsSigned() ==> var h := -t.Min();
      t.Wider().Min() == -2 * (h * h) && t.Wider().Max() == 2 * (h * h) - 1
  {
    var m := t.Modulus();
    assert t.Wider().Modulus() == m * m by {
      match t
      case U8 | I8 => case U16 | I16 => case U32 | I32 => case U64 | I64 =>
    }
    if t.IsSigned() {
      var h := -t.Min();
      assert m == 2 * h;
      assert t.Wider().Min() == -(m * m) / 2;
    }
  }

  /** Every value of t is a value of its wider type. */
  lemma WiderContains(t: IntType, x: int)
    requires t.HasWiden() && t.Contains(x)
    ensures t.Wider().Contains(x)
  {
    match t
    case U8 => case U16 => case U32 => case U64 =>
    case I8 => case I16 => case I32 => case I64 =>
  }

  /** `Widen::widen` for t (`self as` the wider type): lossless. */
  function Widen(t: IntType, x: int): (r: int)
    requires t.HasWiden() && t.Contains(x)
    ensures t.Wider().Contains(r)
    ensures r == x
  {
    WiderContains(t, x);
    Wrap(t.Wider(), x)
  }

  /** `Shrink::shrink` for w (`self as` the narrower type): keeps the low bits,
      so it is the identity exactly on the values the narrower type holds and
      silently truncates the others. */
  function Shrink(w: IntType, y: int): (r: int)
    requires w.HasShrink() && w.Contains(y)
    ensures w.Narrower().Contains(r)
    ensures Congruent(r, y, w.Narrower().Modulus())
    ensures r == y <==> w.Narrower().Contains(y)
  {
    Wrap(w.Narrower(), y)
  }

  /** Shrinking a widened value gives the value back, for every widenable type. */
  lemma ShrinkWiden(t: IntType, x: int)
    requires t.HasWiden() && t.Contains(x)
    ensures Shrink(t.Wider(), Widen(t, x)) == x
  {
    WidenShrinkPaired(t);
  }

  /** Widening a shrunk value gives the value back exactly when it was in range
      of the narrower type. */
  lemma WidenShrink(w: IntType, y: int)
    requires w.HasShrink() && w.Contains(y)
    ensures Widen(w.Narrower(), Shrink(w, y)) == y <==> w.Narrower().Contains(y)
  {
  }

  /** Shrinking loses information: 256 as a u16 shrinks to 0 as a u8, and
      128 as an i16 shrinks to -128 as an i8. */
  lemma ShrinkTruncates()
    ensures Shrink(U16, 256) == 0
    ensures Shrink(I16, 128) == -128
  {
    assert Shrink(U16, 256) == 0 by {
      WrapUnique(U8, 256, 0);
    }
    assert Shrink(I16, 128) == -128 by {
      assert Congruent(128, -128, 256);
      WrapUnique(I8, 128, -128);
    }
  }
}
