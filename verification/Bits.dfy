/** Powers of two and the shifts and masks of binary numbers, all by halving. */
module Bits {

  function Pow2(n: nat): (r: nat)
    ensures r >= 1
  {
    if n == 0 then 1 else 2 * Pow2(n - 1)
  }

  lemma {:induction false} Pow2Mono(a: nat, b: nat)
    requires a <= b
    ensures Pow2(a) <= Pow2(b)
  {
    if a < b {
      Pow2Mono(a, b - 1);
    }
  }

  /** v without its low bits: v >> bits. */
  function Shift(v: nat, bits: nat): nat {
    if bits == 0 then v else Shift(v / 2, bits - 1)
  }

  /** v with its low bits cleared, as masking with a prefix mask does. */
  function ClearLow(v: nat, bits: nat): (r: nat)
    ensures r <= v < r + Pow2(bits)
  {
    if bits == 0 then v else 2 * ClearLow(v / 2, bits - 1)
  }

  /** v << bits */
  function Scale(v: nat, bits: nat): nat {
    if bits == 0 then v else 2 * Scale(v, bits - 1)
  }

  /** The low bits of v are all zero. */
  predicate Aligned(v: nat, bits: nat) {
    bits == 0 || (v % 2 == 0 && Aligned(v / 2, bits - 1))
  }

  lemma {:induction false} ClearLowAligned(v: nat, bits: nat)
    ensures Aligned(ClearLow(v, bits), bits)
    ensures Aligned(v, bits) <==> ClearLow(v, bits) == v
    ensures ClearLow(v, bits) == Scale(Shift(v, bits), bits)
  {
    if bits > 0 {
      ClearLowAligned(v / 2, bits - 1);
    }
  }

  lemma {:induction false} AlignedLess(v: nat, bits: nat)
    requires Aligned(v, bits + 1)
    ensures Aligned(v, bits)
  {
    if bits > 0 {
      AlignedLess(v / 2, bits - 1);
    }
  }

  /** Agreeing above the low bits with an aligned v is lying in the block that starts at v. */
  lemma {:induction false} SameShiftIsBlock(v: nat, x: nat, bits: nat)
    requires Aligned(v, bits)
    ensures Shift(x, bits) == Shift(v, bits) <==> v <= x < v + Pow2(bits)
  {
    if bits > 0 {
      SameShiftIsBlock(v / 2, x / 2, bits - 1);
    }
  }

  lemma {:induction false} ShiftShift(v: nat, a: nat, b: nat)
    ensures Shift(Shift(v, a), b) == Shift(v, a + b)
  {
    if a > 0 {
      ShiftShift(v / 2, a - 1, b);
    }
  }

  /** An aligned number below 2^top leaves room for its whole block; v are bits above top. */
  lemma {:induction false} RoomForBlock(v: nat, low: nat, top: nat, bits: nat)
    requires bits <= top && low < Pow2(top) && Aligned(Scale(v, top) + low, bits)
    ensures low + Pow2(bits) <= Pow2(top)
  {
    if bits > 0 {
      assert (Scale(v, top) + low) / 2 == Scale(v, top - 1) + low / 2;
      RoomForBlock(v, low / 2, top - 1, bits - 1);
    }
  }

  lemma {:induction false} ScaleZero(n: nat)
    ensures Scale(0, n) == 0
  {
    if n > 0 {
      ScaleZero(n - 1);
    }
  }

  lemma Powers()
    ensures Pow2(8) == 256 && Pow2(32) == 0x1_0000_0000
  {
    assert Pow2(12) == 4096 && Pow2(16) == 65536 && Pow2(20) == 0x10_0000;
    assert Pow2(24) == 0x100_0000 && Pow2(28) == 0x1000_0000;
  }

  lemma {:induction false} Pow2Add(a: nat, b: nat)
    ensures Pow2(a + b) == Scale(Pow2(b), a)
  {
    if a > 0 {
      Pow2Add(a - 1, b);
    }
  }

  /** Shifting away a low part, and what alignment beyond it says. */
  lemma {:induction false} ShiftPart(v: nat, low: nat, part: nat)
    requires low < Pow2(part)
    ensures Shift(Scale(v, part) + low, part) == v
  {
    if part > 0 {
      assert (Scale(v, part) + low) / 2 == Scale(v, part - 1) + low / 2;
      ShiftPart(v, low / 2, part - 1);
    }
  }

  lemma {:induction false} AlignedPart(v: nat, low: nat, part: nat, bits: nat)
    requires low < Pow2(part) && bits >= part && Aligned(Scale(v, part) + low, bits)
    ensures low == 0 && Aligned(v, bits - part)
  {
    if part > 0 {
      assert (Scale(v, part) + low) / 2 == Scale(v, part - 1) + low / 2;
      AlignedPart(v, low / 2, part - 1, bits - 1);
    }
  }

  lemma ScaleByte(v: nat)
    ensures Scale(v, 8) == 256 * v
  {
    assert Scale(v, 1) == 2 * v;
    assert Scale(v, 3) == 8 * v;
    assert Scale(v, 5) == 32 * v;
    assert Scale(v, 7) == 128 * v;
  }

  /** Alignment up to a part depends on that part alone. */
  lemma {:induction false} AlignedWithinPart(v: nat, w: nat, low: nat, part: nat, bits: nat)
    requires low < Pow2(part) && bits <= part
    ensures Aligned(Scale(v, part) + low, bits) <==> Aligned(Scale(w, part) + low, bits)
  {
    if bits > 0 {
      assert (Scale(v, part) + low) / 2 == Scale(v, part - 1) + low / 2;
      assert (Scale(w, part) + low) / 2 == Scale(w, part - 1) + low / 2;
      AlignedWithinPart(v, w, low / 2, part - 1, bits - 1);
    }
  }

  lemma HalfOfDouble(x: nat)
    ensures (2 * x) % 2 == 0 && (2 * x) / 2 == x
  {
  }

  lemma {:induction false} AlignedBeyondPart(v: nat, part: nat, bits: nat)
    requires bits >= part && Aligned(v, bits - part)
    ensures Aligned(Scale(v, part), bits)
  {
    if part > 0 {
      AlignedBeyondPart(v, part - 1, bits - 1);
      HalfOfDouble(Scale(v, part - 1));
    }
  }
}
