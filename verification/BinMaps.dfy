/** The 32-bit bin maps: one bit per bin, set exactly when the bin holds a chunk. */
module BinMaps {
  import opened Words

  /** All bins below 32 and their bits. */
  predicate Marked(m: U32, i: nat) {
    Bit(m, i)
  }

  function MarkBit(m: U32, i: nat): (r: U32)
    requires i < 32
    ensures forall j: nat :: j < 32 ==> Marked(r, j) == (Marked(m, j) || j == i)
  {
    OrBelow32(m, Pow2(i), i);
    Or(m, Pow2(i))
  }

  function ClearBit(m: U32, i: nat): (r: U32)
    requires i < 32
    ensures forall j: nat :: j < 32 ==> Marked(r, j) == (Marked(m, j) && j != i)
  {
    ClearBits(m, i);
    And(m, MAX_U32 - Pow2(i))
  }

  /** The test smallmap_is_marked and treemap_is_marked make. */
  function TestBit(m: U32, i: nat): (b: bool)
    requires i < 32
    ensures b == Marked(m, i)
  {
    TestBitIsMarked(m, i);
    And(m, Pow2(i)) != 0
  }

  function LeastBit(x: U32): U32 {
    And(x, Neg32(x))
  }

  function LeftBits(x: U32): U32
  {
    OrFits(Shl32(x, 1), Neg32(Shl32(x, 1)));
    Or(Shl32(x, 1), Neg32(Shl32(x, 1)))
  }

  /** The chain by which malloc finds the first marked bin above `i`; `m` restricted to the bins above `i`. */
  function BitsAbove(m: U32, i: nat): U32
    requires i < 32
  {
    Pow2Fits(i);
    And(LeftBits(Pow2(i)), m)
  }

  function NextMarked(m: U32, i: nat): nat
    requires i < 32 && BitsAbove(m, i) != 0
  {
    LeastBitIsLowest(BitsAbove(m, i));
    LowestBit(LeastBit(BitsAbove(m, i)))
  }

  // ---- range facts ----

  lemma Pow2Fits(i: nat)
    requires i < 32
    ensures Pow2(i) <= MAX_U32 && Pow2(i) <= 0xFFFF_FFFF
  {
    Pow2Monotone(i, 32);
    Pow2Values();
  }

  lemma {:induction false} OrBound(a: nat, b: nat, w: nat)
    requires a < Pow2(w) && b < Pow2(w)
    ensures Or(a, b) < Pow2(w)
  {
    if a > 0 && b > 0 {
      OrBound(a / 2, b / 2, w - 1);
    }
  }

  lemma OrFits(a: U32, b: U32)
    ensures Or(a, b) <= MAX_U32
  {
    Pow2Values();
    OrBound(a, b, 32);
  }

  lemma OrBelow32(m: U32, b: nat, i: nat)
    requires i < 32 && b == Pow2(i)
    ensures Or(m, b) <= MAX_U32
    ensures forall j: nat :: j < 32 ==> Bit(Or(m, b), j) == (Bit(m, j) || j == i)
  {
    Pow2Fits(i);
    OrFits(m, b);
    forall j: nat | j < 32
      ensures Bit(Or(m, b), j) == (Bit(m, j) || j == i)
    {
      BitOr(m, b, j);
      BitPow2(i, j);
    }
  }

  lemma ClearBits(m: U32, i: nat)
    requires i < 32
    ensures Pow2(i) <= MAX_U32
    ensures forall j: nat :: j < 32 ==> Bit(And(m, MAX_U32 - Pow2(i)), j) == (Bit(m, j) && j != i)
  {
    Pow2Fits(i);
    Pow2Values();
    forall j: nat | j < 32
      ensures Bit(And(m, MAX_U32 - Pow2(i)), j) == (Bit(m, j) && j != i)
    {
      BitAnd(m, MAX_U32 - Pow2(i), j);
      BitComplement(Pow2(i), 32, j);
      BitPow2(i, j);
    }
  }

  lemma {:induction false} AndPow2(m: nat, i: nat)
    ensures And(m, Pow2(i)) == (if Bit(m, i) then Pow2(i) else 0)
  {
    if m == 0 {
      BitZero(i);
    } else if i == 0 {
      assert And(m / 2, 0) == 0;
    } else {
      AndPow2(m / 2, i - 1);
    }
  }

  lemma TestBitIsMarked(m: U32, i: nat)
    ensures And(m, Pow2(i)) != 0 <==> Marked(m, i)
  {
    AndPow2(m, i);
  }

  /** A map is zero exactly when no bin is marked. */
  lemma ZeroIffUnmarked(m: U32)
    ensures m == 0 <==> forall j: nat :: j < 32 ==> !Marked(m, j)
  {
    if m == 0 {
      forall j: nat | j < 32 ensures !Marked(m, j) { BitZero(j); }
    } else {
      Pow2Values();
      LowestBitSpec(m);
      var l := LowestBit(m);
      if l >= 32 {
        BitBelow(m, 32, l);
        assert false;
      }
      assert Marked(m, l);
    }
  }

  // ---- x & -x isolates the lowest bit ----

  lemma {:induction false} AndComplement(y: nat, w: nat)
    requires y < Pow2(w)
    ensures And(y, Pow2(w) - 1 - y) == 0
  {
    if y > 0 && Pow2(w) - 1 - y > 0 {
      AndComplement(y / 2, w - 1);
      assert (Pow2(w) - 1 - y) / 2 == Pow2(w - 1) - 1 - y / 2;
      assert (y % 2 == 1) != ((Pow2(w) - 1 - y) % 2 == 1);
    }
  }

  lemma {:induction false} AndNegate(x: nat, w: nat)
    requires 0 < x < Pow2(w)
    ensures And(x, Pow2(w) - x) == Pow2(LowestBit(x))
  {
    if x % 2 == 1 {
      AndComplement(x / 2, w - 1);
      assert (Pow2(w) - x) / 2 == Pow2(w - 1) - 1 - x / 2;
      assert (Pow2(w) - x) % 2 == 1;
    } else {
      AndNegate(x / 2, w - 1);
      assert (Pow2(w) - x) / 2 == Pow2(w - 1) - x / 2;
      assert (Pow2(w) - x) % 2 == 0;
    }
  }

  lemma {:induction false} LowestBitOfPow2(i: nat)
    ensures LowestBit(Pow2(i)) == i
  {
    if i > 0 { LowestBitOfPow2(i - 1); }
  }

  lemma LeastBitIsLowest(x: U32)
    requires x > 0
    ensures LeastBit(x) == Pow2(LowestBit(x)) > 0
    ensures LowestBit(LeastBit(x)) == LowestBit(x) < 32
  {
    hide *;
    LeastBitIs(x);
    AndNegate(x, 32);
    LowestBitOfPow2(LowestBit(x));
    LowestBitBelow32(x);
  }

  lemma LeastBitIs(x: U32)
    requires x > 0
    ensures x < Pow2(32) && LeastBit(x) == And(x, Pow2(32) - x)
  {
    Pow2Values();
  }

  lemma LowestBitBelow32(x: U32)
    requires x > 0
    ensures LowestBit(x) < 32
  {
    Pow2Values();
    LowestBitSpec(x);
    if LowestBit(x) >= 32 {
      BitBelow(x, 32, LowestBit(x));
      assert false;
    }
  }

  // ---- left_bits selects everything above a single bit ----

  lemma {:induction false} BitsOfPow2Minus1(k: nat, j: nat)
    ensures Bit(Pow2(k) - 1, j) == (j < k)
  {
    if k == 0 {
      BitZero(j);
    } else {
      assert (Pow2(k) - 1) / 2 == Pow2(k - 1) - 1;
      assert (Pow2(k) - 1) % 2 == 1;
      if j > 0 { BitsOfPow2Minus1(k - 1, j - 1); }
    }
  }

  lemma LeftBitsAbove(i: nat, j: nat)
    requires i < 32 && j < 32
    ensures Pow2(i) <= MAX_U32 && Bit(LeftBits(Pow2(i)), j) == (j > i)
  {
    hide *;
    Pow2Fits(i);
    LeftBitsIs(Pow2(i));
    ShlOne(i);
    if i == 31 {
      NoLeftBits();
      BitZero(j);
    } else {
      Pow2Fits(i + 1);
      var y := Pow2(i + 1);
      NegIs(y);
      BitComplement(y - 1, 32, j);
      BitsOfPow2Minus1(i + 1, j);
      BitPow2(i + 1, j);
      BitOr(y, Neg32(y), j);
    }
  }

  lemma LeftBitsIs(x: U32)
    ensures LeftBits(x) == Or(Shl32(x, 1), Neg32(Shl32(x, 1)))
  {
    OrFits(Shl32(x, 1), Neg32(Shl32(x, 1)));
  }

  lemma ShlOne(i: nat)
    requires i < 32 && Pow2(i) <= 0xFFFF_FFFF
    ensures Shl32(Pow2(i), 1) == if i == 31 then 0 else Pow2(i + 1)
    ensures Pow2(i + 1) > 0
  {
    Pow2Values();
    assert Pow2(1) == 2;
    assert Pow2(i + 1) == 2 * Pow2(i);
    if i < 31 { Pow2Monotone(i + 1, 31); }
  }

  lemma NoLeftBits()
    ensures Or(0, Neg32(0)) == 0
  {
  }

  lemma NegIs(y: U32)
    requires y > 0
    ensures Pow2(32) > 0 && Neg32(y) == Pow2(32) - 1 - (y - 1)
    ensures y - 1 < Pow2(32)
  {
    Pow2Values();
  }

  lemma BitsAboveSpec(m: U32, i: nat)
    requires i < 32
    ensures forall j: nat :: j < 32 ==> Marked(BitsAbove(m, i), j) == (j > i && Marked(m, j))
    ensures BitsAbove(m, i) == 0 <==> forall j: nat :: i < j < 32 ==> !Marked(m, j)
  {
    Pow2Fits(i);
    forall j: nat | j < 32
      ensures Marked(BitsAbove(m, i), j) == (j > i && Marked(m, j))
    {
      LeftBitsAbove(i, j);
      BitAnd(LeftBits(Pow2(i)), m, j);
    }
    ZeroIffUnmarked(BitsAbove(m, i));
  }

  /** The shift/left_bits/least_bit/bit2idx chain is the scan for the first marked bin above i. */
  lemma NextMarkedIsScan(m: U32, i: nat)
    requires i < 32 && BitsAbove(m, i) != 0
    ensures i < NextMarked(m, i) < 32 && Marked(m, NextMarked(m, i))
    ensures forall j: nat :: i < j < NextMarked(m, i) ==> !Marked(m, j)
  {
    var b := BitsAbove(m, i);
    LeastBitIsLowest(b);
    LowestBitSpec(b);
    BitsAboveSpec(m, i);
    assert Marked(b, NextMarked(m, i));
    forall j: nat | i < j < NextMarked(m, i)
      ensures !Marked(m, j)
    {
      assert !Bit(b, j);
      assert !Marked(b, j);
    }
  }

  /** least_bit followed by bit2idx on a whole nonzero map is the first marked bin. */
  lemma FirstMarkedIsScan(m: U32)
    requires m != 0
    ensures LeastBit(m) > 0
    ensures LowestBit(LeastBit(m)) < 32 && Marked(m, LowestBit(LeastBit(m)))
    ensures forall j: nat :: j < LowestBit(LeastBit(m)) ==> !Marked(m, j)
  {
    LeastBitIsLowest(m);
    LowestBitSpec(m);
  }

  /** Shifting right by i and testing the two low bits asks about bins i and i+1. */
  lemma {:induction false} ShiftedBits(m: nat, i: nat, k: nat)
    ensures Shr(m, i) >= 0
    ensures Bit(Shr(m, i), k) == Bit(m, i + k)
  {
    assert Shr(m, i) >= 0 by { ShrNonNegative(m, i); }
    if i > 0 {
      ShrStep(m, i - 1);
      ShiftedBits(m / 2, i - 1, k);
    }
  }

  lemma ShrNonNegative(m: nat, i: nat)
    ensures 0 <= Shr(m, i)
  {
    var p := Pow2(i);
    var q := m / p;
    assert m == p * q + m % p;
    assert p * -q == -(p * q);
    if q < 0 {
      MulAtLeast(p, -q);
      assert false;
    }
  }
}
