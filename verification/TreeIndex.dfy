/** Which treebin holds a chunk of a given size, and which bits of the size steer the descent inside it. */
module TreeIndex {
  import opened Words

  const NTREEBINS: nat := 32

  /** The index, with the whole quotient S >> 8 examined. */
  function Index(S: U64): (i: nat)
  {
    var X := S / 256;
    if X == 0 then 0
    else if X > 0xFFFF then NTREEBINS - 1
    else 2 * FloorLog2(X) + Shr(S, FloorLog2(X) + 7) % 2
  }

  /** The gcc form, which first narrows S >> 8 to an unsigned int. */
  function GccIndex(S: U64): nat
  {
    var X := (S / 256) % (0xFFFF_FFFF + 1);
    if X == 0 then 0
    else if X > 0xFFFF then NTREEBINS - 1
    else 2 * FloorLog2(X) + Shr(S, FloorLog2(X) + 7) % 2
  }

  /** ((y - t) >> 16) & (1 << b), on unsigned ints. */
  function Borrow(y: U32, t: U32, b: nat): nat {
    var z := (if y >= t then y - t else 0xFFFF_FFFF + 1 + y - t) / 65536;
    (z / Pow2(b)) % 2 * Pow2(b)
  }

  /** The branch-free floor of the base-2 logarithm used by the portable form. */
  function BranchFreeLog2(X: U32): int
  {
    var n0 := Borrow(X, 0x100, 3);
    var y0 := Shl32(X, n0);
    var k1 := Borrow(y0, 0x1000, 2);
    var y1 := Shl32(y0, k1);
    var k2 := Borrow(y1, 0x4000, 1);
    var y2 := Shl32(y1, k2);
    14 - (n0 + k1 + k2) + y2 / 0x8000
  }

  /** The portable form. */
  function PortableIndex(S: U64): int
  {
    var X := S / 256;
    if X == 0 then 0
    else if X > 0xFFFF then NTREEBINS - 1
    else
      var K := BranchFreeLog2(X);
      if K < 0 then 0 else 2 * K + Shr(S, K + 7) % 2
  }

  /** The smallest size in bin i. */
  function MinSize(i: nat): nat {
    Pow2(i / 2 + 8) + i % 2 * Pow2(i / 2 + 7)
  }

  function LeftShift(i: nat): nat
    requires i < 32
  {
    if i == NTREEBINS - 1 then 0 else 63 - (i / 2 + 6)
  }

  /** Sizes in bin i lie in [BinLo(i), BinLo(i) + Pow2(BinWidth(i))); the last bin takes every width. */
  function BinLo(i: nat): nat {
    if i == NTREEBINS - 1 then 0 else MinSize(i)
  }

  function BinWidth(i: nat): nat {
    if i == NTREEBINS - 1 then 64 else i / 2 + 7
  }

  /** The word whose sign bit picks the child at each level of the descent. */
  function SizeBits(S: U64, i: nat): U64
    requires i < 32
  {
    S * Pow2(LeftShift(i)) % 0x1_0000_0000_0000_0000
  }

  // ---- the bins are the half-powers of two ----

  lemma MidBit(S: nat, k: nat)
    requires Pow2(k + 8) <= S < Pow2(k + 9)
    ensures Shr(S, k + 7) % 2 == (if S >= Pow2(k + 8) + Pow2(k + 7) then 1 else 0)
  {
    var h := Pow2(k + 7);
    assert Pow2(k + 8) == 2 * h && Pow2(k + 9) == 4 * h;
    if S >= 3 * h {
      DivUnique(S, h, 3, S - 3 * h);
    } else {
      DivUnique(S, h, 2, S - 2 * h);
    }
  }

  /** X = S >> 8 has logarithm k exactly when S has logarithm k + 8. */
  lemma {:induction false} LogOfQuotient(S: nat, k: nat)
    requires S >= 256
    ensures Pow2(k) <= S / 256 < Pow2(k + 1) <==> Pow2(k + 8) <= S < Pow2(k + 9)
  {
    Pow2Add(8, k);
    Pow2Add(8, k + 1);
    assert Pow2(8) == 256 by { Pow2Values(); }
    assert Pow2(k + 8) == 256 * Pow2(k);
    assert Pow2(k + 9) == 256 * Pow2(k + 1);
  }

  lemma IndexBounds(S: U64)
    requires S >= 256
    ensures Index(S) < 32
    ensures MinSize(Index(S)) <= S
    ensures Index(S) < NTREEBINS - 1 ==> S < MinSize(Index(S) + 1)
  {
    var X := S / 256;
    Pow2Values();
    if X <= 0xFFFF {
      FloorLog2Spec(X);
      var k := FloorLog2(X);
      if k >= 16 { Pow2Monotone(16, k); }
      LogOfQuotient(S, k);
      MidBit(S, k);
      IndexOfMid(S, k);
    }
  }

  lemma IndexOfMid(S: U64, k: nat)
    requires k < 16 && Pow2(k + 8) <= S < Pow2(k + 9)
    requires 0 < S / 256 <= 0xFFFF && FloorLog2(S / 256) == k
    requires Shr(S, k + 7) % 2 == (if S >= Pow2(k + 8) + Pow2(k + 7) then 1 else 0)
    ensures Index(S) == 2 * k + (if S >= Pow2(k + 8) + Pow2(k + 7) then 1 else 0)
    ensures MinSize(Index(S)) <= S < MinSize(Index(S) + 1)
  {
    hide *;
    IndexIs(S);
    MinSizeAt(k);
  }

  lemma IndexIs(S: U64)
    requires 0 < S / 256 <= 0xFFFF
    ensures Index(S) == 2 * FloorLog2(S / 256) + Shr(S, FloorLog2(S / 256) + 7) % 2
  {
  }

  lemma MinSizeAt(k: nat)
    ensures MinSize(2 * k) == Pow2(k + 8) && MinSize(2 * k + 1) == Pow2(k + 8) + Pow2(k + 7)
      && MinSize(2 * k + 2) == Pow2(k + 9)
  {
    assert (2 * k) / 2 == k && (2 * k + 1) / 2 == k && (2 * k + 2) / 2 == k + 1;
    assert (2 * k) % 2 == 0 && (2 * k + 1) % 2 == 1 && (2 * k + 2) % 2 == 0;
  }

  lemma {:induction false} MinSizeMonotone(i: nat, j: nat)
    requires i <= j
    ensures MinSize(i) <= MinSize(j)
    ensures i < j ==> MinSize(i) < MinSize(j)
  {
    if i < j {
      MinSizeMonotone(i, j - 1);
      var k := (j - 1) / 2;
      if j % 2 == 0 {
        assert j / 2 == k + 1;
      } else {
        assert j / 2 == k;
      }
    }
  }

  /** The index is the only bin whose range holds the size. */
  lemma IndexUnique(S: U64, i: nat)
    requires S >= 256 && i < 32
    requires MinSize(i) <= S && (i < NTREEBINS - 1 ==> S < MinSize(i + 1))
    ensures Index(S) == i
  {
    IndexBounds(S);
    var j := Index(S);
    if i < j {
      MinSizeMonotone(i + 1, j);
      assert false;
    } else if j < i {
      MinSizeMonotone(j + 1, i);
      assert false;
    }
  }

  lemma IndexMonotone(S: U64, T: U64)
    requires 256 <= S <= T
    ensures Index(S) <= Index(T)
  {
    IndexBounds(S);
    IndexBounds(T);
    if Index(T) < Index(S) {
      MinSizeMonotone(Index(T) + 1, Index(S));
      assert false;
    }
  }

  /** A size in a later bin exceeds every size in an earlier one. */
  lemma LaterBinLarger(S: U64, T: U64)
    requires S >= 256 && T >= 256 && Index(S) < Index(T)
    ensures S < T
  {
    if T <= S { IndexMonotone(T, S); }
  }

  lemma InBinRange(S: U64)
    requires S >= 256
    ensures Index(S) < 32
    ensures BinLo(Index(S)) <= S < BinLo(Index(S)) + Pow2(BinWidth(Index(S)))
  {
    IndexBounds(S);
    if Index(S) == NTREEBINS - 1 {
      Pow2Values();
    } else {
      BinTopIsNextMin(Index(S));
    }
  }

  lemma BinTopIsNextMin(i: nat)
    ensures MinSize(i + 1) == MinSize(i) + Pow2(i / 2 + 7)
  {
    var p := Pow2(i / 2 + 7);
    if i % 2 == 0 {
      assert (i + 1) / 2 == i / 2;
    } else {
      assert (i + 1) / 2 == i / 2 + 1;
      assert Pow2(i / 2 + 1 + 8) == 4 * p;
    }
  }

  // ---- the left shift ----

  lemma MulLess(x: nat, y: nat, p: nat)
    requires x < y && p > 0
    ensures x * p < y * p
  {
    MulAtLeast(p, y - x);
    assert p * (y - x) == y * p - x * p;
  }

  lemma MulAssoc(a: nat, b: nat, c: nat)
    ensures a * b * c == a * (b * c)
  {
  }

  lemma SmallWordFits(x: nat, w: nat)
    requires w <= 64 && x < Pow2(w)
    ensures Pow2(w) * Pow2(64 - w) == 0x1_0000_0000_0000_0000
    ensures x * Pow2(64 - w) < 0x1_0000_0000_0000_0000
  {
    Pow2Values();
    Pow2Add(w, 64 - w);
    MulLess(x, Pow2(w), Pow2(64 - w));
  }

  lemma SplitMultiple(S: nat, lo: nat, c: nat, W: nat, p: nat)
    requires lo == c * W && lo <= S
    ensures S * p == (S - lo) * p + c * (W * p)
  {
    MulAssoc(c, W, p);
    assert S * p == (S - lo) * p + lo * p;
  }

  lemma ModAway(x: nat, c: nat, d: nat)
    requires d < 0x1_0000_0000_0000_0000 && x == d + c * 0x1_0000_0000_0000_0000
    ensures x % 0x1_0000_0000_0000_0000 == d
  {
  }

  /** After the initial shift, the word is the offset of S inside its bin, aligned to the top. */
  lemma SizeBitsStart(S: U64)
    requires S >= 256
    ensures Index(S) < 32 && BinLo(Index(S)) <= S
    ensures BinWidth(Index(S)) <= 64
    ensures SizeBits(S, Index(S)) == (S - BinLo(Index(S))) * Pow2(64 - BinWidth(Index(S)))
  {
    hide *;
    InBinRange(S);
    var i := Index(S);
    SizeBitsIs(S, i);
    var w, lo := BinWidth(i), BinLo(i);
    SmallWordFits(S - lo, w);
    BinLoIsMultiple(i);
    var c := if i < 31 then 2 + i % 2 else 0;
    SplitMultiple(S, lo, c, Pow2(w), Pow2(64 - w));
    ModAway(S * Pow2(64 - w), c, (S - lo) * Pow2(64 - w));
  }

  lemma SizeBitsIs(S: U64, i: nat)
    requires i < 32
    ensures BinWidth(i) <= 64 && SizeBits(S, i) == S * Pow2(64 - BinWidth(i)) % 0x1_0000_0000_0000_0000
  {
  }

  lemma BinLoIsMultiple(i: nat)
    requires i < 32
    ensures BinLo(i) == (if i < 31 then 2 + i % 2 else 0) * Pow2(BinWidth(i))
  {
    var p := Pow2(i / 2 + 7);
    assert Pow2(i / 2 + 8) == 2 * p;
    if i % 2 == 0 {
      assert i % 2 * p == 0;
    } else {
      assert i % 2 * p == p;
    }
  }

  lemma HalfWord(d: nat, h: nat, p: nat)
    requires d < 2 * h && p > 0
    ensures d * p < 2 * (h * p)
    ensures d >= h ==> (d - h) * (2 * p) == 2 * (d * p) - 2 * (h * p) && h * p <= d * p
    ensures d < h ==> d * p < h * p && d * (2 * p) == 2 * (d * p)
  {
    MulLess(d, 2 * h, p);
    assert 2 * h * p == 2 * (h * p);
    if d >= h {
      assert (d - h) * (2 * p) == 2 * ((d - h) * p);
      assert (d - h) * p == d * p - h * p;
      if d > h { MulLess(h, d, p); }
    } else {
      MulLess(d, h, p);
    }
  }

  /** The sign bit tells the upper half of the remaining range from the lower half, and shifting consumes it. */
  lemma SignBitSplits(d: nat, w: nat)
    requires 0 < w <= 64 && d < Pow2(w)
    ensures d * Pow2(64 - w) < 0x1_0000_0000_0000_0000
    ensures d * Pow2(64 - w) / 0x8000_0000_0000_0000 == (if d >= Pow2(w - 1) then 1 else 0)
    ensures d * Pow2(64 - w) * 2 % 0x1_0000_0000_0000_0000
         == (if d >= Pow2(w - 1) then d - Pow2(w - 1) else d) * Pow2(64 - (w - 1))
  {
    hide *;
    var h, p := Pow2(w - 1), Pow2(64 - w);
    HalfTimes(w);
    HalfWord(d, h, p);
    WordBits(d, h, p);
  }

  lemma HalfTimes(w: nat)
    requires 0 < w <= 64
    ensures Pow2(w - 1) * Pow2(64 - w) == 0x8000_0000_0000_0000
    ensures Pow2(64 - (w - 1)) == 2 * Pow2(64 - w) && Pow2(w) == 2 * Pow2(w - 1) && Pow2(64 - w) > 0
  {
    Pow2Values();
    Pow2Add(w - 1, 64 - w);
  }

  lemma WordBits(d: nat, h: nat, p: nat)
    requires d < 2 * h && p > 0 && h * p == 0x8000_0000_0000_0000 && d * p < 2 * (h * p)
    requires d >= h ==> (d - h) * (2 * p) == 2 * (d * p) - 2 * (h * p) && h * p <= d * p
    requires d < h ==> d * p < h * p && d * (2 * p) == 2 * (d * p)
    ensures d * p / 0x8000_0000_0000_0000 == (if d >= h then 1 else 0)
    ensures d * p * 2 % 0x1_0000_0000_0000_0000 == (if d >= h then d - h else d) * (2 * p)
  {
    var x := d * p;
    if d >= h {
      DivUnique(x, 0x8000_0000_0000_0000, 1, x - 0x8000_0000_0000_0000);
      DivUnique(x * 2, 0x1_0000_0000_0000_0000, 1, x * 2 - 0x1_0000_0000_0000_0000);
    } else {
      DivUnique(x, 0x8000_0000_0000_0000, 0, x);
      DivUnique(x * 2, 0x1_0000_0000_0000_0000, 0, x * 2);
    }
  }

  /** Two sizes in one bin are told apart by the bits still to be consumed. */
  lemma SizeBitsTellApart(S: U64, T: U64)
    requires S >= 256 && T >= 256 && Index(S) == Index(T)
    ensures Index(S) < 32
    ensures SizeBits(S, Index(S)) == SizeBits(T, Index(T)) <==> S == T
  {
    hide *;
    SizeBitsStart(S);
    SizeBitsStart(T);
    var lo, p := BinLo(Index(S)), Pow2(64 - BinWidth(Index(S)));
    if S < T {
      MulLess(S - lo, T - lo, p);
    } else if T < S {
      MulLess(T - lo, S - lo, p);
    }
  }

  // ---- the three ways of computing the index ----

  lemma BorrowIs(y: U32, t: U32, b: nat)
    requires y < 0x1_0000 && 0 < t <= 0x8000 && 1 <= b <= 3
    ensures Borrow(y, t, b) == (if y < t then Pow2(b) else 0)
  {
    assert Pow2(1) == 2 && Pow2(2) == 4 && Pow2(3) == 8;
    if y < t {
      assert (0xFFFF_FFFF + 1 + y - t) / 65536 == 65535;
    }
  }

  lemma BranchFreeIsFloorLog2(X: U32)
    requires 0 < X <= 0xFFFF
    ensures BranchFreeLog2(X) == FloorLog2(X)
  {
    hide *;
    Pow2Small();
    BranchFreeIs(X);
    var n0 := Borrow(X, 0x100, 3);
    var y0 := Shl32(X, n0);
    Stage(X, 0x100, 3, 256);
    var k1 := Borrow(y0, 0x1000, 2);
    var y1 := Shl32(y0, k1);
    Stage(y0, 0x1000, 2, 16);
    var k2 := Borrow(y1, 0x4000, 1);
    var y2 := Shl32(y1, k2);
    Stage(y1, 0x4000, 1, 4);
    var n := n0 + k1 + k2;
    assert y2 == X * Pow2(n) by {
      Pow2Add(n0, k1);
      Pow2Add(n0 + k1, k2);
      MulAssoc(X, Pow2(n0), Pow2(k1));
      MulAssoc(X, Pow2(n0 + k1), Pow2(k2));
    }
    Normalised(X, n, 14 - n + y2 / 0x8000);
  }

  lemma Pow2Small()
    ensures Pow2(0) == 1 && Pow2(1) == 2 && Pow2(2) == 4 && Pow2(3) == 8 && Pow2(4) == 16 && Pow2(8) == 256
  {
    Pow2Values();
    assert Pow2(3) == 8;
  }

  lemma BranchFreeIs(X: U32)
    ensures var n0 := Borrow(X, 0x100, 3);
            var y0 := Shl32(X, n0);
            var k1 := Borrow(y0, 0x1000, 2);
            var y1 := Shl32(y0, k1);
            var k2 := Borrow(y1, 0x4000, 1);
            BranchFreeLog2(X) == 14 - (n0 + k1 + k2) + Shl32(y1, k2) / 0x8000
  {
    hide Borrow, Shl32;
  }

  /** One stage of the search: a value below the threshold is shifted up to it. */
  lemma Stage(y: U32, t: U32, b: nat, f: nat)
    requires 0 < y < 0x1_0000 && 0 < t <= 0x8000 && 1 <= b <= 3 && f == Pow2(Pow2(b)) && f <= 256 && t <= y * f
      && t * f <= 0x1_0000
    ensures Borrow(y, t, b) == 0 || Borrow(y, t, b) == Pow2(b)
    ensures Shl32(y, Borrow(y, t, b)) == y * Pow2(Borrow(y, t, b)) && t <= Shl32(y, Borrow(y, t, b)) < 0x1_0000
  {
    hide *;
    BorrowIs(y, t, b);
    Pow2Small();
    if y < t {
      MulBelow(y, t, f);
      ShlIs(y, Pow2(b));
    } else {
      ShlIs(y, 0);
    }
  }

  lemma MulBelow(y: nat, t: nat, f: nat)
    requires y < t && f > 0
    ensures y * f < t * f
  {
    MulLess(y, t, f);
  }

  lemma ShlIs(x: U32, n: nat)
    requires x * Pow2(n) <= 0xFFFF_FFFF
    ensures Shl32(x, n) == x * Pow2(n)
  {
  }

  /** If X shifted left n places lands in [2^14, 2^16), its logarithm is 14 or 15 less n. */
  lemma Normalised(X: nat, n: nat, k: int)
    requires n <= 14 && 0x4000 <= X * Pow2(n) < 0x1_0000
    requires k == 14 - n + X * Pow2(n) / 0x8000
    ensures X > 0 && k == FloorLog2(X)
  {
    assert Pow2(14) == 0x4000 && Pow2(15) == 0x8000 && Pow2(16) == 0x1_0000 by { Pow2Values(); }
    var h := if X * Pow2(n) >= 0x8000 then 15 else 14;
    assert k == h - n;
    Pow2Add(n, h - n);
    CancelFactor(X, Pow2(h - n), Pow2(n));
    FloorLog2Unique(X, h - n);
  }

  lemma CancelFactor(x: nat, q: nat, p: nat)
    requires p > 0 && p * q <= x * p < 2 * (p * q)
    ensures q <= x < 2 * q
  {
    if x < q {
      MulLess(x, q, p);
      assert false;
    }
    assert 2 * q * p == 2 * (p * q);
    if 2 * q < x {
      MulLess(2 * q, x, p);
      assert false;
    }
  }

  /** The portable branch-free form computes the index for every size. */
  lemma PortableIsIndex(S: U64)
    ensures PortableIndex(S) == Index(S)
  {
    if 0 < S / 256 <= 0xFFFF {
      BranchFreeIsFloorLog2(S / 256);
    }
  }

  /**
   * The gcc form agrees with the index exactly on the sizes below 2^40, and above them on those whose
   * 32 surviving quotient bits still select the last bin.
   */
  lemma GccAgreesExactly(S: U64)
    ensures GccIndex(S) == Index(S) <==> S < 0x100_0000_0000 || (S / 256) % (0xFFFF_FFFF + 1) >= 0xC000
  {
    var X := (S / 256) % (0xFFFF_FFFF + 1);
    if S < 0x100_0000_0000 {
      assert S / 256 <= 0xFFFF_FFFF;
    } else if 0 < X <= 0xFFFF {
      NarrowedIndex(S, X);
    }
  }

  lemma NarrowedIndex(S: U64, X: nat)
    requires X == (S / 256) % (0xFFFF_FFFF + 1) && 0 < X <= 0xFFFF
    ensures GccIndex(S) == NTREEBINS - 1 <==> X >= 0xC000
  {
    var k := FloorLog2(X);
    FloorLog2Spec(X);
    Pow2Values();
    if k >= 16 {
      Pow2Monotone(16, k);
      assert false;
    }
    if X >= 0x8000 {
      FloorLog2Unique(X, 15);
      TopQuotientBit(S, X);
    } else if k >= 15 {
      Pow2Monotone(15, k);
      assert false;
    }
  }

  lemma TopQuotientBit(S: U64, X: nat)
    requires X == (S / 256) % (0xFFFF_FFFF + 1) && 0x8000 <= X <= 0xFFFF
    ensures Shr(S, 22) % 2 == (if X >= 0xC000 then 1 else 0)
  {
    assert Pow2(22) == 0x40_0000 by { Pow2Values(); }
    var Q, c := S / 256, S / 256 / (0xFFFF_FFFF + 1);
    assert Q == c * 0x1_0000_0000 + X;
    assert S == 256 * Q + S % 256;
    assert X == 0x4000 * (X / 0x4000) + X % 0x4000;
    DivUnique(S, 0x40_0000, c * 0x4_0000 + X / 0x4000, 256 * (X % 0x4000) + S % 256);
    assert X / 0x4000 == (if X >= 0xC000 then 3 else 2);
  }

  /** A size the gcc form files in the wrong bin: 2^40 bytes goes to bin 0. */
  lemma GccMisfilesTerabyte()
    ensures GccIndex(0x100_0000_0000) == 0 && Index(0x100_0000_0000) == 31
  {
  }
}
