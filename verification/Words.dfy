/** Unsigned machine words as bounded naturals, with the bit operations spelled out. */
module Words {

  const MAX_U32: nat := 0xFFFF_FFFF
  const MAX_SIZE_T: nat := 0xFFFF_FFFF_FFFF_FFFF
  const SIZE_T_MOD: nat := 0x1_0000_0000_0000_0000

  type U32 = x: nat | x <= 0xFFFF_FFFF
  type U64 = x: nat | x <= 0xFFFF_FFFF_FFFF_FFFF

  function Pow2(n: nat): (r: nat)
    ensures r > 0
  {
    if n == 0 then 1 else 2 * Pow2(n - 1)
  }

  /** Bit `i` of `x`. */
  predicate Bit(x: nat, i: nat) {
    if i == 0 then x % 2 == 1 else Bit(x / 2, i - 1)
  }

  function And(a: nat, b: nat): (r: nat)
    ensures r <= a && r <= b
  {
    if a == 0 || b == 0 then 0
    else 2 * And(a / 2, b / 2) + (if a % 2 == 1 && b % 2 == 1 then 1 else 0)
  }

  function Or(a: nat, b: nat): (r: nat)
    ensures a <= r && b <= r <= a + b
    decreases a + b
  {
    if a == 0 then b else if b == 0 then a
    else 2 * Or(a / 2, b / 2) + (if a % 2 == 1 || b % 2 == 1 then 1 else 0)
  }

  /** The index of the highest set bit: what 31 - clz(x) computes on a 32-bit word. */
  function FloorLog2(x: nat): nat
    requires x > 0
  {
    if x == 1 then 0 else 1 + FloorLog2(x / 2)
  }

  /** The index of the lowest set bit: what ctz(x) computes. */
  function LowestBit(x: nat): nat
    requires x > 0
  {
    if x % 2 == 1 then 0 else 1 + LowestBit(x / 2)
  }

  /** Unsigned 32-bit negation. */
  function Neg32(x: U32): U32 {
    if x == 0 then 0 else MAX_U32 + 1 - x
  }

  /** Unsigned 64-bit subtraction, wrapping. */
  function Sub64(a: U64, b: U64): U64 {
    if a >= b then a - b else SIZE_T_MOD + a - b
  }

  function Shr(x: nat, n: nat): int {
    x / Pow2(n)
  }

  function Shl32(x: nat, n: nat): U32 {
    (x * Pow2(n)) % (MAX_U32 + 1)
  }

  // ---- powers of two ----

  lemma {:induction false} Pow2Add(a: nat, b: nat)
    ensures Pow2(a + b) == Pow2(a) * Pow2(b)
  {
    if b > 0 {
      Pow2Add(a, b - 1);
      assert Pow2(a + b) == 2 * Pow2(a + (b - 1));
    }
  }

  lemma {:induction false} Pow2Monotone(a: nat, b: nat)
    requires a <= b
    ensures Pow2(a) <= Pow2(b)
    ensures a < b ==> Pow2(a) < Pow2(b)
  {
    if a < b { Pow2Monotone(a, b - 1); }
  }

  lemma Pow2Values()
    ensures Pow2(4) == 16 && Pow2(5) == 32 && Pow2(6) == 64 && Pow2(7) == 128 && Pow2(8) == 256
    ensures Pow2(15) == 0x8000 && Pow2(16) == 0x1_0000 && Pow2(22) == 0x40_0000 && Pow2(23) == 0x80_0000
    ensures Pow2(24) == 0x100_0000 && Pow2(31) == 0x8000_0000 && Pow2(32) == 0x1_0000_0000
    ensures Pow2(63) == 0x8000_0000_0000_0000 && Pow2(64) == SIZE_T_MOD
  {
    assert Pow2(8) == 256;
    Pow2Add(8, 8);
    Pow2Add(7, 8);
    Pow2Add(16, 6);
    Pow2Add(16, 7);
    Pow2Add(16, 8);
    Pow2Add(16, 15);
    Pow2Add(16, 16);
    Pow2Add(32, 31);
    Pow2Add(32, 32);
  }

  /** Halving before shifting is shifting one further. */
  lemma ShrStep(x: nat, n: nat)
    ensures x / Pow2(n + 1) == (x / 2) / Pow2(n)
  {
    var p := Pow2(n);
    var q := x / (2 * p);
    var r := x % (2 * p);
    assert x == 2 * p * q + r;
    assert x / 2 == p * q + r / 2;
    assert 0 <= r / 2 < p;
    DivUnique(x / 2, p, q, r / 2);
  }

  lemma DivUnique(x: int, d: int, q: int, r: int)
    requires d > 0 && x == d * q + r && 0 <= r < d
    ensures x / d == q && x % d == r
  {
    var q', r' := x / d, x % d;
    assert d * (q - q') == r' - r;
    assert d * (q' - q) == r - r';
    if q > q' {
      MulAtLeast(d, q - q');
      assert false;
    } else if q < q' {
      MulAtLeast(d, q' - q);
      assert false;
    }
  }

  /** A sum of multiples of d is one. */
  lemma SumOfMultiples(a: int, b: int, d: int)
    requires d > 0 && a % d == 0 && b % d == 0
    ensures (a + b) % d == 0
  {
    assert a + b == d * (a / d + b / d);
    DivUnique(a + b, d, a / d + b / d, 0);
  }

  lemma MulAtLeast(d: int, k: int)
    requires d > 0 && k > 0
    ensures d * k >= d
  {
  }

  // ---- bits of the operations ----

  lemma {:induction false} BitZero(i: nat)
    ensures !Bit(0, i)
  {
    if i > 0 { BitZero(i - 1); }
  }

  lemma {:induction false} BitPow2(i: nat, j: nat)
    ensures Bit(Pow2(i), j) == (i == j)
  {
    if i == 0 {
      if j > 0 { BitZero(j - 1); }
    } else if j > 0 {
      BitPow2(i - 1, j - 1);
    }
  }

  lemma {:induction false} BitAnd(a: nat, b: nat, j: nat)
    ensures Bit(And(a, b), j) == (Bit(a, j) && Bit(b, j))
  {
    if a == 0 || b == 0 {
      BitZero(j);
    } else if j > 0 {
      BitAnd(a / 2, b / 2, j - 1);
    }
  }

  lemma {:induction false} BitOr(a: nat, b: nat, j: nat)
    ensures Bit(Or(a, b), j) == (Bit(a, j) || Bit(b, j))
  {
    if a == 0 || b == 0 {
      BitZero(j);
    } else if j > 0 {
      BitOr(a / 2, b / 2, j - 1);
    }
  }

  /** Complementing within w bits flips every bit below w. */
  lemma {:induction false} BitComplement(a: nat, w: nat, j: nat)
    requires a < Pow2(w) && j < w
    ensures Bit(Pow2(w) - 1 - a, j) == !Bit(a, j)
  {
    if j > 0 {
      BitComplement(a / 2, w - 1, j - 1);
      assert (Pow2(w) - 1 - a) / 2 == Pow2(w - 1) - 1 - a / 2;
    }
  }

  lemma {:induction false} BitBelow(x: nat, w: nat, j: nat)
    requires x < Pow2(w) && j >= w
    ensures !Bit(x, j)
  {
    if w == 0 {
      BitZero(j);
    } else {
      BitBelow(x / 2, w - 1, j - 1);
    }
  }

  /** A nonzero word has a set bit, and LowestBit finds the first one. */
  lemma {:induction false} LowestBitSpec(x: nat)
    requires x > 0
    ensures Bit(x, LowestBit(x))
    ensures forall j: nat :: j < LowestBit(x) ==> !Bit(x, j)
    ensures Pow2(LowestBit(x)) <= x
  {
    if x % 2 == 0 {
      LowestBitSpec(x / 2);
      forall j: nat | j < LowestBit(x) ensures !Bit(x, j) {
        if j > 0 { assert !Bit(x / 2, j - 1); }
      }
    }
  }

  lemma {:induction false} FloorLog2Spec(x: nat)
    requires x > 0
    ensures Pow2(FloorLog2(x)) <= x < Pow2(FloorLog2(x) + 1)
  {
    if x > 1 { FloorLog2Spec(x / 2); }
  }

  lemma FloorLog2Unique(x: nat, k: nat)
    requires Pow2(k) <= x < Pow2(k + 1)
    ensures FloorLog2(x) == k
  {
    FloorLog2Spec(x);
    var f := FloorLog2(x);
    if f < k {
      Pow2Monotone(f + 1, k);
    } else if k < f {
      Pow2Monotone(k + 1, f);
    }
  }
}
