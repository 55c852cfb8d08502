/** How far a rewrite's outcome is from the target's: bit distances over bytes, memory and registers. */
module Distances {
  import opened Words

  type Byte = x: nat | x < 256

  /** Bitwise exclusive or. */
  function Xor(a: nat, b: nat): nat
    decreases a + b
  {
    if a == 0 && b == 0 then 0 else 2 * Xor(a / 2, b / 2) + (if a % 2 != b % 2 then 1 else 0)
  }

  function PopCount(x: nat): nat {
    if x == 0 then 0 else PopCount(x / 2) + x % 2
  }

  /** get_byte_dist */
  function ByteDist(a: Byte, b: Byte): nat {
    PopCount(Xor(a, b))
  }

  /** The number of places where the binary digits differ. */
  function Differing(a: nat, b: nat): nat
    decreases a + b
  {
    if a == 0 && b == 0 then 0 else Differing(a / 2, b / 2) + (if a % 2 != b % 2 then 1 else 0)
  }

  lemma {:induction false} PopOfXor(a: nat, b: nat)
    ensures PopCount(Xor(a, b)) == Differing(a, b)
    decreases a + b
  {
    if a != 0 || b != 0 {
      PopOfXor(a / 2, b / 2);
      var x := 2 * Xor(a / 2, b / 2) + (if a % 2 != b % 2 then 1 else 0);
      assert x / 2 == Xor(a / 2, b / 2) && x % 2 == (if a % 2 != b % 2 then 1 else 0);
    }
  }

  lemma {:induction false} DifferingMetric(a: nat, b: nat, c: nat)
    ensures Differing(a, b) == 0 <==> a == b
    ensures Differing(a, b) == Differing(b, a)
    ensures Differing(a, c) <= Differing(a, b) + Differing(b, c)
    decreases a + b + c
  {
    if a != 0 || b != 0 || c != 0 {
      DifferingMetric(a / 2, b / 2, c / 2);
      Halve(a, b);
      Halve(b, a);
      Halve(a, c);
      Halve(b, c);
      assert a == 2 * (a / 2) + a % 2 && b == 2 * (b / 2) + b % 2;
    }
  }

  /** The unfolding, the zero case included. */
  lemma Halve(a: nat, b: nat)
    ensures Differing(a, b) == Differing(a / 2, b / 2) + (if a % 2 != b % 2 then 1 else 0)
  {
  }

  lemma {:induction false} DifferingAtMost(a: nat, b: nat, w: nat, bound: nat)
    requires a < bound && b < bound && bound == Pow2(w)
    ensures Differing(a, b) <= w
  {
    if w > 0 {
      assert bound == 2 * Pow2(w - 1);
      DifferingAtMost(a / 2, b / 2, w - 1, Pow2(w - 1));
      Halve(a, b);
    }
  }

  /** The bits, counted from the lowest, in which two numbers of w bits differ. */
  function DifferingBits(a: nat, b: nat, w: nat): set<nat> {
    set i: nat | i < w && Bit(a, i) != Bit(b, i)
  }

  lemma {:induction false} BitsFromTop(a: nat, b: nat, w: nat)
    requires w > 0
    ensures |DifferingBits(a, b, w)| == |DifferingBits(a, b, w - 1)| + if Bit(a, w - 1) != Bit(b, w - 1) then 1 else 0
  {
    if Bit(a, w - 1) != Bit(b, w - 1) {
      assert DifferingBits(a, b, w) == DifferingBits(a, b, w - 1) + {w - 1};
    } else {
      assert DifferingBits(a, b, w) == DifferingBits(a, b, w - 1);
    }
  }

  lemma {:induction false} BitsFromBelow(a: nat, b: nat, w: nat)
    requires w > 0
    ensures |DifferingBits(a, b, w)| == |DifferingBits(a / 2, b / 2, w - 1)| + if a % 2 != b % 2 then 1 else 0
  {
    hide DifferingBits;
    BitsFromTop(a, b, w);
    if w == 1 {
      NoBits(a, b);
      NoBits(a / 2, b / 2);
    } else {
      BitsFromBelow(a, b, w - 1);
      BitsFromTop(a / 2, b / 2, w - 1);
    }
  }

  lemma NoBits(a: nat, b: nat)
    ensures |DifferingBits(a, b, 0)| == 0
  {
    assert DifferingBits(a, b, 0) == {};
  }

  lemma {:induction false} CountsBits(a: nat, b: nat, w: nat)
    requires a < Pow2(w) && b < Pow2(w)
    ensures Differing(a, b) == |DifferingBits(a, b, w)|
  {
    hide DifferingBits;
    if w == 0 {
      NoBits(a, b);
    } else {
      CountsBits(a / 2, b / 2, w - 1);
      Halve(a, b);
      BitsFromBelow(a, b, w);
    }
  }

  /** The byte distance is the number of bits in which the bytes differ. */
  lemma ByteDistCounts(a: Byte, b: Byte)
    ensures ByteDist(a, b) == |DifferingBits(a, b, 8)|
  {
    Pow2Values();
    PopOfXor(a, b);
    CountsBits(a, b, 8);
  }

  /** The byte distance is a metric with values up to eight. */
  lemma ByteMetric(a: Byte, b: Byte, c: Byte)
    ensures ByteDist(a, b) == 0 <==> a == b
    ensures ByteDist(a, b) == ByteDist(b, a)
    ensures ByteDist(a, c) <= ByteDist(a, b) + ByteDist(b, c)
    ensures ByteDist(a, b) <= 8
  {
    PopOfXor(a, b);
    PopOfXor(b, a);
    PopOfXor(a, c);
    PopOfXor(b, c);
    DifferingMetric(a, b, c);
    DifferingAtMost(a, b, 8, 256);
  }

  // ---- memory ----

  function Dist(a: seq<Byte>, b: seq<Byte>): nat
    requires |a| == |b|
  {
    if a == [] then 0 else Dist(a[..|a| - 1], b[..|b| - 1]) + ByteDist(a[|a| - 1], b[|b| - 1])
  }

  /** The places, byte and bit, in which two stretches of memory differ. */
  function DifferingPlaces(a: seq<Byte>, b: seq<Byte>): set<(nat, nat)>
    requires |a| == |b|
  {
    set k: nat, i: nat | k < |a| && i in DifferingBits(a[k], b[k], 8) :: (k, i)
  }

  /** The bits of byte k. */
  function BitsOfByte(k: nat, s: set<nat>): set<(nat, nat)> {
    set i | i in s :: (k, i)
  }

  lemma {:induction false} ByteSize(k: nat, s: set<nat>)
    ensures |BitsOfByte(k, s)| == |s|
  {
    if s == {} {
      assert BitsOfByte(k, s) == {};
    } else {
      var x :| x in s;
      ByteSize(k, s - {x});
      assert BitsOfByte(k, s) == BitsOfByte(k, s - {x}) + {(k, x)} && (k, x) !in BitsOfByte(k, s - {x});
    }
  }

  /** The memory distance is the number of places in which the two differ. */
  lemma {:induction false} DistCounts(a: seq<Byte>, b: seq<Byte>)
    requires |a| == |b|
    ensures Dist(a, b) == |DifferingPlaces(a, b)|
  {
    hide ByteDist, DifferingBits;
    if a == [] {
      assert DifferingPlaces(a, b) == {};
    } else {
      var n := |a| - 1;
      var bits := DifferingBits(a[n], b[n], 8);
      DistCounts(a[..n], b[..n]);
      ByteDistCounts(a[n], b[n]);
      ByteSize(n, bits);
      assert DifferingPlaces(a, b) == DifferingPlaces(a[..n], b[..n]) + BitsOfByte(n, bits);
      assert DifferingPlaces(a[..n], b[..n]) !! BitsOfByte(n, bits);
    }
  }

  /** get_mem_dist, and the loop of get_reg_dist. */
  method MemDist(a: seq<Byte>, b: seq<Byte>) returns (dist: nat)
    requires |a| == |b|
    ensures dist == Dist(a, b) == |DifferingPlaces(a, b)|
  {
    DistCounts(a, b);
    dist := 0;
    var i := 0;
    while i < |a|
      invariant 0 <= i <= |a| && dist == Dist(a[..i], b[..i])
    {
      assert a[..i + 1][..i] == a[..i] && b[..i + 1][..i] == b[..i];
      dist := dist + ByteDist(a[i], b[i]);
      i := i + 1;
    }
    assert a[..|a|] == a && b[..|b|] == b;
  }

  /** The memory distance is a metric, and at most eight per byte. */
  lemma {:induction false} MemMetric(a: seq<Byte>, b: seq<Byte>, c: seq<Byte>)
    requires |a| == |b| == |c|
    ensures Dist(a, b) == 0 <==> a == b
    ensures Dist(a, b) == Dist(b, a)
    ensures Dist(a, c) <= Dist(a, b) + Dist(b, c)
    ensures Dist(a, b) <= 8 * |a|
  {
    hide *;
    DistIs(a, b);
    DistIs(b, a);
    DistIs(a, c);
    DistIs(b, c);
    if a != [] {
      var n := |a| - 1;
      MemMetric(a[..n], b[..n], c[..n]);
      ByteMetric(a[n], b[n], c[n]);
      LastByte(a, b);
    }
  }

  lemma DistIs(a: seq<Byte>, b: seq<Byte>)
    requires |a| == |b|
    ensures a == [] ==> Dist(a, b) == 0
    ensures a != [] ==> Dist(a, b) == Dist(a[..|a| - 1], b[..|b| - 1]) + ByteDist(a[|a| - 1], b[|b| - 1])
  {
  }

  lemma LastByte(a: seq<Byte>, b: seq<Byte>)
    requires |a| == |b| > 0
    ensures a == b <==> a[..|a| - 1] == b[..|b| - 1] && a[|a| - 1] == b[|b| - 1]
  {
    assert a == a[..|a| - 1] + [a[|a| - 1]] && b == b[..|b| - 1] + [b[|b| - 1]];
  }

  // ---- registers ----

  datatype RegInfo = RegInfo(offset: nat, size: nat, regclass: nat)

  /** The slots lie in a buffer of so many bytes, and registers of one class have one size. */
  predicate LayoutFits(info: seq<RegInfo>, size: nat) {
    && (forall i :: 0 <= i < |info| ==> info[i].offset + info[i].size <= size)
    && (forall i, j :: 0 <= i < |info| && 0 <= j < |info| && info[i].regclass == info[j].regclass ==>
                       info[i].size == info[j].size)
  }

  function Slot(info: seq<RegInfo>, data: seq<Byte>, i: nat): seq<Byte>
    requires i < |info| && info[i].offset + info[i].size <= |data|
  {
    data[info[i].offset..info[i].offset + info[i].size]
  }

  /** get_reg_dist: the ai-th register at a against the bi-th at b; the sizes asserted equal. */
  method GetRegDist(info: seq<RegInfo>, a: seq<Byte>, b: seq<Byte>, ai: nat, bi: nat) returns (dist: nat)
    requires LayoutFits(info, |a|) && |a| == |b| && ai < |info| && bi < |info| && info[ai].size == info[bi].size
    ensures dist == Dist(Slot(info, a, ai), Slot(info, b, bi))
  {
    assert info[ai].size == info[bi].size;
    var aStart, bStart, size := info[ai].offset, info[bi].offset, info[ai].size;
    ghost var x, y := Slot(info, a, ai), Slot(info, b, bi);
    dist := 0;
    var i := 0;
    while i < size
      invariant 0 <= i <= size && dist == Dist(x[..i], y[..i])
    {
      assert x[..i + 1][..i] == x[..i] && y[..i + 1][..i] == y[..i];
      dist := dist + ByteDist(a[aStart + i], b[bStart + i]);
      i := i + 1;
    }
    assert x[..size] == x && y[..size] == y;
  }

  /** The bits in which output register i differs. */
  function Strict(info: seq<RegInfo>, rw: seq<Byte>, tg: seq<Byte>, i: nat): nat
    requires LayoutFits(info, |rw|) && |rw| == |tg| && i < |info|
  {
    Dist(Slot(info, rw, i), Slot(info, tg, i))
  }

  /** Some other dumped register of the same class, beyond the outputs, holds what output register i should. */
  predicate Elsewhere(info: seq<RegInfo>, outputs: nat, rw: seq<Byte>, tg: seq<Byte>, i: nat)
    requires LayoutFits(info, |rw|) && |rw| == |tg| && i < |info| && outputs <= |info|
  {
    exists j: nat :: outputs <= j < |info| && info[j].regclass == info[i].regclass
                     && Slot(info, rw, j) == Slot(info, tg, i)
  }

  /** What output register i contributes: its differing bits, or one when the value is merely in the wrong place. */
  function Relaxed(info: seq<RegInfo>, outputs: nat, rw: seq<Byte>, tg: seq<Byte>, i: nat): nat
    requires LayoutFits(info, |rw|) && |rw| == |tg| && i < |info| && outputs <= |info|
  {
    var d := Strict(info, rw, tg, i);
    if d > 1 && Elsewhere(info, outputs, rw, tg, i) then 1 else d
  }

  function RelaxedSum(info: seq<RegInfo>, outputs: nat, rw: seq<Byte>, tg: seq<Byte>, n: nat): nat
    requires LayoutFits(info, |rw|) && |rw| == |tg| && n <= outputs <= |info|
  {
    if n == 0 then 0 else RelaxedSum(info, outputs, rw, tg, n - 1) + Relaxed(info, outputs, rw, tg, n - 1)
  }

  function StrictSum(info: seq<RegInfo>, outputs: nat, rw: seq<Byte>, tg: seq<Byte>, n: nat): nat
    requires LayoutFits(info, |rw|) && |rw| == |tg| && n <= outputs <= |info|
  {
    if n == 0 then 0 else StrictSum(info, outputs, rw, tg, n - 1) + Strict(info, rw, tg, n - 1)
  }

  /** Every output register holds the target's value in its own slot. */
  predicate OutputsAgree(info: seq<RegInfo>, outputs: nat, rw: seq<Byte>, tg: seq<Byte>)
    requires LayoutFits(info, |rw|) && |rw| == |tg| && outputs <= |info|
  {
    forall i: nat :: i < outputs ==> Slot(info, rw, i) == Slot(info, tg, i)
  }

  /** The relaxed distance never exceeds the bitwise one, and vanishes exactly when all output registers agree. */
  lemma {:induction false} RelaxedBelowStrict(info: seq<RegInfo>, outputs: nat, rw: seq<Byte>, tg: seq<Byte>, n: nat)
    requires LayoutFits(info, |rw|) && |rw| == |tg| && n <= outputs <= |info|
    ensures RelaxedSum(info, outputs, rw, tg, n) <= StrictSum(info, outputs, rw, tg, n)
    ensures RelaxedSum(info, outputs, rw, tg, n) == 0 <==>
      forall i: nat :: i < n ==> Slot(info, rw, i) == Slot(info, tg, i)
  {
    hide Dist, Slot, Elsewhere, LayoutFits;
    if n > 0 {
      RelaxedBelowStrict(info, outputs, rw, tg, n - 1);
      OneBelowStrict(info, outputs, rw, tg, n - 1);
    }
  }

  lemma OneBelowStrict(info: seq<RegInfo>, outputs: nat, rw: seq<Byte>, tg: seq<Byte>, i: nat)
    requires LayoutFits(info, |rw|) && |rw| == |tg| && i < outputs <= |info|
    ensures Relaxed(info, outputs, rw, tg, i) <= Strict(info, rw, tg, i)
    ensures Relaxed(info, outputs, rw, tg, i) == 0 <==> Slot(info, rw, i) == Slot(info, tg, i)
  {
    hide Dist, Elsewhere;
    var a, b := Slot(info, rw, i), Slot(info, tg, i);
    MemMetric(a, b, a);
  }

  /**
   * A register counts the bits in which it differs, or one when it differs in more and another dumped register of its
   * class holds the value.
   */
  lemma MisplacedCostsOne(info: seq<RegInfo>, outputs: nat, rw: seq<Byte>, tg: seq<Byte>, i: nat)
    requires LayoutFits(info, |rw|) && |rw| == |tg| && i < outputs <= |info|
    ensures var bits := |DifferingPlaces(Slot(info, rw, i), Slot(info, tg, i))|;
            Relaxed(info, outputs, rw, tg, i) ==
            if bits > 1 && (exists j: nat :: outputs <= j < |info| && info[j].regclass == info[i].regclass
                                             && Slot(info, rw, j) == Slot(info, tg, i))
            then 1 else bits
  {
    DistCounts(Slot(info, rw, i), Slot(info, tg, i));
  }

  /** The slots follow one another. */
  predicate InOrder(info: seq<RegInfo>) {
    forall i, j :: 0 <= i < j < |info| ==> info[i].offset + info[i].size <= info[j].offset
  }

  /** Slots that follow one another differ, all together, in no more bits than the buffer has. */
  lemma {:induction false} StrictAtMost(info: seq<RegInfo>, outputs: nat, rw: seq<Byte>, tg: seq<Byte>, n: nat)
    requires LayoutFits(info, |rw|) && InOrder(info) && |rw| == |tg| && n <= outputs <= |info|
    ensures StrictSum(info, outputs, rw, tg, n) <= 8 * (if n == 0 then 0 else info[n - 1].offset + info[n - 1].size)
    ensures StrictSum(info, outputs, rw, tg, n) <= 8 * |rw|
  {
    if n > 0 {
      StrictAtMost(info, outputs, rw, tg, n - 1);
      var a, b := Slot(info, rw, n - 1), Slot(info, tg, n - 1);
      MemMetric(a, b, a);
      if n > 1 { assert info[n - 2].offset + info[n - 2].size <= info[n - 1].offset; }
    }
  }

  /** The register part of the comparison in the forked child. */
  method RegDistance(info: seq<RegInfo>, outputs: nat, rw: seq<Byte>, tg: seq<Byte>) returns (regDist: nat)
    requires LayoutFits(info, |rw|) && |rw| == |tg| && outputs <= |info|
    ensures regDist == RelaxedSum(info, outputs, rw, tg, outputs)
    ensures regDist <= StrictSum(info, outputs, rw, tg, outputs)
    ensures regDist == 0 <==> OutputsAgree(info, outputs, rw, tg)
  {
    hide Dist;
    regDist := 0;
    var i := 0;
    while i < outputs
      invariant 0 <= i <= outputs && regDist == RelaxedSum(info, outputs, rw, tg, i)
    {
      var dist := GetRegDist(info, rw, tg, i, i);
      if dist != 0 && 1 < dist {
        dist := LookElsewhere(info, outputs, rw, tg, i, dist);
      }
      regDist := regDist + dist;
      i := i + 1;
    }
    RelaxedBelowStrict(info, outputs, rw, tg, outputs);
  }

  /** The search of the registers beyond the outputs. */
  method LookElsewhere(info: seq<RegInfo>, outputs: nat, rw: seq<Byte>, tg: seq<Byte>, i: nat, dist0: nat)
      returns (dist: nat)
    requires LayoutFits(info, |rw|) && |rw| == |tg| && i < outputs <= |info| && dist0 == Strict(info, rw, tg, i) > 1
    ensures dist == Relaxed(info, outputs, rw, tg, i)
  {
    var j := outputs;
    while j < |info|
      invariant outputs <= j <= |info|
      invariant forall k: nat :: outputs <= k < j && info[k].regclass == info[i].regclass ==>
                                 Slot(info, rw, k) != Slot(info, tg, i)
    {
      if info[i].regclass == info[j].regclass {
        var d := GetRegDist(info, rw, tg, j, i);
        MemMetric(Slot(info, rw, j), Slot(info, tg, i), Slot(info, tg, i));
        if d == 0 {
          return 1;
        }
      }
      j := j + 1;
    }
    return dist0;
  }
}
