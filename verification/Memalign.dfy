/** memalign: a larger chunk, from which the part that starts at an aligned address is kept. */
module Memalign {
  import opened Words
  import opened Memory
  import opened Sizes
  import opened Layouts
  import opened State
  import opened HeapSteps
  import opened Chunks
  import opened Carve
  import opened Binning
  import opened Runs
  import opened Allocate
  import opened Free
  import opened Calloc
  import opened Realloc

  // ---- alignments ----

  /** The least power-of-two multiple of a that reaches n. */
  function DoubleTo(a: nat, n: nat): (r: nat)
    requires a > 0
    ensures r >= a && r >= n
    decreases if a < n then n - a else 0
  {
    if a >= n then a else DoubleTo(2 * a, n)
  }

  /** The alignment that is used: a power of two, at least a minimal chunk. */
  function Rounded(alignment: nat): (r: nat)
    ensures r >= 32 && r >= alignment
  {
    DoubleTo(32, alignment)
  }

  lemma {:induction false} DoubleToIs(j: nat, n: nat) returns (k: nat)
    requires Pow2(j) < n ==> Pow2(j) > 0
    ensures k >= j && DoubleTo(Pow2(j), n) == Pow2(k) >= n && (k == j || Pow2(k - 1) < n)
    decreases if Pow2(j) < n then n - Pow2(j) else 0
  {
    if Pow2(j) >= n {
      k := j;
    } else {
      assert Pow2(j + 1) == 2 * Pow2(j);
      k := DoubleToIs(j + 1, n);
    }
  }

  lemma {:induction false} Pow2Grows(i: nat, j: nat)
    ensures i < j ==> Pow2(i) < Pow2(j)
    ensures i <= j ==> Pow2(i) <= Pow2(j)
  {
    if i < j - 1 { Pow2Grows(i, j - 1); }
    if i < j { assert Pow2(j) == 2 * Pow2(j - 1); }
  }

  /** A power of two of at least a minimal chunk is its own rounding; every rounding is the least such power. */
  lemma RoundedIsLeast(alignment: nat, k: nat)
    requires k >= 5 && Pow2(k) >= alignment
    ensures Rounded(alignment) <= Pow2(k) && (alignment == Pow2(k) ==> Rounded(alignment) == alignment)
  {
    assert Pow2(5) == 32 by { Pow2Values(); }
    var r := DoubleToIs(5, alignment);
    if k < r {
      Pow2Grows(k, r - 1);
    } else {
      Pow2Grows(r, k);
    }
  }

  ghost predicate IsPow2(x: nat) {
    exists k: nat :: x == Pow2(k)
  }

  lemma DoubleIsPow2(x: nat)
    requires x > 0
    ensures IsPow2(2 * x) <==> IsPow2(x)
    ensures x % 2 == 1 ==> (IsPow2(x) <==> x == 1)
  {
    if IsPow2(x) {
      var k: nat :| x == Pow2(k);
      assert Pow2(k + 1) == 2 * Pow2(k);
      if k > 0 { assert Pow2(k) == 2 * Pow2(k - 1); }
    }
    if IsPow2(2 * x) {
      var k: nat :| 2 * x == Pow2(k);
      assert k > 0 && Pow2(k) == 2 * Pow2(k - 1);
    }
    assert Pow2(0) == 1;
  }

  /** The test for a power of two. */
  lemma {:induction false} ClearLowest(x: nat)
    requires x > 0
    ensures And(x, x - 1) == 0 <==> IsPow2(x)
  {
    if x % 2 == 1 {
      DoubleIsPow2(x);
      AndSelf(x / 2);
    } else {
      ClearLowest(x / 2);
      DoubleIsPow2(x / 2);
      assert (x - 1) / 2 == x / 2 - 1;
    }
  }

  lemma {:induction false} AndSelf(x: nat)
    ensures And(x, x) == x
  {
    if x > 0 { AndSelf(x / 2); }
  }

  /** Masking with alignment - 1 is the remainder. */
  lemma {:induction false} LowMask(x: nat, k: nat)
    ensures And(x, Pow2(k) - 1) == x % Pow2(k)
  {
    if k == 0 {
      AndZero(x);
      assert Pow2(0) == 1;
    } else {
      hide *;
      LowMask(x / 2, k - 1);
      Pow2Double(k);
      AndOdd(x, Pow2(k - 1), Pow2(k));
      ModDouble(x, Pow2(k - 1), Pow2(k));
    }
  }

  lemma AndOdd(x: nat, p: nat, d: nat)
    requires p > 0 && d == 2 * p
    ensures And(x, d - 1) == 2 * And(x / 2, p - 1) + x % 2
  {
    assert (d - 1) / 2 == p - 1 && (d - 1) % 2 == 1;
  }

  lemma ModDouble(x: nat, p: nat, d: nat)
    requires p > 0 && d == 2 * p
    ensures x % d == 2 * (x / 2 % p) + x % 2
  {
    var y := x / 2;
    var q := y / p;
    assert x == 2 * y + x % 2;
    assert y == p * q + y % p;
    assert x == (2 * p) * q + (2 * (y % p) + x % 2) by { assert 2 * (p * q) == (2 * p) * q; }
    DivUnique(x, d, q, 2 * (y % p) + x % 2);
  }

  /** Masking with -alignment rounds down to a multiple. */
  lemma {:induction false} HighMask(x: nat, k: nat, w: nat)
    requires k <= w && x < Pow2(w)
    ensures Pow2(k) <= Pow2(w)
    ensures And(x, Pow2(w) - Pow2(k)) == x - x % Pow2(k)
  {
    Pow2Grows(k, w);
    if k > 0 {
      hide *;
      Pow2Double(w);
      Pow2Double(k);
      HighMask(x / 2, k - 1, w - 1);
      MaskStep(x, Pow2(k - 1), Pow2(k), Pow2(w - 1) - Pow2(k - 1), Pow2(w) - Pow2(k));
    } else {
      hide *;
      MaskNone(x, w, Pow2(0));
    }
  }

  lemma MaskNone(x: nat, w: nat, one: nat)
    requires x < Pow2(w) && one == Pow2(0)
    ensures one > 0 && And(x, Pow2(w) - one) == x - x % one
  {
    AndOnes(x, w);
    assert one == 1;
  }

  lemma MaskStep(x: nat, p: nat, d: nat, h: nat, mask: nat)
    requires p > 0 && d == 2 * p && mask == 2 * h && And(x / 2, h) == x / 2 - x / 2 % p
    ensures And(x, mask) == x - x % d
  {
    ModDouble(x, p, d);
    assert mask / 2 == h && mask % 2 == 0;
    assert And(x, mask) == 2 * And(x / 2, h);
  }

  lemma {:induction false} AndOnes(x: nat, w: nat)
    requires x < Pow2(w)
    ensures And(x, Pow2(w) - 1) == x
  {
    if w > 0 {
      AndOnes(x / 2, w - 1);
      assert (Pow2(w) - 1) / 2 == Pow2(w - 1) - 1 && (Pow2(w) - 1) % 2 == 1;
    } else {
      AndZero(x);
    }
  }

  /** The doubling loop of the source reaches its bound before it wraps to zero exactly up to half the address space. */
  lemma {:induction false} DoublingReaches(alignment: U64)
    ensures (exists k: nat :: Doubled(k) >= alignment) <==> alignment <= 0x8000_0000_0000_0000
  {
    Doubled63();
    forall k: nat ensures Doubled(k) <= 0x8000_0000_0000_0000 { DoubledAtMost(k); }
    assert alignment <= 0x8000_0000_0000_0000 ==> Doubled(58) >= alignment;
  }

  /** 32 doubled k times, in 64 bits. */
  function Doubled(k: nat): U64 {
    if k == 0 then 32 else Doubled(k - 1) * 2 % 0x1_0000_0000_0000_0000
  }

  lemma {:induction false} DoubledAtMost(k: nat)
    ensures if k <= 58 then Doubled(k) == Pow2(k + 5) && Pow2(k + 5) <= 0x8000_0000_0000_0000 else Doubled(k) == 0
  {
    hide *;
    Pow2Of5();
    Pow2Of63();
    DoubledIs(k);
    if k > 0 {
      DoubledAtMost(k - 1);
      Twice(Doubled(k - 1));
      Pow2Double(k + 5);
      if k <= 58 {
        Pow2Grows(k + 5, 63);
        Pow2Grows(k + 4, 63);
      }
    }
  }

  lemma DoubledIs(k: nat)
    ensures Doubled(k) == if k == 0 then 32 else Doubled(k - 1) * 2 % 0x1_0000_0000_0000_0000
  {
  }

  lemma DoubleToUnfold(a: nat, n: nat)
    requires a > 0
    ensures DoubleTo(a, n) == if a >= n then a else DoubleTo(2 * a, n)
  {
  }

  lemma RoundedTo(alignment: nat)
    ensures Rounded(alignment) == DoubleTo(32, if alignment < 32 then 32 else alignment)
    ensures alignment < 32 ==> Rounded(alignment) == Rounded(32)
  {
  }

  /** One turn of the loop: the doubled alignment still fits in 64 bits. */
  lemma OneDoubling(k: nat, n: nat)
    requires 5 <= k <= 63 && Pow2(k) < n <= 0x8000_0000_0000_0000
    ensures k < 63 && Pow2(k) * 2 % 0x1_0000_0000_0000_0000 == Pow2(k + 1) == 2 * Pow2(k) <= 0x8000_0000_0000_0000
    ensures DoubleTo(Pow2(k), n) == DoubleTo(2 * Pow2(k), n)
  {
    hide *;
    Pow2Of63();
    Pow2Grows(63, k);
    Pow2Double(k + 1);
    Pow2Grows(k + 1, 63);
    DoubleToUnfold(Pow2(k), n);
  }

  lemma PowerIn(x: nat) returns (k: nat)
    requires IsPow2(x) && x <= 0x8000_0000_0000_0000
    ensures x == Pow2(k) && k <= 63
  {
    k :| x == Pow2(k);
    Pow2Of63();
    Pow2Grows(63, k);
  }

  lemma Pow2Of4()
    ensures Pow2(4) == 16
  {
    Pow2Values();
  }

  lemma Pow2Of63()
    ensures Pow2(63) == 0x8000_0000_0000_0000
  {
    Pow2Values();
  }

  lemma Twice(x: nat)
    ensures x < 0x8000_0000_0000_0000 ==> x * 2 % 0x1_0000_0000_0000_0000 == 2 * x
    ensures x == 0x8000_0000_0000_0000 ==> x * 2 % 0x1_0000_0000_0000_0000 == 0
  {
  }

  lemma Doubled63()
    ensures Doubled(58) == 0x8000_0000_0000_0000
  {
    DoubledAtMost(58);
    Pow2Values();
  }

  // ---- memalign ----

  /** The alignment loop. */
  method RoundAlignment(alignment0: U64) returns (alignment: int, ghost k: nat)
    requires alignment0 <= 0x8000_0000_0000_0000
    ensures 5 <= k <= 63 && alignment == Rounded(alignment0) == Pow2(k) && 32 <= alignment <= 0x8000_0000_0000_0000
  {
    hide *;
    alignment := if alignment0 < 32 then 32 else alignment0;
    ClearLowest(alignment);
    Pow2Of5();
    Pow2Of63();
    RoundedTo(alignment0);
    k := 5;
    if And(alignment, alignment - 1) != 0 {
      var a := 32;
      while a < alignment
        invariant 5 <= k <= 63 && a == Pow2(k) <= 0x8000_0000_0000_0000
        invariant DoubleTo(a, alignment) == DoubleTo(32, alignment)
        decreases alignment - a
      {
        OneDoubling(k, alignment);
        a := a * 2 % 0x1_0000_0000_0000_0000;
        k := k + 1;
      }
      DoubleToUnfold(a, alignment);
      alignment := a;
    } else {
      k := PowerIn(alignment);
      Pow2Grows(k, 4);
      Pow2Of4();
      RoundedIsLeast(alignment, k);
    }
  }

  /** The next aligned spot, or the one after when the first leaves no room for a chunk before it. */
  function AlignedSpot(p: int, alignment: nat): int
    requires p >= 0 && alignment > 0
  {
    var mem := p + 16;
    var br := And(mem + alignment - 1, Neg64(alignment)) - 16;
    if br - p >= 32 then br else br + alignment
  }

  function Neg64(x: nat): nat {
    if 0 < x <= 0x1_0000_0000_0000_0000 then 0x1_0000_0000_0000_0000 - x else 0
  }

  lemma SpotIs(p: int, alignment: nat)
    requires p >= 0 && alignment > 0
    ensures AlignedSpot(p, alignment) ==
      var br := And(p + 16 + alignment - 1, Neg64(alignment)) - 16; if br - p >= 32 then br else br + alignment
    ensures alignment <= 0x8000_0000_0000_0000 ==> Neg64(alignment) == 0x1_0000_0000_0000_0000 - alignment
  {
  }

  predicate MultipleOf(x: int, a: nat) {
    a > 0 && x % a == 0
  }

  lemma MultipleOfIs(x: int, a: nat)
    requires a > 0
    ensures MultipleOf(x, a) <==> x % a == 0
  {
  }

  /** The spot is aligned, and what lies before it is a chunk of its own that leaves room for the request. */
  lemma SpotFits(p: int, alignment: nat, k: nat)
    requires 0 <= p < 0x8000_0000_0000 && p % 16 == 0 && 5 <= k <= 63 && alignment == Pow2(k)
      && !MultipleOf(p + 16, alignment)
    requires alignment <= 0x8000_0000_0000_0000
    ensures var lead := AlignedSpot(p, alignment) - p;
            32 <= lead <= alignment + 16 && lead % 16 == 0 && MultipleOf(AlignedSpot(p, alignment) + 16, alignment)
  {
    hide *;
    SpotIs(p, alignment);
    UpSpot(p + 16, alignment, k);
    var up := And(p + 16 + alignment - 1, Neg64(alignment));
    Lead16(p, up - 16, alignment);
    var pos := AlignedSpot(p, alignment);
    assert pos + 16 == up || pos + 16 == up + alignment;
  }

  lemma UpSpot(mem: int, alignment: nat, k: nat)
    requires 0 <= mem < 0x8000_0000_0010 && mem % 16 == 0 && 5 <= k <= 63 && alignment == Pow2(k)
      && !MultipleOf(mem, alignment)
    requires alignment <= 0x8000_0000_0000_0000
    ensures var up := And(mem + alignment - 1, Neg64(alignment));
            0 < up - mem < alignment && (up - mem) % 16 == 0 && MultipleOf(up, alignment)
                && MultipleOf(up + alignment, alignment)
    ensures alignment % 16 == 0 && alignment >= 32
  {
    hide *;
    Pow2Values64();
    SpotIs(mem, alignment);
    var x := mem + alignment - 1;
    HighMask(x, k, 64);
    Pow2Multiple(k);
    Mod32(alignment);
    MultipleOfIs(mem, alignment);
    UpIs(mem, alignment, x - x % alignment);
    MultipleOfIs(x - x % alignment, alignment);
    MultipleOfIs(x - x % alignment + alignment, alignment);
  }

  lemma Pow2Values64()
    ensures Pow2(64) == 0x1_0000_0000_0000_0000
  {
    Pow2Values();
  }

  lemma Mod32(a: nat)
    requires a % 32 == 0
    ensures a % 16 == 0
  {
  }

  lemma Lead16(p: int, br: int, a: nat)
    requires p % 16 == 0 && a % 16 == 0 && a >= 32 && 0 < br - p < a && (br - p) % 16 == 0
    ensures br - p <= a - 16 && br - p + a >= 32 && (br + a - p) % 16 == 0
  {
  }

  lemma {:induction false} Pow2Multiple(k: nat)
    requires k >= 5
    ensures Pow2(k) % 32 == 0 && Pow2(k) >= 32
  {
    hide *;
    Pow2Of5();
    if k > 5 { Pow2Multiple(k - 1); Pow2Double(k); }
  }

  lemma Pow2Of5()
    ensures Pow2(5) == 32
  {
    Pow2Values();
  }

  lemma Pow2Double(k: nat)
    requires k > 0
    ensures Pow2(k) == 2 * Pow2(k - 1)
  {
  }

  lemma UpIs(mem: nat, a: nat, up: int)
    requires a > 0 && a % 16 == 0 && mem % 16 == 0 && mem % a != 0 && up == mem + a - 1 - (mem + a - 1) % a
    ensures 0 < up - mem < a && (up - mem) % 16 == 0 && up % a == 0 && (up + a) % a == 0
  {
    var q, r := mem / a, mem % a;
    RoundUp(mem, a, q, r);
    Multiples(a, q + 1, up);
    Mod16(a, q + 1);
    Difference16(up, mem);
  }

  lemma Difference16(x: int, y: int)
    requires x % 16 == 0 && y % 16 == 0
    ensures (x - y) % 16 == 0
  {
  }

  lemma RoundUp(mem: nat, a: nat, q: int, r: int)
    requires a > 0 && q == mem / a && r == mem % a && r > 0
    ensures mem == a * q + r && r < a && q >= 0 && mem + a - 1 - (mem + a - 1) % a == a * (q + 1) == mem - r + a
  {
    assert mem == a * q + r;
    assert a * (q + 1) == a * q + a;
    DivUnique(mem + a - 1, a, q + 1, r - 1);
  }

  lemma Multiples(a: nat, q: int, up: int)
    requires a > 0 && up == a * q
    ensures up % a == 0 && (up + a) % a == 0
  {
    DivUnique(up, a, q, 0);
    assert a * (q + 1) == a * q + a;
    DivUnique(up + a, a, q + 1, 0);
  }

  lemma Mod16(a: nat, q: nat)
    requires a % 16 == 0
    ensures (a * q) % 16 == 0
  {
    var b := a / 16;
    assert a * q == 16 * (b * q) by { assert a == 16 * b; assert 16 * b * q == 16 * (b * q); }
    DivUnique(a * q, 16, b * q, 0);
  }

  /** The leading piece before the aligned spot is given back. */
  method GiveBackLead(m: MallocState, p: int, lead: int, ghost B: map<int, int>)
    requires m.Valid() && p in m.L && m.L[p].kind.Live? && lead >= 32 && lead % 16 == 0 && lead + 32 <= m.L[p].size
    requires p !in B && Blocks(m.L) == B[p := m.L[p].size]
    modifies m`mem, m`smallmap, m`treemap, m`D, m`rings, m`trees, m`L, m`top, m`topsize, m`dv, m`dvsize
    ensures m.Valid() && PayloadKept(old(m.mem), m.mem, B)
    ensures p + lead in m.L && m.L[p + lead].kind.Live? && m.L[p + lead].size == old(m.L)[p].size - lead
    ensures p + lead !in B && Blocks(m.L) == B[p + lead := m.L[p + lead].size]
  {
    hide *;
    var size := ChunkSize(Rd(m.mem, p + 8));
    LiveFacts(m, p, p + m.L[p].size);
    var newp := p + lead;
    var newsize := size - lead;
    ghost var L0, m0, n := m.L, m.mem, p + size;
    ValidIs(m);
    JustP(m, p, n, {m.dv});
    NowIs(m);
    ConsistentIs(m, {m.dv});
    DvOutside(m.Now(), {m.dv}, m.dv, m.dvsize, p, n);
    BeyondSame({m.dv}, p, n);
    BlocksIs(m.L);
    NotInside(m.L, p, n, newp);
    SplitLead(m, p, lead, newsize, {m.dv});
    ghost var m1 := m.mem;
    DvElsewhere(L0, m.L, p, n, m.dv, m.dvsize);
    ValidIs(m);
    DisposeChunk(m, p, lead);
    BlocksIs(m.L);
    DropFirst(B, p, size, lead, newp, newsize);
    assert newp in Blocks(m.L) && Blocks(m.L)[newp] == newsize;
    PayloadThen(m0, m1, m.mem, B, Blocks(L0) - {p}, Blocks(m.L));
  }

  lemma DropFirst(B: map<int, int>, p: int, size: int, lead: int, q: int, newsize: int)
    requires p !in B && q !in B[p := size]
    ensures B[p := size] - {p} == B
    ensures (B[p := size] - {p})[p := lead][q := newsize] - {p} == B[q := newsize]
  {
  }

  /** What is left of a chunk that is aligned and may have spare room at its end. */
  method GiveBackTail(m: MallocState, p: int, nb: int, ghost B: map<int, int>)
    requires m.Valid() && p in m.L && m.L[p].kind.Live? && 32 <= nb <= m.L[p].size && nb % 16 == 0
    requires p !in B && Blocks(m.L) == B[p := m.L[p].size]
    modifies m`mem, m`smallmap, m`treemap, m`D, m`rings, m`trees, m`L, m`top, m`topsize, m`dv, m`dvsize
    ensures m.Valid() && PayloadKept(old(m.mem), m.mem, B)
    ensures p in m.L && m.L[p].kind.Live? && nb <= m.L[p].size <= nb + 32 && Blocks(m.L) == B[p := m.L[p].size]
    ensures m.L[p].size == if old(m.L)[p].size > nb + 32 then nb else old(m.L)[p].size
  {
    hide *;
    var size := ChunkSize(Rd(m.mem, p + 8));
    LiveFacts(m, p, p + m.L[p].size);
    PayloadRefl(m.mem, B);
    if size > nb + 32 {
      var rsize := size - nb;
      ghost var L0, m0 := m.L, m.mem;
      ValidIs(m);
      JustP(m, p, p + size, {m.dv});
      NowIs(m);
      ConsistentIs(m, {m.dv});
      DvOutside(m.Now(), {m.dv}, m.dv, m.dvsize, p, p + size);
      BeyondSame({m.dv}, p, p + size);
      KeepFirst(m, p, nb, rsize, {m.dv});
      ResizedIs(L0, m.L, m0, m.mem, p, nb);
      UptoIs(Blocks(L0), p, m.L[p].size);
      BlocksIs(m.L);
      assert Blocks(m.L) == B[p := nb];
      assert Blocks(m.L)[p] == nb;
      PayloadThen(m0, m0, m.mem, B, B, Upto(Blocks(L0), p, m.L[p].size)) by { PayloadRefl(m0, B); }
    }
  }

  /** The block of a padded request, cut down to where it is aligned. */
  method AlignBlock(m: MallocState, p0: int, alignment: nat, ghost k: nat, nb: int, ghost B: map<int, int>)
    returns (p: int)
    requires m.Valid() && p0 in m.L && m.L[p0].kind.Live? && nb + alignment + 32 <= m.L[p0].size + 8
    requires 5 <= k <= 63 && alignment == Pow2(k) && 32 <= alignment <= 0x8000_0000_0000_0000
    requires 32 <= nb && nb % 16 == 0 && p0 !in B && Blocks(m.L) == B[p0 := m.L[p0].size]
    modifies m`mem, m`smallmap, m`treemap, m`D, m`rings, m`trees, m`L, m`top, m`topsize, m`dv, m`dvsize
    ensures m.Valid() && PayloadKept(old(m.mem), m.mem, B) && p > 0 && (p + 16) % alignment == 0
    ensures p !in B && p in m.L && nb <= m.L[p].size <= nb + 32 && Blocks(m.L) == B[p := m.L[p].size]
  {
    hide *;
    p := p0;
    LiveFacts(m, p, p + m.L[p].size);
    Below47(m, p);
    ghost var m0 := m.mem;
    LowMask(p + 16, k);
    PayloadRefl(m.mem, B);
    if And(p + 16, alignment - 1) != 0 {
      MultipleOfIs(p + 16, alignment);
      SpotFits(p, alignment, k);
      var pos := AlignedSpot(p, alignment);
      GiveBackLead(m, p, pos - p, B);
      p := pos;
      MultipleOfIs(p + 16, alignment);
    }
    ghost var m1 := m.mem;
    GiveBackTail(m, p, nb, B);
    PayloadThen(m0, m1, m.mem, B, B, B);
    NonNull(m, p);
  }

  /** Null is the answer to the request padded by the alignment. */
  ghost predicate DeniedAligned(L: Layout, c: Outside, alignment: U64, bytes: U64) {
    var req := Request2Size(bytes) + Rounded(alignment) + 24;
    0 <= req < 0x1_0000_0000_0000_0000 && Denied(L, c, ChunkRequest(req))
  }

  lemma DeniedAlignedIs(L: Layout, c: Outside, alignment: U64, bytes: U64)
    ensures var req := Request2Size(bytes) + Rounded(alignment) + 24;
            0 <= req < 0x1_0000_0000_0000_0000 ==>
              (DeniedAligned(L, c, alignment, bytes) <==> Denied(L, c, ChunkRequest(req)))
  {
    hide Request2Size, Rounded, Denied, ChunkRequest;
  }

  /**
   * dlmemalign for alignments beyond that of malloc: a new block at a multiple of the rounded alignment with at least
   * the padded request, or null when nothing in the heap fits the request padded by the alignment; and every other
   * block untouched.
   */
  method MemalignMem(m: MallocState, alignment0: U64, bytes: U64) returns (mem: int)
    requires m.Valid() && alignment0 <= 0x8000_0000_0000_0000
    modifies m
    ensures m.Valid() && PayloadKept(old(m.mem), m.mem, Blocks(old(m.L)))
    ensures mem == 0 ==> Blocks(m.L) == Blocks(old(m.L))
    ensures mem != 0 ==> mem % Rounded(alignment0) == 0 && mem - 16 !in Blocks(old(m.L)) && mem - 16 in m.L
    ensures mem != 0 ==> Blocks(m.L) == Blocks(old(m.L))[mem - 16 := m.L[mem - 16].size]
    ensures mem != 0 ==> Request2Size(bytes) <= m.L[mem - 16].size <= Request2Size(bytes) + 32
    ensures bytes >= 0xFFFF_FFFF_FFFF_FF80 - Rounded(alignment0) ==> mem == 0
    ensures bytes < 0xFFFF_FFFF_FFFF_FF80 - Rounded(alignment0) ==>
      (mem == 0 <==> DeniedAligned(old(m.L), old(m.Side()), alignment0, bytes))
  {
    hide *;
    ghost var L0, m0, B := m.L, m.mem, Blocks(m.L);
    ghost var k;
    var alignment;
    alignment, k := RoundAlignment(alignment0);
    mem := 0;
    PayloadRefl(m.mem, B);
    if bytes < 0xFFFF_FFFF_FFFF_FF80 - alignment {
      var nb := Request2Size(bytes);
      Padding(bytes, alignment);
      var req := nb + alignment + 32 - 8;
      DeniedAlignedIs(L0, m.Side(), alignment0, bytes);
      mem := Malloc(m, req);
      if mem == 0 {
        ServedSameLive(L0, m.L, mem, ChunkRequest(req));
      } else {
        ServedRoom(m, L0, mem, req);
        ghost var m1 := m.mem;
        var p := AlignBlock(m, mem - 16, alignment, k, nb, B);
        PayloadThen(m0, m1, m.mem, B, B, B);
        mem := p + 16;
      }
    }
  }

  lemma NonNull(m: MallocState, p: int)
    requires m.Valid() && p in m.L
    ensures p >= 0x2000
  {
    hide *;
    ValidIs(m);
    NowIs(m);
    ConsistentIs(m, {m.dv});
    ChunkFacts(m.Now(), {m.dv}, p);
  }

  lemma Below47(m: MallocState, p: int)
    requires m.Valid() && p in m.L
    ensures p < 0x8000_0000_0000
  {
    hide *;
    ValidIs(m);
    NowIs(m);
    ConsistentIs(m, {m.dv});
    ChunkFacts(m.Now(), {m.dv}, p);
  }

  /** The padded request: no overflow, and room for the request behind the furthest aligned spot. */
  lemma Padding(bytes: U64, alignment: nat)
    requires 32 <= alignment <= 0x8000_0000_0000_0000 && bytes < 0xFFFF_FFFF_FFFF_FF80 - alignment
    ensures var nb := Request2Size(bytes); var req := nb + alignment + 32 - 8;
            32 <= nb && nb % 16 == 0 && 0 <= req < 0x1_0000_0000_0000_0000 && nb + alignment + 16 + 16 <= req + 8
  {
    Request2SizeFits(bytes);
  }
}
