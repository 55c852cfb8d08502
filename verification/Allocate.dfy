/** malloc: the bins, the designated victim, top, and at last the system. */
module Allocate {
  import opened Words
  import opened Memory
  import opened Sizes
  import opened BinMaps
  import opened Layouts
  import opened Bins
  import opened State
  import opened HeapSteps
  import opened Chunks
  import opened Carve
  import opened Binning
  import opened Runs
  import opened BestFit
  import opened FreeLists
  import opened SystemMemory
  import TI = TreeIndex

  // ---- which small bins can serve ----

  lemma {:induction false} ShiftBack(m: nat, i: nat, j: nat)
    ensures Shr(m, i) >= 0 && Shr(m, i) * Pow2(i) <= m
    ensures Bit(Shr(m, i) * Pow2(i), j) == (j >= i && Bit(m, j))
  {
    ShrNonNegative(m, i);
    if i > 0 {
      ShrStep(m, i - 1);
      ShiftBack(m / 2, i - 1, if j > 0 then j - 1 else 0);
      var x := Shr(m / 2, i - 1) * Pow2(i - 1);
      assert Shr(m, i) * Pow2(i) == 2 * x by {
        assert Shr(m, i) == Shr(m / 2, i - 1);
        assert Pow2(i) == 2 * Pow2(i - 1);
        Regroup(Shr(m, i), Pow2(i - 1));
      }
      assert (2 * x) / 2 == x && (2 * x) % 2 == 0;
    } else {
      assert Pow2(0) == 1;
    }
  }

  lemma Regroup(a: int, b: int)
    ensures a * (2 * b) == 2 * (a * b)
  {
  }

  lemma {:induction false} LowTwoBits(x: nat)
    ensures And(x, 3) != 0 <==> Bit(x, 0) || Bit(x, 1)
    ensures x % 2 == 1 <==> Bit(x, 0)
  {
    assert And(x / 2 / 2, 0) == 0 by { AndZero(x / 2 / 2); }
    assert And(x / 2, 1) == 2 * And(x / 2 / 2, 0) + (if x / 2 % 2 == 1 then 1 else 0);
    assert Bit(x, 1) == Bit(x / 2, 0);
  }

  lemma AndZero(x: nat)
    ensures And(x, 0) == 0
  {
  }

  /** The bins above idx, as malloc isolates them. */
  function ShiftedMap(smallbits: nat, idx: nat): U32 {
    Shl32(smallbits, idx)
  }

  lemma SmallBits(map0: U32, idx: nat)
    requires idx < 31
    ensures Shr(map0, idx) >= 0
    ensures And(Shr(map0, idx), 3) != 0 <==> Marked(map0, idx) || Marked(map0, idx + 1)
    ensures Shr(map0, idx) % 2 == 1 <==> Marked(map0, idx)
    ensures Shr(map0, idx) == 0 ==> forall j: nat :: idx <= j < 32 ==> !Marked(map0, j)
    ensures Shr(map0, idx) != 0 && And(Shr(map0, idx), 3) == 0 ==>
      (BitsAbove(ShiftedMap(Shr(map0, idx), idx), idx) != 0
       && var i := NextMarked(ShiftedMap(Shr(map0, idx), idx), idx);
          idx + 1 < i < 32 && Marked(map0, i) && forall j: nat :: idx <= j < i ==> !Marked(map0, j))
  {
    var sb := Shr(map0, idx);
    ShrNonNegative(map0, idx);
    LowTwoBits(sb);
    ShiftedBits(map0, idx, 0);
    ShiftedBits(map0, idx, 1);
    ShiftBack(map0, idx, 0);
    var sh := ShiftedMap(sb, idx);
    assert sh == sb * Pow2(idx);
    forall j: nat | j < 32 ensures Marked(sh, j) == (j >= idx && Marked(map0, j)) { ShiftBack(map0, idx, j); }
    if sb == 0 {
      ZeroIffUnmarked(sh);
      assert sh == 0;
    } else if And(sb, 3) == 0 {
      NonZero(sb, idx);
      ZeroIffUnmarked(sh);
      BitsAboveSpec(sh, idx);
      NextMarkedIsScan(sh, idx);
    }
  }

  lemma NonZero(sb: nat, idx: nat)
    requires sb > 0
    ensures sb * Pow2(idx) > 0
  {
    MulAtLeast(Pow2(idx), sb);
  }

  /** Without marked bins from idx on, no small chunk is large enough. */
  lemma NoSmall(m: MallocState, out: set<int>, idx: nat)
    requires m.Consistent(out) && idx < 32 && forall j: nat :: idx <= j < 32 ==> !Marked(m.smallmap, j)
    ensures forall y :: y in m.D && m.D[y] < 256 ==> m.D[y] < 8 * idx
  {
    hide *;
    BinsOf(m, out);
    BinsValidIs(m);
    forall y | y in m.D && m.D[y] < 256 ensures m.D[y] < 8 * idx {
      SmallInMarked(m.mem, m.smallmap, m.treemap, m.D, m.rings, m.trees, y);
    }
  }

  lemma SmallInMarked(m: Mem, smallmap: U32, treemap: U32, D: map<int, int>, rings: seq<seq<int>>,
                      trees: seq<Tries.Tree>, y: int)
    requires BinsOK(m, smallmap, treemap, D, rings, trees) && y in D && D[y] < 256
    ensures 32 <= D[y] && D[y] % 16 == 0 && Marked(smallmap, D[y] / 8)
  {
    hide LargeOK, Rings.Ring;
    assert ChunkOK(m, y, D[y]);
    assert y in rings[D[y] / 8];
    assert SmallBinOK(m, smallmap, D[y] / 8, rings[D[y] / 8], D);
  }

  lemma NoLarge(m: MallocState, out: set<int>)
    requires m.Consistent(out) && m.treemap == 0
    ensures forall y :: y in m.D ==> m.D[y] < 256
  {
    hide *;
    BinsOf(m, out);
    BinsValidIs(m);
    ZeroIffUnmarked(m.treemap);
    forall y | y in m.D ensures m.D[y] < 256 {
      if m.D[y] >= 256 { LargeInMarked(m.mem, m.smallmap, m.treemap, m.D, m.rings, m.trees, y); }
    }
  }

  lemma LargeInMarked(m: Mem, smallmap: U32, treemap: U32, D: map<int, int>, rings: seq<seq<int>>,
                      trees: seq<Tries.Tree>, y: int)
    requires BinsOK(m, smallmap, treemap, D, rings, trees) && y in D && D[y] >= 256
    ensures exists i: nat :: i < 32 && Marked(treemap, i)
  {
    hide SmallOK, Tries.Shape, TrieLinks.Rep, Tries.Holds;
    assert ChunkOK(m, y, D[y]);
    var i := TI.Index(D[y]);
    TI.IndexBounds(D[y]);
    assert TreeBinOK(m, treemap, i, trees[i], D);
  }

  // ---- which chunk serves a request ----

  /** Of the binned chunks that suffice, p is a smallest. */
  ghost predicate LeastFit(D: map<int, int>, nb: int, p: int) {
    p in D && D[p] >= nb && forall y :: y in D && D[y] >= nb ==> D[p] <= D[y]
  }

  lemma LeastFitIs(D: map<int, int>, nb: int, p: int)
    ensures LeastFit(D, nb, p) <==> p in D && D[p] >= nb && forall y :: y in D && D[y] >= nb ==> D[p] <= D[y]
  {
  }

  /**
   * A binned chunk suffices, and the designated victim does not, or the chunk fits exactly, or it is large and fits
   * better.
   */
  ghost predicate BinsServe(D: map<int, int>, dvsize: int, nb: int) {
    exists y :: y in D && D[y] >= nb && (nb <= dvsize ==> D[y] < if nb < 256 then nb + 16 else dvsize)
  }

  lemma BinsServeIf(D: map<int, int>, dvsize: int, nb: int, y: int)
    requires y in D && D[y] >= nb && (nb <= dvsize ==> D[y] < if nb < 256 then nb + 16 else dvsize)
    ensures BinsServe(D, dvsize, nb)
  {
  }

  lemma BinsServeNot(D: map<int, int>, dvsize: int, nb: int)
    requires forall y :: y in D && D[y] >= nb ==> nb <= dvsize && D[y] >= if nb < 256 then nb + 16 else dvsize
    ensures !BinsServe(D, dvsize, nb)
  {
  }

  /** What is taken of a chunk: all of it when the rest would be too small for a chunk. */
  function Fitted(size: int, nb: int): int {
    if size - nb < 32 then size else nb
  }

  lemma FittedIs(size: int, nb: int)
    ensures Fitted(size, nb) == if size - nb < 32 then size else nb
  {
  }

  /** The designated victim after a chunk from a small bin, or the smallest of the large chunks, was cut. */
  predicate Remainder(dv: int, dvsize: int, dv': int, dvsize': int, p: int, size: int, nb: int) {
    if size - nb < 32 then dv' == dv && dvsize' == dvsize else dv' == p + nb && dvsize' == size - nb
  }

  lemma RemainderIs(dv: int, dvsize: int, dv': int, dvsize': int, p: int, size: int, nb: int)
    ensures Remainder(dv, dvsize, dv', dvsize', p, size, nb) <==>
      if size - nb < 32 then dv' == dv && dvsize' == dvsize else dv' == p + nb && dvsize' == size - nb
  {
  }

  // ---- serving a request from one free chunk ----

  /** The whole chunk, which exceeds the request by less than a chunk. */
  method UseWhole(m: MallocState, p: int, psize: int, nb: int) returns (mem: int)
    requires m.Consistent({m.dv} + {p}) && DvOK(m.L, m.dv, m.dvsize) && p != m.dv
    requires p in m.L && m.L[p].kind.Free? && m.L[p].size == psize && nb <= psize < nb + 32
    modifies m`mem, m`L
    ensures m.Valid() && mem == p + 16 && mem != 0 && Served(old(m.L), m.L, mem, nb)
      && PayloadKept(old(m.mem), m.mem, Blocks(old(m.L)))
    ensures p in m.L && m.L[p].size == psize
  {
    hide *;
    FreeNow(m, {m.dv} + {p}, p);
    BeyondPair(m.dv, p, p, p + psize);
    ghost var L0 := m.L;
    TakeWhole(m, p, psize, {m.dv} + {p});
    mem := p + 16;
    ServedIs(L0, m.L, mem, nb);
    ValidIs(m);
  }

  /** A free chunk: its address is positive and the designated victim is not inside it. */
  lemma FreeNow(m: MallocState, out: set<int>, p: int)
    requires m.Consistent(out) && DvOK(m.L, m.dv, m.dvsize) && p in m.L && m.L[p].kind.Free?
    ensures p > 0 && m.L[p].size >= 32 && m.L[p].size % 16 == 0
    ensures m.dv == p || m.dv < p || m.dv >= p + m.L[p].size
    ensures m.dv == 0 <==> m.dvsize == 0
  {
    hide *;
    NowIs(m);
    ConsistentIs(m, out);
    ChunkFacts(m.Now(), out, p);
    DvPositive(m.Now(), out, m.dv, m.dvsize);
    if p < m.dv { NotBetween(m.Now(), out, p, m.dv); }
  }

  /**
   * Part of a chunk that is out of its bin; the remainder becomes the designated victim, which is known to be small.
   */
  method CarveToDv(m: MallocState, p: int, nb: int, rsize: int) returns (mem: int)
    requires m.Consistent({m.dv} + {p}) && DvOK(m.L, m.dv, m.dvsize) && p != m.dv && m.dvsize < 256
    requires p in m.L && m.L[p].kind.Free? && m.L[p].size == nb + rsize && nb >= 32 && nb % 16 == 0 && rsize >= 32
    modifies m`mem, m`L, m`smallmap, m`D, m`rings, m`dv, m`dvsize
    ensures m.Valid() && mem == p + 16 && mem != 0 && Served(old(m.L), m.L, mem, nb)
      && PayloadKept(old(m.mem), m.mem, Blocks(old(m.L)))
    ensures m.dv == p + nb && m.dvsize == rsize && p in m.L && m.L[p].size == nb
  {
    hide *;
    FreeNow(m, {m.dv} + {p}, p);
    BeyondPair(m.dv, p, p, p + nb + rsize);
    ghost var L0, m0 := m.L, m.mem;
    ghost var d0 := m.dv;
    TakePart(m, p, nb, rsize, {m.dv} + {p});
    ghost var m1 := m.mem;
    var r := p + nb;
    ReplaceDv(m, r, rsize, {m.dv} + {r});
    assert {d0} + {r} - {d0} == {r};
    mem := p + 16;
    ServedIs(L0, m.L, mem, nb);
    PayloadThen(m0, m1, m.mem, Blocks(L0), Blocks(L0), Blocks(m.L));
    ValidIs(m);
  }

  /** Part of a chunk that is out of its bin; the remainder is binned. */
  method CarveToBin(m: MallocState, p: int, nb: int, rsize: int) returns (mem: int)
    requires m.Consistent({m.dv} + {p}) && DvOK(m.L, m.dv, m.dvsize) && p != m.dv
    requires p in m.L && m.L[p].kind.Free? && m.L[p].size == nb + rsize && nb >= 32 && nb % 16 == 0 && rsize >= 32
    modifies m`mem, m`L, m`smallmap, m`treemap, m`D, m`rings, m`trees
    ensures m.Valid() && mem == p + 16 && mem != 0 && Served(old(m.L), m.L, mem, nb)
      && PayloadKept(old(m.mem), m.mem, Blocks(old(m.L)))
    ensures p in m.L && m.L[p].size == nb
  {
    hide *;
    FreeNow(m, {m.dv} + {p}, p);
    BeyondPair(m.dv, p, p, p + nb + rsize);
    ghost var L0, m0 := m.L, m.mem;
    TakePart(m, p, nb, rsize, {m.dv} + {p});
    ghost var m1 := m.mem;
    var r := p + nb;
    InsertChunk(m, r, rsize, {m.dv} + {r});
    assert {m.dv} + {r} - {r} == {m.dv};
    mem := p + 16;
    ServedIs(L0, m.L, mem, nb);
    PayloadThen(m0, m1, m.mem, Blocks(L0), Blocks(L0), Blocks(m.L));
    ValidIs(m);
  }

  /** From unlinking to serving: the live blocks did not change in between. */
  lemma ServedAfter(L: Layout, L1: Layout, L2: Layout, m0: Mem, m1: Mem, m2: Mem, mem: int, nb: int)
    requires L1 == L && Served(L1, L2, mem, nb) && PayloadKept(m0, m1, Blocks(L)) && PayloadKept(m1, m2, Blocks(L))
    ensures Served(L, L2, mem, nb) && PayloadKept(m0, m2, Blocks(L))
  {
    hide *;
    PayloadThen(m0, m1, m2, Blocks(L), Blocks(L), Blocks(L));
  }

  lemma BinnedNow(m: MallocState, p: int)
    requires m.Valid() && p in m.D
    ensures m.Consistent({m.dv}) && DvOK(m.L, m.dv, m.dvsize) && p != m.dv
    ensures p in m.L && m.L[p].kind.Free? && m.L[p].size == m.D[p] && m.D[p] % 16 == 0
  {
    hide *;
    ValidIs(m);
    NowIs(m);
    ConsistentIs(m, {m.dv});
    BinsOf(m, {m.dv});
    ChunkFacts(m.Now(), {m.dv}, p);
  }

  // ---- the treebins ----

  /**
   * tmalloc_large: a best fit among the large chunks, unless none suffices or the designated victim fits at least as
   * well.
   */
  method TmallocLarge(m: MallocState, nb: int) returns (mem: int)
    requires m.Valid() && 256 <= nb <= 0xFFFF_FFFF_FFFF_FFFF && nb % 16 == 0
    modifies m`mem, m`L, m`smallmap, m`treemap, m`D, m`rings, m`trees
    ensures m.Valid() && Served(old(m.L), m.L, mem, nb) && PayloadKept(old(m.mem), m.mem, Blocks(old(m.L)))
    ensures mem != 0 ==> mem - 16 in old(m.D) && nb <= old(m.D)[mem - 16]
                         && (nb <= m.dvsize ==> old(m.D)[mem - 16] < m.dvsize)
    ensures mem != 0 ==> mem - 16 in m.L && m.L[mem - 16].size == Fitted(old(m.D)[mem - 16], nb)
    ensures mem != 0 ==> forall y :: y in old(m.D) && old(m.D)[y] >= 256 && old(m.D)[y] >= nb ==>
                                     old(m.D)[mem - 16] <= old(m.D)[y]
    ensures mem == 0 ==> forall y :: y in old(m.D) && old(m.D)[y] >= 256 && old(m.D)[y] >= nb ==>
                                     nb <= m.dvsize <= old(m.D)[y]
    ensures mem == 0 ==> m.Now() == old(m.Now())
  {
    hide *;
    ValidIs(m);
    BinsOf(m, {m.dv});
    ghost var L0, m0 := m.L, m.mem;
    NowIs(m);
    ServedIs(m.L, m.L, 0, nb);
    PayloadRefl(m.mem, Blocks(m.L));
    mem := 0;
    var v, rsize := PickLarge(m, nb);
    BestForIs(m.D, nb, v, rsize);
    if v != 0 { BinnedNow(m, v); DvBelow(m); DvGap(m.dvsize, nb, rsize); }
    if v != 0 && rsize < (m.dvsize - nb) % 0x1_0000_0000_0000_0000 {
      UnlinkChunk(m, v, rsize + nb, {m.dv});
      ghost var m1 := m.mem;
      FittedIs(rsize + nb, nb);
      if rsize < 32 {
        mem := UseWhole(m, v, rsize + nb, nb);
      } else {
        mem := CarveToBin(m, v, nb, rsize);
      }
      ServedAfter(L0, L0, m.L, m0, m1, m.mem, mem, nb);
    }
  }

  lemma DvBelow(m: MallocState)
    requires m.Valid()
    ensures 0 <= m.dvsize <= 0x8000_0000_0000
    ensures forall y :: y in m.D ==> 0 <= m.D[y] <= 0x8000_0000_0000
  {
    hide *;
    ValidIs(m);
    NowIs(m);
    ConsistentIs(m, {m.dv});
    DvPositive(m.Now(), {m.dv}, m.dv, m.dvsize);
    if m.dv != 0 { ChunkFacts(m.Now(), {m.dv}, m.dv); }
    InvParts(m.Now(), {m.dv});
    FiledIs(m.L, m.D, {m.dv});
    forall y | y in m.D ensures 0 <= m.D[y] <= 0x8000_0000_0000 { ChunkFacts(m.Now(), {m.dv}, y); }
  }

  /** The comparison with the wrapping difference says which of the two fits better. */
  lemma DvGap(dvsize: int, nb: int, rsize: int)
    requires 0 <= dvsize <= 0x8000_0000_0000 && 0 < nb <= 0xFFFF_FFFF_FFFF_FFFF && 0 <= rsize
      && rsize + nb <= 0x8000_0000_0000
    ensures rsize < (dvsize - nb) % 0x1_0000_0000_0000_0000 <==> (nb <= dvsize ==> rsize + nb < dvsize)
  {
    if nb > dvsize {
      assert (dvsize - nb) % 0x1_0000_0000_0000_0000 == dvsize - nb + 0x1_0000_0000_0000_0000;
    }
  }

  /** tmalloc_small: the smallest of the large chunks; its remainder becomes the designated victim. */
  method TmallocSmall(m: MallocState, nb: int) returns (mem: int)
    requires m.Valid() && m.treemap != 0 && 32 <= nb < 256 && nb % 16 == 0 && m.dvsize < nb
    modifies m`mem, m`L, m`smallmap, m`treemap, m`D, m`rings, m`trees, m`dv, m`dvsize
    ensures m.Valid() && mem != 0 && Served(old(m.L), m.L, mem, nb) && PayloadKept(old(m.mem), m.mem, Blocks(old(m.L)))
    ensures mem - 16 in old(m.D) && old(m.D)[mem - 16] >= 256
    ensures forall y :: y in old(m.D) && old(m.D)[y] >= 256 ==> old(m.D)[mem - 16] <= old(m.D)[y]
    ensures Remainder(old(m.dv), old(m.dvsize), m.dv, m.dvsize, mem - 16, old(m.D)[mem - 16], nb)
    ensures mem - 16 in m.L && m.L[mem - 16].size == Fitted(old(m.D)[mem - 16], nb)
  {
    hide *;
    ValidIs(m);
    BinsOf(m, {m.dv});
    ghost var L0, m0 := m.L, m.mem;
    var v, rsize := PickSmallest(m, nb);
    BinnedNow(m, v);
    ghost var d0, s0 := m.dv, m.dvsize;
    UnlinkChunk(m, v, rsize + nb, {m.dv});
    ghost var m1 := m.mem;
    if rsize < 32 {
      mem := UseWhole(m, v, rsize + nb, nb);
    } else {
      mem := CarveToDv(m, v, nb, rsize);
    }
    RemainderIs(d0, s0, m.dv, m.dvsize, v, rsize + nb, nb);
    FittedIs(rsize + nb, nb);
    ServedAfter(L0, L0, m.L, m0, m1, m.mem, mem, nb);
  }

  // ---- the designated victim ----

  /** Split the designated victim, or use it up. */
  method UseDv(m: MallocState, nb: int) returns (mem: int)
    requires m.Valid() && 32 <= nb <= m.dvsize && nb % 16 == 0
    modifies m`mem, m`L, m`dv, m`dvsize
    ensures m.Valid() && mem != 0 && Served(old(m.L), m.L, mem, nb) && PayloadKept(old(m.mem), m.mem, Blocks(old(m.L)))
    ensures mem == old(m.dv) + 16
    ensures if old(m.dvsize) - nb >= 32 then m.dv == old(m.dv) + nb && m.dvsize == old(m.dvsize) - nb
            else m.dv == 0 && m.dvsize == 0
    ensures mem - 16 in m.L && m.L[mem - 16].size == Fitted(old(m.dvsize), nb)
  {
    hide *;
    ValidIs(m);
    NowIs(m);
    ConsistentIs(m, {m.dv});
    DvPositive(m.Now(), {m.dv}, m.dv, m.dvsize);
    ChunkFacts(m.Now(), {m.dv}, m.dv);
    ghost var L0 := m.L;
    var rsize := m.dvsize - nb;
    var p := m.dv;
    BeyondOne(p, p, p + m.dvsize);
    if rsize >= 32 {
      var r := p + nb;
      TakePart(m, p, nb, rsize, {p});
      assert {} + {r} == {r};
      NowIs(m);
      ConsistentIs(m, {r});
      m.dv := r;
      m.dvsize := rsize;
      NowIs(m);
      ConsistentIs(m, {r});
      DvIs(m.L, r, rsize);
    } else {
      var dvs := m.dvsize;
      TakeWhole(m, p, dvs, {p});
      NowIs(m);
      ConsistentIs(m, {});
      NoZero(m.Now(), {});
      Reout(m.Now(), {}, {0});
      m.dvsize := 0;
      m.dv := 0;
      NowIs(m);
      ConsistentIs(m, {0});
      DvIs(m.L, 0, 0);
    }
    mem := p + 16;
    FittedIs(rsize + nb, nb);
    ServedIs(L0, m.L, mem, nb);
    ValidIs(m);
  }

  // ---- small requests ----

  /** A chunk of small bin i, which is not empty: handed out whole when the rest would be too small for a chunk. */
  method UseSmallBin(m: MallocState, i: nat, nb: int) returns (mem: int)
    requires m.Valid() && i < 32 && Marked(m.smallmap, i) && 32 <= nb <= 8 * i && nb % 16 == 0
    requires 8 * i >= nb + 32 ==> m.dvsize < 256
    modifies m`mem, m`L, m`smallmap, m`D, m`rings, m`dv, m`dvsize
    ensures m.Valid() && mem != 0 && Served(old(m.L), m.L, mem, nb) && PayloadKept(old(m.mem), m.mem, Blocks(old(m.L)))
    ensures mem - 16 in old(m.D) && old(m.D)[mem - 16] == 8 * i && IsFirst(old(m.rings), i, mem - 16)
    ensures Remainder(old(m.dv), old(m.dvsize), m.dv, m.dvsize, mem - 16, 8 * i, nb)
    ensures mem - 16 in m.L && m.L[mem - 16].size == Fitted(8 * i, nb)
  {
    hide *;
    ValidIs(m);
    ghost var L0, m0 := m.L, m.mem;
    ghost var D0, d0, s0 := m.D, m.dv, m.dvsize;
    var p := UnlinkFirst(m, i, {m.dv});
    ghost var m1 := m.mem;
    var rsize := 8 * i - nb;
    if rsize < 32 {
      mem := UseWhole(m, p, 8 * i, nb);
    } else {
      mem := CarveToDv(m, p, nb, rsize);
    }
    RemainderIs(d0, s0, m.dv, m.dvsize, p, 8 * i, nb);
    FittedIs(8 * i, nb);
    ServedAfter(L0, L0, m.L, m0, m1, m.mem, mem, nb);
  }

  /**
   * The bins, for a small request: an exact or almost exact small bin; else, unless the victim suffices, any larger
   * chunk.
   */
  method SmallFromBins(m: MallocState, nb: int) returns (mem: int)
    requires m.Valid() && 32 <= nb < 248 && nb % 16 == 0
    modifies m`mem, m`L, m`smallmap, m`treemap, m`D, m`rings, m`trees, m`dv, m`dvsize
    ensures m.Valid() && Served(old(m.L), m.L, mem, nb) && PayloadKept(old(m.mem), m.mem, Blocks(old(m.L)))
    ensures mem == 0 ==> m.Now() == old(m.Now()) && m.dv == old(m.dv) && m.dvsize == old(m.dvsize)
    ensures mem == 0 && nb > m.dvsize ==> forall y :: y in m.D ==> m.D[y] < nb
    ensures mem != 0 <==> BinsServe(old(m.D), old(m.dvsize), nb)
    ensures mem != 0 ==> LeastFit(old(m.D), nb, mem - 16)
                         && (old(m.D)[mem - 16] < 256 ==> IsFirst(old(m.rings), old(m.D)[mem - 16] / 8, mem - 16))
                         && Remainder(old(m.dv), old(m.dvsize), m.dv, m.dvsize, mem - 16, old(m.D)[mem - 16], nb)
                         && mem - 16 in m.L && m.L[mem - 16].size == Fitted(old(m.D)[mem - 16], nb)
  {
    hide *;
    ValidIs(m);
    NowIs(m);
    ServedIs(m.L, m.L, 0, nb);
    PayloadRefl(m.mem, Blocks(m.L));
    mem := 0;
    var idx := nb / 8;
    assert 8 * idx == nb && idx < 31;
    SmallBits(m.smallmap, idx);
    ghost var D0, s0, map0 := m.D, m.dvsize, m.smallmap;
    InMarkedBins(m, {m.dv});
    var smallbits := Shr(m.smallmap, idx);
    if And(smallbits, 3) != 0 {
      idx := idx + (1 - smallbits % 2);
      mem := UseSmallBin(m, idx, nb);
      LeastMarked(D0, map0, nb / 8, idx, nb, mem - 16);
      BinsServeIf(D0, s0, nb, mem - 16);
    } else if nb > m.dvsize {
      if smallbits != 0 {
        var i := NextMarked(ShiftedMap(smallbits, idx), idx);
        mem := UseSmallBin(m, i, nb);
        LeastMarked(D0, map0, idx, i, nb, mem - 16);
        BinsServeIf(D0, s0, nb, mem - 16);
      } else {
        NoSmall(m, {m.dv}, idx);
        if m.treemap != 0 {
          mem := TmallocSmall(m, nb);
          LeastFitIs(D0, nb, mem - 16);
          BinsServeIf(D0, s0, nb, mem - 16);
        } else {
          NoLarge(m, {m.dv});
          BinsServeNot(D0, s0, nb);
        }
      }
    } else {
      NoneExact(D0, map0, idx, nb);
      BinsServeNot(D0, s0, nb);
    }
  }

  /** Every small binned chunk is in a marked bin. */
  ghost predicate InMarked(D: map<int, int>, map0: U32) {
    forall y :: y in D ==> D[y] % 16 == 0 && (D[y] < 256 ==> 32 <= D[y] && Marked(map0, D[y] / 8))
  }

  lemma InMarkedIs(D: map<int, int>, map0: U32)
    ensures InMarked(D, map0) <==>
      forall y :: y in D ==> D[y] % 16 == 0 && (D[y] < 256 ==> 32 <= D[y] && Marked(map0, D[y] / 8))
  {
  }

  /** The first marked bin from idx on holds the smallest chunks that suffice. */
  lemma LeastMarked(D: map<int, int>, map0: U32, idx: nat, i: nat, nb: int, p: int)
    requires InMarked(D, map0) && nb == 8 * idx && idx <= i < 32 && p in D && D[p] == 8 * i
    requires forall j: nat :: idx <= j < i ==> !Marked(map0, j)
    ensures LeastFit(D, nb, p)
  {
    hide Marked;
    forall y | y in D && D[y] >= nb ensures D[p] <= D[y] {
      assert D[y] < 256 ==> Marked(map0, D[y] / 8);
    }
  }

  /** When neither the exact bin nor the next is marked, no chunk fits exactly. */
  lemma NoneExact(D: map<int, int>, map0: U32, idx: nat, nb: int)
    requires InMarked(D, map0) && nb == 8 * idx && idx < 31 && !Marked(map0, idx) && !Marked(map0, idx + 1)
    ensures forall y :: y in D && D[y] >= nb ==> D[y] >= nb + 16
  {
    hide Marked;
    forall y | y in D && D[y] >= nb ensures D[y] >= nb + 16 {
      assert D[y] < 256 ==> Marked(map0, D[y] / 8);
    }
  }

  lemma InMarkedBins(m: MallocState, out: set<int>)
    requires m.Consistent(out)
    ensures InMarked(m.D, m.smallmap)
  {
    hide *;
    BinsOf(m, out);
    BinsValidIs(m);
    InMarkedIs(m.D, m.smallmap);
    forall y | y in m.D ensures m.D[y] % 16 == 0 && (m.D[y] < 256 ==> 32 <= m.D[y] && Marked(m.smallmap, m.D[y] / 8)) {
      BinnedSize(m.mem, m.smallmap, m.treemap, m.D, m.rings, m.trees, y);
      if m.D[y] < 256 { SmallInMarked(m.mem, m.smallmap, m.treemap, m.D, m.rings, m.trees, y); }
    }
  }

  /** The chunk size a request comes to; one that is too large to allocate becomes a size that sys_alloc turns down. */
  function ChunkRequest(bytes: U64): int {
    if bytes <= 232 then Request2Size(bytes)
    else if bytes >= 0xFFFF_FFFF_FFFF_FF80 then 0xFFFF_FFFF_FFFF_FFFF
    else PadRequest(bytes)
  }

  lemma ChunkRequestIs(bytes: U64)
    ensures ChunkRequest(bytes) ==
      if bytes <= 232 then (if bytes < 23 then 32 else PadRequest(bytes))
      else if bytes >= 0xFFFF_FFFF_FFFF_FF80 then 0xFFFF_FFFF_FFFF_FFFF
      else PadRequest(bytes)
    ensures bytes < 0xFFFF_FFFF_FFFF_FF80 ==> bytes + 8 <= ChunkRequest(bytes) < 0x1_0000_0000_0000_0000 - 96
    ensures bytes < 0xFFFF_FFFF_FFFF_FF80 ==> ChunkRequest(bytes) >= 32 && ChunkRequest(bytes) % 16 == 0
    ensures bytes <= 232 ==> ChunkRequest(bytes) < 248
    ensures bytes > 232 ==> ChunkRequest(bytes) >= 256
  {
  }

  /** No free chunk is large enough for nb bytes, and neither is top. */
  ghost predicate NoFit(L: Layout, topsize: int, nb: int) {
    (forall c :: c in L && L[c].kind.Free? ==> L[c].size < nb) && topsize <= nb
  }

  lemma NoFitIs(L: Layout, topsize: int, nb: int)
    ensures NoFit(L, topsize, nb) <==> (forall c :: c in L && L[c].kind.Free? ==> L[c].size < nb) && topsize <= nb
  {
  }

  /** Null is the answer: nothing in the heap fits, and the system gives nothing that does. */
  ghost predicate Denied(L: Layout, c: Outside, nb: int) {
    NoFit(L, c.topsize, nb) && Refuses(c, nb)
  }

  lemma DeniedIs(L: Layout, c: Outside, nb: int)
    ensures Denied(L, c, nb) <==> NoFit(L, c.topsize, nb) && Refuses(c, nb)
  {
  }

  /** The system is asked only when nothing in the heap fits. */
  ghost predicate AskedIfNeeded(L: Layout, c: Outside, c': Outside, nb: int) {
    if NoFit(L, c.topsize, nb) then AskedFor(c, c', nb)
    else c'.asked == c.asked && c'.noncontiguous == c.noncontiguous && c'.footprint == c.footprint
  }

  lemma AskedIfNeededIs(L: Layout, c: Outside, c': Outside, nb: int)
    ensures AskedIfNeeded(L, c, c', nb) <==>
      if NoFit(L, c.topsize, nb) then AskedFor(c, c', nb)
      else c'.asked == c.asked && c'.noncontiguous == c.noncontiguous && c'.footprint == c.footprint
  {
  }

  /** A binned chunk, the victim or top that suffices. */
  lemma SomeFit(m: MallocState, nb: int)
    requires m.Valid() && nb >= 32
    ensures BinsServe(m.D, m.dvsize, nb) || nb <= m.dvsize || nb < m.topsize ==> !NoFit(m.L, m.topsize, nb)
  {
    hide *;
    NoFitIs(m.L, m.topsize, nb);
    ValidIs(m);
    DvIs(m.L, m.dv, m.dvsize);
    BinsOf(m, {m.dv});
    if BinsServe(m.D, m.dvsize, nb) { var y := Server(m.D, m.dvsize, nb); }
  }

  lemma Server(D: map<int, int>, dvsize: int, nb: int) returns (y: int)
    requires BinsServe(D, dvsize, nb)
    ensures y in D && D[y] >= nb
  {
    y :| y in D && D[y] >= nb && (nb <= dvsize ==> D[y] < if nb < 256 then nb + 16 else dvsize);
  }

  lemma NoFree(m: MallocState, nb: int)
    requires m.Valid() && (forall y :: y in m.D ==> m.D[y] < nb) && m.dvsize < nb && m.topsize <= nb
    ensures NoFit(m.L, m.topsize, nb)
  {
    hide *;
    ValidIs(m);
    NowIs(m);
    ConsistentIs(m, {m.dv});
    DvIs(m.L, m.dv, m.dvsize);
    NoZero(m.Now(), {m.dv});
    NoFitIs(m.L, m.topsize, nb);
    forall c | c in m.L && m.L[c].kind.Free? ensures m.L[c].size < nb { ChunkFacts(m.Now(), {m.dv}, c); }
  }

  /** What the bins offer for a request of any size. */
  method FromBins(m: MallocState, bytes: U64) returns (nb: int, mem: int)
    requires m.Valid()
    modifies m`mem, m`L, m`smallmap, m`treemap, m`D, m`rings, m`trees, m`dv, m`dvsize
    ensures nb == ChunkRequest(bytes)
    ensures m.Valid() && Served(old(m.L), m.L, mem, nb) && PayloadKept(old(m.mem), m.mem, Blocks(old(m.L)))
    ensures mem == 0 ==> m.Now() == old(m.Now()) && m.dv == old(m.dv) && m.dvsize == old(m.dvsize)
    ensures mem == 0 && nb > m.dvsize ==> forall y :: y in m.D ==> m.D[y] < nb
    ensures mem != 0 <==> BinsServe(old(m.D), old(m.dvsize), nb)
    ensures mem != 0 ==> LeastFit(old(m.D), nb, mem - 16)
                         && (old(m.D)[mem - 16] < 256 ==> IsFirst(old(m.rings), old(m.D)[mem - 16] / 8, mem - 16))
                         && mem - 16 in m.L && m.L[mem - 16].size == Fitted(old(m.D)[mem - 16], nb)
    ensures mem != 0 && nb < 256 ==>
      Remainder(old(m.dv), old(m.dvsize), m.dv, m.dvsize, mem - 16, old(m.D)[mem - 16], nb)
    ensures mem != 0 && nb >= 256 ==> m.dv == old(m.dv) && m.dvsize == old(m.dvsize)
  {
    hide *;
    ChunkRequestIs(bytes);
    NowIs(m);
    PayloadRefl(m.mem, Blocks(m.L));
    ValidIs(m);
    ghost var D0, s0 := m.D, m.dvsize;
    mem := 0;
    if bytes <= 232 {
      nb := if bytes < 23 then 32 else PadRequest(bytes);
      mem := SmallFromBins(m, nb);
    } else if bytes >= 0xFFFF_FFFF_FFFF_FF80 {
      nb := 0xFFFF_FFFF_FFFF_FFFF;
      ServedIs(m.L, m.L, 0, nb);
      DvBelow(m);
      BinsServeNot(D0, s0, nb);
    } else {
      nb := PadRequest(bytes);
      ServedIs(m.L, m.L, 0, nb);
      if m.treemap != 0 {
        mem := TmallocLarge(m, nb);
        NowIs(m);
        if mem != 0 {
          LeastFitIs(D0, nb, mem - 16);
          BinsServeIf(D0, s0, nb, mem - 16);
        } else {
          BinsServeNot(D0, s0, nb);
        }
      } else {
        NoLarge(m, {m.dv});
        BinsServeNot(D0, s0, nb);
      }
    }
  }

  /**
   * dlmalloc. Null, or a new live chunk that fits the padded request and wastes less than a minimal chunk; no word of
   * any other live block changes. The system is asked exactly when nothing in the heap could serve the request, and
   * null comes exactly when the system then gives nothing that could. Growth serves the request, within the footprint
   * limit, but for a noncontiguous call that yields less or more than was asked for.
   */
  method Malloc(m: MallocState, bytes: U64) returns (mem: int)
    requires m.Valid()
    modifies m
    ensures m.Valid() && Served(old(m.L), m.L, mem, ChunkRequest(bytes))
      && PayloadKept(old(m.mem), m.mem, Blocks(old(m.L)))
    ensures mem == 0 <==> Denied(old(m.L), old(m.Side()), ChunkRequest(bytes))
    ensures AskedIfNeeded(old(m.L), old(m.Side()), m.Side(), ChunkRequest(bytes))
    ensures m.maxFootprint == if m.footprint > old(m.maxFootprint) then m.footprint else old(m.maxFootprint)
    ensures BinsServe(old(m.D), old(m.dvsize), ChunkRequest(bytes)) ==>
      LeastFit(old(m.D), ChunkRequest(bytes), mem - 16)
      && (old(m.D)[mem - 16] < 256 ==> IsFirst(old(m.rings), old(m.D)[mem - 16] / 8, mem - 16))
      && mem - 16 in m.L && m.L[mem - 16].size == Fitted(old(m.D)[mem - 16], ChunkRequest(bytes))
      && if ChunkRequest(bytes) >= 256 then m.dv == old(m.dv) && m.dvsize == old(m.dvsize)
         else Remainder(old(m.dv), old(m.dvsize), m.dv, m.dvsize, mem - 16, old(m.D)[mem - 16], ChunkRequest(bytes))
    ensures !BinsServe(old(m.D), old(m.dvsize), ChunkRequest(bytes)) && ChunkRequest(bytes) <= old(m.dvsize) ==>
      mem == old(m.dv) + 16 && old(m.dv) in m.L && m.L[old(m.dv)].size == Fitted(old(m.dvsize), ChunkRequest(bytes))
      && if old(m.dvsize) - ChunkRequest(bytes) < 32 then m.dv == 0 && m.dvsize == 0
         else m.dv == old(m.dv) + ChunkRequest(bytes) && m.dvsize == old(m.dvsize) - ChunkRequest(bytes)
    ensures !BinsServe(old(m.D), old(m.dvsize), ChunkRequest(bytes))
            && old(m.dvsize) < ChunkRequest(bytes) < old(m.topsize) ==>
      mem == old(m.top) + 16 && old(m.top) in m.L && m.L[old(m.top)].size == ChunkRequest(bytes) && m.dv == old(m.dv)
          && m.dvsize == old(m.dvsize)
    ensures bytes >= 0xFFFF_FFFF_FFFF_FF80 ==> mem == 0
    ensures m.footprint != old(m.footprint) ==> NoFit(old(m.L), old(m.topsize), ChunkRequest(bytes))
    ensures m.footprint >= old(m.footprint) && m.footprintLimit == old(m.footprintLimit)
    ensures m.footprint > old(m.footprint) && mem == 0 ==>
      m.noncontiguous && m.footprint == old(m.footprint) + ChunkRequest(bytes) + 88
    ensures GrewAsAsked(m.noncontiguous, old(m.footprint), m.footprint, ChunkRequest(bytes)) ==>
      m.footprintLimit == 0 || m.footprint <= m.footprintLimit
  {
    hide *;
    ChunkRequestIs(bytes);
    ghost var L0, m0 := m.L, m.mem;
    var nb;
    NowIs(m);
    ValidIs(m);
    ConsistentIs(m, {m.dv});
    DvBelow(m);
    GrewAsAskedIs(m.noncontiguous, m.footprint, m.footprint, ChunkRequest(bytes));
    ghost var c := m.Side();
    SideIs(m);
    DeniedIs(L0, c, ChunkRequest(bytes));
    AskedIfNeededIs(L0, c, c, ChunkRequest(bytes));
    SomeFit(m, ChunkRequest(bytes));
    nb, mem := FromBins(m, bytes);
    NowIs(m);
    SideIs(m);
    AskedIfNeededIs(L0, c, m.Side(), nb);
    if mem != 0 {
      if bytes >= 0xFFFF_FFFF_FFFF_FF80 { TooLarge(m, mem, nb, L0); }
      return;
    }
    DvBelow(m);
    if nb <= m.dvsize {
      mem := UseDv(m, nb);
      SideIs(m);
      PayloadThen(m0, m0, m.mem, Blocks(L0), Blocks(L0), Blocks(L0));
    } else if nb < m.topsize {
      ServedIs(L0, L0, 0, nb);
      TopPositive(m);
      PayloadRefl(m.mem, Blocks(L0));
      mem := ServeFromTop(m, nb, L0, m0);
      SideIs(m);
      AskedIfNeededIs(L0, c, m.Side(), nb);
    } else {
      NoFree(m, nb);
      PaddedIs(nb);
      mem := SysAlloc(m, nb);
      AskedIfNeededIs(L0, c, m.Side(), nb);
    }
  }

  lemma TopPositive(m: MallocState)
    requires m.Valid()
    ensures m.top == 0 ==> m.topsize == 0
    ensures 0 <= m.topsize <= 0x8000_0000_0000
  {
    hide *;
    ValidIs(m);
    NowIs(m);
    ConsistentIs(m, {m.dv});
    InvParts(m.Now(), {m.dv});
    TopOKIs(m.L, m.top, m.topsize);
    if m.top != 0 { ChunkFacts(m.Now(), {m.dv}, m.top); }
  }

  /** No chunk is as large as the size that stands for failure. */
  lemma TooLarge(m: MallocState, mem: int, nb: int, L: Layout)
    requires m.Valid() && Served(L, m.L, mem, nb) && nb == 0xFFFF_FFFF_FFFF_FFFF
    ensures mem == 0
  {
    hide *;
    ServedIs(L, m.L, mem, nb);
    ValidIs(m);
    NowIs(m);
    ConsistentIs(m, {m.dv});
    if mem != 0 { ChunkFacts(m.Now(), {m.dv}, mem - 16); }
  }
}
