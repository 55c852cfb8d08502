/** Filing free chunks in the bins and taking them out, with the invariant of the whole heap. */
module Binning {
  import opened Memory
  import opened Sizes
  import opened Layouts
  import opened Bins
  import opened State
  import opened HeapSteps
  import opened Chunks
  import opened FreeLists
  import opened TreeLists

  lemma BinsOf(m: MallocState, out: set<int>)
    requires m.Consistent(out)
    ensures m.BinsValid()
    ensures forall p :: p in m.D ==> p in m.L && m.L[p].kind.Free? && m.L[p].size == m.D[p]
  {
    hide *;
    NowIs(m);
    ConsistentIs(m, out);
    InvParts(m.Now(), out);
    FiledIs(m.L, m.D, out);
    BinsValidIs(m);
  }

  /** A free chunk that joins the bins. */
  lemma Joins(s: Snap, out: set<int>, p: int)
    requires Inv(s, out) && p in s.L && s.L[p].kind.Free? && p in out
    ensures p !in s.D && p >= s.least && 32 <= s.L[p].size <= 0xFFFF_FFFF_FFFF_FFFF && s.L[p].size % 16 == 0
    ensures ChunksOK(s.mem, s.D[p := s.L[p].size])
  {
    hide *;
    ChunkFacts(s, out, p);
    InvParts(s, out);
    FiledIs(s.L, s.D, out);
    Binnable(s.mem, s.L, s.D[p := s.L[p].size]);
  }

  /** insert_chunk: p leaves the unbinned chunks for its bin. */
  method InsertChunk(m: MallocState, p: int, s: int, ghost out: set<int>)
    requires m.Consistent(out) && p in m.L && m.L[p].kind.Free? && m.L[p].size == s && p in out
    modifies m`mem, m`smallmap, m`treemap, m`D, m`rings, m`trees
    ensures m.Consistent(out - {p}) && m.D == old(m.D)[p := s]
    ensures PayloadKept(old(m.mem), m.mem, Blocks(m.L))
  {
    hide *;
    ghost var s0 := m.Now();
    NowIs(m);
    ConsistentIs(m, out);
    BinsOf(m, out);
    Joins(s0, out, p);
    SmallIs(s);
    if IsSmall(s) {
      InsertSmallChunk(m, p, s);
    } else {
      InsertLargeChunk(m, p, s);
    }
    NowIs(m);
    BinsValidIs(m);
    InvParts(s0, out);
    FiledIs(s0.L, s0.D, out);
    FiledIs(s0.L, m.D, out - {p});
    BinStep(s0, m.Now(), m.D, out, out - {p});
    ConsistentIs(m, out - {p});
  }

  lemma SmallIs(s: int)
    requires s >= 0
    ensures IsSmall(s) <==> s < 256
  {
  }

  /** unlink_chunk: p leaves its bin. */
  method UnlinkChunk(m: MallocState, p: int, s: int, ghost out: set<int>)
    requires m.Consistent(out) && p in m.D && m.D[p] == s
    modifies m`mem, m`smallmap, m`treemap, m`D, m`rings, m`trees
    ensures m.Consistent(out + {p}) && m.D == old(m.D) - {p}
    ensures PayloadKept(old(m.mem), m.mem, Blocks(m.L))
  {
    hide *;
    ghost var s0 := m.Now();
    NowIs(m);
    ConsistentIs(m, out);
    BinsOf(m, out);
    ChunkFacts(s0, out, p);
    SmallIs(s);
    if IsSmall(s) {
      UnlinkSmallChunk(m, p, s);
    } else {
      UnlinkLargeChunk(m, p);
    }
    NowIs(m);
    Unlinked(m, s0, p, out);
  }

  lemma Unlinked(m: MallocState, s0: Snap, p: int, out: set<int>)
    requires Inv(s0, out) && p in s0.D && m.BinsValid() && m.D == s0.D - {p} && BinWrites(s0.mem, m.mem, s0.D)
    requires m.footprint == TotalSize(m.segs) && m.footprint <= m.maxFootprint
    requires m.Now() == s0.(mem := m.mem, smallmap := m.smallmap, treemap := m.treemap, D := m.D, rings := m.rings,
                            trees := m.trees)
    ensures m.Consistent(out + {p}) && PayloadKept(s0.mem, m.mem, Blocks(m.L))
  {
    hide *;
    NowIs(m);
    BinsValidIs(m);
    InvParts(s0, out);
    FiledIs(s0.L, s0.D, out);
    FiledIs(s0.L, m.D, out + {p});
    BinStep(s0, m.Now(), s0.D, out, out + {p});
    ConsistentIs(m, out + {p});
  }

  /** unlink_first_small_chunk: the first chunk of small bin i leaves it. */
  method UnlinkFirst(m: MallocState, i: nat, ghost out: set<int>) returns (p: int)
    requires m.Consistent(out) && i < 32 && BinMaps.Marked(m.smallmap, i)
    modifies m`mem, m`smallmap, m`D, m`rings
    ensures p in old(m.D) && old(m.D)[p] == 8 * i && IsFirst(old(m.rings), i, p)
    ensures m.Consistent(out + {p}) && m.D == old(m.D) - {p}
    ensures p in m.L && m.L[p].kind.Free? && m.L[p].size == 8 * i && p !in out
    ensures PayloadKept(old(m.mem), m.mem, Blocks(m.L))
  {
    hide *;
    ghost var s0 := m.Now();
    NowIs(m);
    ConsistentIs(m, out);
    BinsOf(m, out);
    p := UnlinkFirstSmallChunk(m, i);
    NowIs(m);
    InvParts(s0, out);
    FiledIs(s0.L, s0.D, out);
    Unlinked(m, s0, p, out);
  }

  /** replace_dv, used only when the old victim is known to be small: it goes to a small bin. */
  method ReplaceDv(m: MallocState, p: int, s: int, ghost out: set<int>)
    requires m.Consistent(out) && DvOK(m.L, m.dv, m.dvsize) && m.dvsize < 256 && m.dv != p
    requires m.dv != 0 ==> m.dv in out
    requires p in m.L && m.L[p].kind.Free? && m.L[p].size == s && p in out
    modifies m`mem, m`smallmap, m`D, m`rings, m`dv, m`dvsize
    ensures m.Consistent(out - {old(m.dv)}) && DvOK(m.L, m.dv, m.dvsize) && m.dv == p && m.dvsize == s
    ensures PayloadKept(old(m.mem), m.mem, Blocks(m.L))
  {
    hide *;
    DvIs(m.L, m.dv, m.dvsize);
    DvIs(m.L, p, s);
    ghost var s0 := m.Now();
    ghost var d0 := m.dv;
    NowIs(m);
    ConsistentIs(m, out);
    ChunkFacts(s0, out, p);
    var dvs := m.dvsize;
    if dvs != 0 {
      BinsOf(m, out);
      Joins(s0, out, m.dv);
      InsertSmallChunk(m, m.dv, dvs);
      NowIs(m);
      BinsValidIs(m);
      InvParts(s0, out);
      FiledIs(s0.L, s0.D, out);
      FiledIs(s0.L, m.D, out - {d0});
      BinStep(s0, m.Now(), m.D, out, out - {d0});
    } else {
      DvPositive(s0, out, d0, dvs);
      NoZero(s0, out);
      Reout(s0, out, out - {d0});
      PayloadRefl(m.mem, Blocks(m.L));
    }
    m.dvsize := s;
    m.dv := p;
    NowIs(m);
    ConsistentIs(m, out - {d0});
  }

  lemma PayloadRefl(m: Mem, B: map<int, int>)
    ensures PayloadKept(m, m, B)
  {
  }

  lemma DvPositive(s: Snap, out: set<int>, dv: int, dvsize: int)
    requires Inv(s, out) && DvOK(s.L, dv, dvsize)
    ensures dv == 0 <==> dvsize == 0
    ensures dv != 0 ==> dv in s.L && s.L[dv].kind.Free? && s.L[dv].size == dvsize >= 32 && dvsize % 16 == 0
  {
    hide *;
    DvIs(s.L, dv, dvsize);
    if dv != 0 { ChunkFacts(s, out, dv); }
  }

  lemma NoZero(s: Snap, out: set<int>)
    requires Inv(s, out)
    ensures 0 !in s.L
  {
    hide *;
    if 0 in s.L { ChunkFacts(s, out, 0); }
  }

  /** Payload preservation composes. */
  lemma PayloadThen(m0: Mem, m1: Mem, m2: Mem, B: map<int, int>, B1: map<int, int>, B2: map<int, int>)
    requires PayloadKept(m0, m1, B1) && PayloadKept(m1, m2, B2)
    requires forall c :: c in B ==> c in B1 && B1[c] == B[c] && c in B2 && B2[c] == B[c]
    ensures PayloadKept(m0, m2, B)
  {
  }
}
