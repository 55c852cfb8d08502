/**
 * sys_alloc: memory from the system joins the heap, as a first segment, at the end of top, below a segment, or apart.
 */
module SystemMemory {
  import opened Words
  import opened Memory
  import opened Sizes
  import opened Layouts
  import opened State
  import opened HeapSteps
  import opened Chunks
  import opened Carve
  import opened Binning
  import opened Runs
  import opened Release
  import opened Segments
  import opened Prepend
  import opened AddSegment
  import opened SegmentList
  import opened MoreCore
  import opened Asking
  import opened Obtain

  const TRIM_THRESHOLD: int := 0x20_0000

  /** align_offset */
  function AlignOffset(a: int): int {
    if a % 16 == 0 then 0 else 16 - a % 16
  }

  lemma AlignOffsetIs(p: int)
    ensures p + AlignOffset(p + 16) == AlignUp(p)
  {
  }

  /** init_top */
  method InitTop(m: MallocState, p: int, psize: int)
    modifies m`mem, m`top, m`topsize, m`trimCheck
    ensures m.trimCheck == 0x20_0000
    ensures m.top == AlignUp(p) && m.topsize == psize - (AlignUp(p) - p)
    ensures m.mem == old(m.mem)[m.top + 8 := m.topsize + 1][m.top + m.topsize + 8 := 80]
  {
    AlignOffsetIs(p);
    var offset := AlignOffset(p + 16);
    m.top := p + offset;
    m.topsize := psize - offset;
    m.mem := m.mem[m.top + 8 := m.topsize + 1];
    m.mem := m.mem[m.top + m.topsize + 8 := TOP_FOOT_SIZE];
    m.trimCheck := TRIM_THRESHOLD;
  }

  /** init_bins: every bin header points to itself. */
  method InitBins(m: MallocState)
    modifies m`mem
    ensures forall w :: w < 0x1000 || w >= 0x1800 ==> Rd(m.mem, w) == Rd(old(m.mem), w)
    ensures forall i :: 0 <= i < 32 ==> Rd(m.mem, SmallBinAt(i) + 16) == SmallBinAt(i)
                                        && Rd(m.mem, SmallBinAt(i) + 24) == SmallBinAt(i)
  {
    var i := 0;
    while i < 32
      invariant 0 <= i <= 32
      invariant forall w :: w < 0x1000 || w >= 0x1800 ==> Rd(m.mem, w) == Rd(old(m.mem), w)
      invariant forall j :: 0 <= j < i ==> Rd(m.mem, SmallBinAt(j) + 16) == SmallBinAt(j)
                                           && Rd(m.mem, SmallBinAt(j) + 24) == SmallBinAt(j)
    {
      var bin := SmallBinAt(i);
      m.mem := m.mem[bin + 24 := bin];
      m.mem := m.mem[bin + 16 := bin];
      i := i + 1;
    }
  }

  lemma TotalAt(segs: seq<Seg>, k: int, base: int, size: int)
    requires 0 <= k < |segs|
    ensures TotalSize(segs[k := segs[k].(base := base, size := size)]) == TotalSize(segs) + size - segs[k].size
  {
    var segs' := segs[k := segs[k].(base := base, size := size)];
    if k == 0 {
      assert segs'[1..] == segs[1..];
    } else {
      assert segs'[1..] == segs[1..][k - 1 := segs[k].(base := base, size := size)];
      TotalAt(segs[1..], k - 1, base, size);
    }
  }

  lemma TotalPushed(segs: seq<Seg>, tbase: int, tsize: int, rec: int)
    requires segs != []
    ensures TotalSize(Pushed(segs, tbase, tsize, rec)) == TotalSize(segs) + tsize
  {
    var p := Pushed(segs, tbase, tsize, rec);
    assert p[1..][1..] == segs[1..];
  }

  lemma TotalOne(g: Seg)
    ensures TotalSize([g]) == g.size && TotalSize([]) == 0
  {
  }

  // ---- the four ways in ----

  /** First-time initialization. */
  method FirstTime(m: MallocState, tbase: int, tsize: int)
    requires Inv(m.Now(), {m.dv}) && DvOK(m.L, m.dv, m.dvsize) && m.top == 0 && Granted(m.segs, tbase, tsize)
      && tsize >= 104
    requires m.footprint == TotalSize(m.segs) + tsize && m.footprint <= m.maxFootprint
    modifies m`mem, m`leastAddr, m`segBase, m`segSize, m`segs, m`L, m`top, m`topsize, m`trimCheck
    ensures m.Valid() && Blocks(old(m.L)) == map[] && Blocks(m.L) == map[]
    ensures m.top != 0 && m.topsize == tsize - 80 - (AlignUp(tbase) - tbase) && m.segs[0].base == tbase
      && m.segs[0].size == tsize
  {
    hide *;
    ghost var s0 := m.Now();
    NowIs(m);
    ghost var m1 := FirstFields(m, tbase, tsize);
    NowIs(m);
    FirstTimeDone(m, s0, m1, tbase, tsize);
  }

  /** The fields, the bins and the words of a first segment; m1 is the memory between the last two. */
  method FirstFields(m: MallocState, tbase: int, tsize: int) returns (ghost m1: Mem)
    modifies m`mem, m`leastAddr, m`segBase, m`segSize, m`segs, m`L, m`top, m`topsize, m`trimCheck
    ensures m.leastAddr == if old(m.leastAddr) == 0 || tbase < old(m.leastAddr) then tbase else old(m.leastAddr)
    ensures m.segBase == tbase && m.segSize == tsize && m.segs == [Seg(tbase, tsize, 0)]
    ensures m.top == AlignUp(tbase) && m.topsize == tsize - 80 - (AlignUp(tbase) - tbase)
    ensures forall w :: w < 0x1000 || w >= 0x1800 ==> Rd(m1, w) == Rd(old(m.mem), w)
    ensures m.mem == m1[m.top + 8 := m.topsize + 1][m.top + m.topsize + 8 := 80]
    ensures m.L == map[m.top := Chunk(Top, m.topsize, true)]
  {
    if m.leastAddr == 0 || tbase < m.leastAddr {
      m.leastAddr := tbase;
    }
    m.segBase := tbase;
    m.segSize := tsize;
    InitBins(m);
    m1 := m.mem;
    InitTop(m, tbase, tsize - TOP_FOOT_SIZE);
    m.L := map[m.top := Chunk(Top, m.topsize, true)];
    m.segs := [Seg(tbase, tsize, 0)];
  }

  lemma FirstTimeDone(m: MallocState, s0: Snap, m1: Mem, tbase: int, tsize: int)
    requires Inv(s0, {m.dv}) && DvOK(s0.L, m.dv, m.dvsize) && s0.top == 0 && Granted(s0.segs, tbase, tsize)
      && tsize >= 104
    requires m.footprint == TotalSize(s0.segs) + tsize && m.footprint <= m.maxFootprint
    requires m.top == AlignUp(tbase) && m.topsize == tsize - 80 - (AlignUp(tbase) - tbase)
    requires forall w :: w < 0x1000 || w >= 0x1800 ==> Rd(m1, w) == Rd(s0.mem, w)
    requires m.mem == m1[m.top + 8 := m.topsize + 1][m.top + m.topsize + 8 := 80]
    requires m.Now() == s0.(mem := m.mem, L := map[m.top := Chunk(Top, m.topsize, true)], top := m.top,
                            topsize := m.topsize,
                            segs := [Seg(tbase, tsize, 0)], segBase := tbase, segSize := tsize, least := m.leastAddr)
    requires m.leastAddr <= tbase
    ensures m.Valid() && Blocks(s0.L) == map[] && Blocks(m.L) == map[] && m.top != 0
  {
    hide *;
    var top, topsize := m.top, m.topsize;
    NowIs(m);
    TwoWrites(m1, top + 8, topsize + 1, top + topsize + 8, 80);
    GrantedIs(s0.segs, tbase, tsize);
    AlignUpBounds(tbase);
    FirstAligned(tbase);
    FirstSegment(s0, m.Now(), tbase, tsize, {m.dv});
    TotalOne(m.segs[0]);
    DvIs(s0.L, m.dv, m.dvsize);
    DvIs(m.L, m.dv, m.dvsize);
    ConsistentIs(m, {m.dv});
    ValidIs(m);
  }

  lemma TopFootIs()
    ensures TOP_FOOT_SIZE == 80
  {
  }

  /** The region continues the segment of top. */
  method AppendToTop(m: MallocState, tbase: int, tsize: int)
    requires Inv(m.Now(), {m.dv}) && DvOK(m.L, m.dv, m.dvsize) && m.top != 0 && Granted(m.segs, tbase, tsize)
      && tsize >= 104
    requires m.segs != [] && tbase == m.segs[0].base + m.segs[0].size
    requires m.footprint == TotalSize(m.segs) + tsize && m.footprint <= m.maxFootprint
    modifies m`mem, m`segSize, m`segs, m`L, m`top, m`topsize, m`trimCheck
    ensures m.Valid() && Blocks(m.L) == Blocks(old(m.L)) && PayloadKept(old(m.mem), m.mem, Blocks(m.L))
    ensures m.top != 0 && m.topsize == old(m.topsize) + tsize
  {
    hide *;
    ghost var s0 := m.Now();
    NowIs(m);
    FirstHoldsTop(s0, {m.dv}, 0);
    m.segSize := m.segSize + tsize;
    m.segs := m.segs[0 := m.segs[0].(size := m.segs[0].size + tsize)];
    TopAligned(m.top);
    InitTop(m, m.top, m.topsize + tsize);
    m.L := m.L[m.top := Chunk(Top, m.topsize, true)];
    NowIs(m);
    SeparateAfter(s0, {m.dv}, tbase, tsize);
    ResizeTop(s0, m.Now(), tsize, {m.dv});
    TotalAt(s0.segs, 0, s0.segs[0].base, s0.segs[0].size + tsize);
    ConsistentIs(m, {m.dv});
    ValidIs(m);
  }

  lemma TopAligned(a: int)
    requires a % 16 == 0
    ensures AlignUp(a) == a
  {
  }

  lemma SeparateAfter(s: Snap, out: set<int>, tbase: int, tsize: int)
    requires Inv(s, out) && s.segs != [] && Granted(s.segs, tbase, tsize) && tbase == s.segs[0].base + s.segs[0].size
      && tsize > 0
    ensures Separate(s.segs[0 := s.segs[0].(size := s.segs[0].size + tsize)])
    ensures tbase + tsize <= 0x8000_0000_0000 && tsize % 8 == 0
  {
    hide *;
    InvParts(s, out);
    SegsOKIs(s);
    SegsUnfold(s.L, s.segs, s.top, s.topsize);
    GrantedIs(s.segs, tbase, tsize);
    forall k | 0 <= k < |s.segs| ensures s.segs[k].size > 80 { SegShapeIs(s.segs[k]); }
    StillSeparate(s.segs, tbase, tsize);
  }

  lemma StillSeparate(segs: seq<Seg>, tbase: int, tsize: int)
    requires Separate(segs) && segs != [] && Granted(segs, tbase, tsize) && tbase == segs[0].base + segs[0].size
    requires forall k :: 0 <= k < |segs| ==> segs[k].size > 80
    ensures Separate(segs[0 := segs[0].(size := segs[0].size + tsize)])
  {
  }

  /** The region lies apart: add_segment. */
  method AddSegmentAt(m: MallocState, tbase: int, tsize: int)
    requires Inv(m.Now(), {m.dv}) && DvOK(m.L, m.dv, m.dvsize) && m.top != 0 && Granted(m.segs, tbase, tsize)
      && tsize >= 104
    requires m.footprint == TotalSize(m.segs) + tsize && m.footprint <= m.maxFootprint && m.leastAddr <= tbase
    modifies m`mem, m`smallmap, m`treemap, m`D, m`rings, m`trees, m`segBase, m`segSize, m`segNext, m`segs, m`L, m`top,
             m`topsize, m`trimCheck
    ensures m.Valid() && Blocks(m.L) == Blocks(old(m.L)) && PayloadKept(old(m.mem), m.mem, Blocks(m.L))
    ensures m.top != 0 && m.topsize == tsize - 80 - (AlignUp(tbase) - tbase)
  {
    hide *;
    ghost var s0 := m.Now();
    NowIs(m);
    HasSegments(s0, {m.dv});
    var oldTop := m.top;
    var oldsp, k := SegmentHolding(m, oldTop, {m.dv});
    FirstHoldsTop(s0, {m.dv}, 0);
    if oldsp != 0 { FirstHoldsTop(s0, {m.dv}, k); }
    NodeIs(m, {m.dv}, 0);
    var oldEnd := SegBase(m, oldsp) + SegSize(m, oldsp);
    var ssize := 48;
    var rawsp := oldEnd - (ssize + 32 + 15);
    var asp := rawsp + AlignOffset(rawsp + 16);
    AlignOffsetIs(rawsp);
    var csp := if asp < oldTop + 32 then oldTop else asp;
    RecordAtIs(oldTop, oldEnd);
    RecordFits(oldTop, m.topsize);
    ChunkAtTop(s0, {m.dv});
    RetireTop(m, tbase, tsize, oldTop, csp, oldEnd);
    NowIs(m);
    AddSegmentDone(m, s0, tbase, tsize, oldTop, csp);
    ghost var m4 := m.mem;
    if csp != oldTop {
      InsertChunk(m, oldTop, csp - oldTop, {m.dv} + {oldTop});
      assert {m.dv} + {oldTop} - {oldTop} == {m.dv};
      PayloadThen(s0.mem, m4, m.mem, Blocks(s0.L), Blocks(s0.L), Blocks(s0.L));
    }
    ValidIs(m);
  }

  /**
   * Top moves to the new region; the old top is left as the segment record at csp, fenceposts, and what lies before the
   * record.
   */
  method RetireTop(m: MallocState, tbase: int, tsize: int, oldTop: int, csp: int, oldEnd: int)
    requires oldTop <= csp && (csp == oldTop || csp - oldTop >= 32) && csp + 64 < oldEnd && m.segs != []
      && oldTop in m.L
    modifies m`mem, m`segBase, m`segSize, m`segNext, m`segs, m`L, m`top, m`topsize, m`trimCheck
    ensures m.top == AlignUp(tbase) && m.topsize == tsize - 80 - (m.top - tbase)
    ensures Local(old(m.mem)[m.top + 8 := m.topsize + 1][m.top + m.topsize + 8 := 80], m.mem, oldTop + 8, oldEnd)
    ensures RetiredWords(m.mem, oldTop, csp, old(m.segBase), old(m.segSize), old(m.segNext))
    ensures m.L == Retired(old(m.L)[m.top := Chunk(Top, m.topsize, true)], oldTop, csp)
    ensures m.segs == Pushed(old(m.segs), tbase, tsize, csp + 16) && m.segBase == tbase && m.segSize == tsize
      && m.segNext == csp + 16
  {
    hide *;
    var ssize := 48;
    var ss := csp + 16;
    var tnext := csp + ssize;
    TopFootIs();
    InitTop(m, tbase, tsize - TOP_FOOT_SIZE);
    ghost var m1 := m.mem;
    SetInuseHead(m, csp, ssize);
    PushRecord(m, ss, tbase, tsize);
    ghost var m2 := m.mem;
    Fenceposts(m, tnext, oldEnd);
    ghost var m3 := m.mem;
    var psize := csp - oldTop;
    if csp != oldTop {
      SetFreeWithPinuse(m, oldTop, psize, csp);
    }
    m.segs := Pushed(m.segs, tbase, tsize, ss);
    m.L := Retired(m.L[m.top := Chunk(Top, m.topsize, true)], oldTop, csp);
    RetiredAfter(m1, m2, m3, m.mem, oldTop, csp, oldEnd, old(m.segBase), old(m.segSize), old(m.segNext));
  }

  lemma AddSegmentDone(m: MallocState, s0: Snap, tbase: int, tsize: int, t: int, c: int)
    requires Inv(s0, {m.dv}) && DvOK(s0.L, m.dv, m.dvsize) && s0.top == t != 0 && s0.segs != []
      && Granted(s0.segs, tbase, tsize) && tsize >= 104
    requires m.footprint == TotalSize(s0.segs) + tsize && m.footprint <= m.maxFootprint && m.leastAddr <= tbase
      && t in s0.L
    requires m.top == AlignUp(tbase) && m.topsize == tsize - 80 - (m.top - tbase)
      && c == RecordAt(t, t + s0.topsize + 80)
    requires Local(s0.mem[m.top + 8 := m.topsize + 1][m.top + m.topsize + 8 := 80], m.mem, t + 8, t + s0.topsize + 80)
    requires RetiredWords(m.mem, t, c, s0.segBase, s0.segSize, s0.segNext)
    requires m.Now() == s0.(mem := m.mem, L := Retired(s0.L[m.top := Chunk(Top, m.topsize, true)], t, c), top := m.top,
                            topsize := m.topsize,
                            segs := Pushed(s0.segs, tbase, tsize, c + 16), segBase := tbase, segSize := tsize,
                                segNext := c + 16)
    requires s0.least == m.leastAddr
    ensures m.Consistent({m.dv} + {t}) && DvOK(m.L, m.dv, m.dvsize) && m.dv != t && m.top != 0
    ensures Blocks(m.L) == Blocks(s0.L) && PayloadKept(s0.mem, m.mem, Blocks(s0.L))
    ensures c != t ==> t in m.L && m.L[t] == Chunk(Free, c - t, true)
    ensures c == t ==> m.Consistent({m.dv})
  {
    hide *;
    NowIs(m);
    AddSegmentStep(s0, m.Now(), tbase, tsize, m.top, m.topsize, c, {m.dv});
    TotalPushed(s0.segs, tbase, tsize, c + 16);
    ConsistentIs(m, {m.dv} + {t});
    AlignUpBounds(tbase);
    GrantedIs(s0.segs, tbase, tsize);
    DvNotTop(s0, {m.dv}, m.dv, m.dvsize);
    if c == t {
      Reout(m.Now(), {m.dv} + {t}, {m.dv});
      ConsistentIs(m, {m.dv});
    }
  }

  lemma RecordAtIs(t: int, e: int)
    ensures RecordAt(t, e) == if AlignUp(e - 95) < t + 32 then t else AlignUp(e - 95)
  {
  }

  lemma ChunkAtTop(s: Snap, out: set<int>)
    requires Inv(s, out) && s.top != 0
    ensures s.top in s.L && s.L[s.top].kind.Top? && s.segs != []
  {
    hide *;
    InvParts(s, out);
    TopIs(s.mem, s.L, s.top, s.topsize);
    HasSegments(s, out);
  }

  lemma DvNotTop(s: Snap, out: set<int>, dv: int, dvsize: int)
    requires Inv(s, out) && s.top != 0 && DvOK(s.L, dv, dvsize)
    ensures dv != s.top
  {
    hide *;
    ChunkAtTop(s, out);
    DvIs(s.L, dv, dvsize);
  }

  /** The record in the state is copied to ss, and the state takes the new segment. */
  method PushRecord(m: MallocState, ss: int, tbase: int, tsize: int)
    modifies m`mem, m`segBase, m`segSize, m`segNext
    ensures m.mem == old(m.mem)[ss := old(m.segBase)][ss + 8 := old(m.segSize)][ss + 16 := old(m.segNext)]
    ensures m.segBase == tbase && m.segSize == tsize && m.segNext == ss
  {
    m.mem := m.mem[ss := m.segBase];
    m.mem := m.mem[ss + 8 := m.segSize];
    m.mem := m.mem[ss + 16 := m.segNext];
    m.segBase := tbase;
    m.segSize := tsize;
    m.segNext := ss;
  }

  /** The trailing fenceposts, from tnext to the end of the old segment: at least two. */
  method Fenceposts(m: MallocState, tnext: int, oldEnd: int)
    requires tnext + 16 < oldEnd
    modifies m`mem
    ensures Rd(m.mem, tnext + 8) == 11 && Rd(m.mem, tnext + 16) == 11
    ensures Local(old(m.mem), m.mem, tnext + 8, oldEnd)
  {
    var p := tnext;
    var nfences := 0;
    while true
      invariant p == tnext + 8 * nfences && nfences >= 0 && p + 8 < oldEnd
      invariant nfences > 0 ==> Rd(m.mem, tnext + 8) == 11
      invariant nfences > 1 ==> Rd(m.mem, tnext + 16) == 11
      invariant Local(old(m.mem), m.mem, tnext + 8, oldEnd)
      decreases oldEnd - p
    {
      var nextp := p + 8;
      m.mem := m.mem[p + 8 := 11];
      nfences := nfences + 1;
      if nextp + 8 < oldEnd {
        p := nextp;
      } else {
        break;
      }
    }
    assert nfences >= 2;
  }

  lemma RetiredAfter(m1: Mem, m2: Mem, m3: Mem, m4: Mem, t: int, c: int, e: int, base: int, size: int, next: int)
    requires t <= c && (c == t || c - t >= 32) && c + 64 < e
    requires m2 == m1[c + 8 := 51][c + 16 := base][c + 24 := size][c + 32 := next]
    requires Local(m2, m3, c + 56, e) && Rd(m3, c + 56) == 11
    requires m4 == if c == t then m3
      else m3[c + 8 := ClearPinuse(Rd(m3, c + 8))][t + 8 := c - t + 1][t + (c - t) := c - t]
    ensures RetiredWords(m4, t, c, base, size, next) && Local(m1, m4, t + 8, e)
  {
    LocalIs(m2, m3, c + 56, e);
    LocalIs(m1, m4, t + 8, e);
    assert Rd(m3, c + 8) == 51 && Rd(m3, c + 16) == base && Rd(m3, c + 24) == size && Rd(m3, c + 32) == next;
    forall w | w < t + 8 || w >= e ensures Rd(m4, w) == Rd(m1, w) {
      assert Rd(m3, w) == Rd(m2, w);
    }
  }

  /** The segment at sp starts at tbase from now on, and its first two chunks are p and q, both in use up to n. */
  method FrontFields(m: MallocState, sp: int, k: int, tbase: int, tsize: int, p: int, q: int, n: int)
    requires 0 <= k < |m.segs| && sp == SpAt(m.segs, k) && (sp == 0x1A00 <==> k == 0)
    requires SegSize(m, sp) == m.segs[k].size && tbase + tsize == m.segs[k].base && p + 32 <= q && q + 32 <= n
    modifies m`mem, m`segBase, m`segSize, m`segs, m`L
    ensures m.segs == old(m.segs)[k := Seg(tbase, old(m.segs)[k].size + tsize, old(m.segs)[k].rec)]
    ensures m.segBase == if k == 0 then tbase else old(m.segBase)
    ensures m.segSize == if k == 0 then m.segs[k].size else old(m.segSize)
    ensures var m1 := Recorded(old(m.mem), old(m.segs), k, tbase, m.segs[k].size);
            Local(m1, m.mem, p + 8, n) && Rd(m.mem, p + 8) == q - p + 3 && Rd(m.mem, q + 8) == n - q + 3
    ensures m.L == WithTwo(old(m.L), p, q, n)
  {
    if sp == SEG_AT {
      m.segBase := tbase;
      m.segSize := m.segSize + tsize;
    } else {
      m.mem := m.mem[sp := tbase];
      m.mem := m.mem[sp + 8 := Rd(m.mem, sp + 8) + tsize];
    }
    m.segs := m.segs[k := Seg(tbase, m.segs[k].size + tsize, m.segs[k].rec)];
    SetInuseHead(m, p, q - p);
    SetInuseHead(m, q, n - q);
    m.L := WithTwo(m.L, p, q, n);
  }

  /** prepend_alloc: the chunk asked for, and the rest consolidated with the first chunk of the old base. */
  method PrependAlloc(m: MallocState, sp: int, k: int, tbase: int, tsize: int, nb: int) returns (mem: int)
    requires Inv(m.Now(), {m.dv}) && DvOK(m.L, m.dv, m.dvsize) && Granted(m.segs, tbase, tsize) && m.leastAddr <= tbase
    requires 0 <= k < |m.segs| && sp == SpAt(m.segs, k) && m.segs[k].base == tbase + tsize
    requires nb >= 32 && nb % 16 == 0 && tsize >= nb + 88
    requires m.footprint == TotalSize(m.segs) + tsize && m.footprint <= m.maxFootprint
    modifies m`mem, m`smallmap, m`treemap, m`D, m`rings, m`trees, m`segBase, m`segSize, m`segs, m`L, m`top, m`topsize,
             m`dv, m`dvsize
    ensures m.Valid() && mem != 0 && Served(old(m.L), m.L, mem, nb) && PayloadKept(old(m.mem), m.mem, Blocks(old(m.L)))
  {
    hide *;
    ghost var s0 := m.Now();
    NowIs(m);
    var p := tbase + AlignOffset(tbase + 16);
    var oldfirst := m.segs[k].base + AlignOffset(m.segs[k].base + 16);
    AlignOffsetIs(tbase);
    AlignOffsetIs(m.segs[k].base);
    GrantedIs(m.segs, tbase, tsize);
    AlignUpBounds(tbase);
    AlignUpBounds(m.segs[k].base);
    FirstAligned(tbase);
    var q := p + nb;
    var qsize := oldfirst - p - nb;
    NodeIs(m, {m.dv}, k);
    FrontFields(m, sp, k, tbase, tsize, p, q, oldfirst);
    NowIs(m);
    PrependStep(s0, m.Now(), k, tbase, p, q, oldfirst, {m.dv});
    TotalAt(s0.segs, k, tbase, s0.segs[k].size + tsize);
    ConsistentIs(m, {m.dv});
    ghost var m1, L1 := m.mem, m.L;
    ReleaseFront(m, q, qsize, oldfirst);
    mem := p + 16;
    FrontServed(s0.L, L1, m.L, p, q, nb, qsize);
    PayloadThen(s0.mem, m1, m.mem, Blocks(s0.L), Blocks(s0.L), Blocks(m.L));
  }

  lemma FrontServed(L: Layout, L1: Layout, L2: Layout, p: int, q: int, nb: int, qsize: int)
    requires Blocks(L1) == Blocks(L)[p := nb][q := qsize] && p !in Blocks(L) && q !in Blocks(L) && p < q && p > 0
    requires Blocks(L2) == Blocks(L1) - {q} && p in L2 && L2[p] == Chunk(Live, nb, true)
    ensures Served(L, L2, p + 16, nb) && Blocks(L2) == Blocks(L)[p := nb]
    ensures forall c :: c in Blocks(L) ==> c in Blocks(L2) && Blocks(L2)[c] == Blocks(L)[c]
  {
    assert Blocks(L2) == Blocks(L)[p := nb];
  }

  /**
   * The remainder q joins top, the designated victim, or a free first chunk, or else becomes a free chunk of its own.
   */
  method ReleaseFront(m: MallocState, q: int, qsize: int, oldfirst: int)
    requires m.Consistent({m.dv}) && DvOK(m.L, m.dv, m.dvsize)
    requires q in m.L && m.L[q] == Chunk(Live, qsize, true) && oldfirst == q + qsize
    modifies m`mem, m`smallmap, m`treemap, m`D, m`rings, m`trees, m`L, m`top, m`topsize, m`dv, m`dvsize
    ensures m.Valid() && Blocks(m.L) == Blocks(old(m.L)) - {q} && PayloadKept(old(m.mem), m.mem, Blocks(m.L))
    ensures forall c :: c in old(m.L) && c < q ==> c in m.L && m.L[c] == old(m.L)[c]
  {
    hide *;
    ghost var s0 := m.Now();
    NowIs(m);
    ConsistentIs(m, {m.dv});
    Reout(s0, {m.dv}, {m.dv} + {q});
    ConsistentIs(m, {m.dv} + {q});
    PendingIs(m, q, q, oldfirst);
    PendingFacts(m, q, q, oldfirst);
    HeadShows(s0, {m.dv}, oldfirst);
    ChunkFacts(s0, {m.dv}, oldfirst);
    if oldfirst == m.top {
      IntoTop(m, q, qsize, q);
    } else if oldfirst == m.dv {
      IntoDv(m, q, qsize, q);
    } else if !IsInuse(Rd(m.mem, oldfirst + 8)) {
      IntoNext(m, q, qsize, ChunkSize(Rd(m.mem, oldfirst + 8)), true, q);
    } else {
      Alone(m, q, qsize, oldfirst, q);
    }
  }

  lemma LowerLeast(s: Snap, s': Snap, out: set<int>)
    requires Inv(s, out) && s' == s.(least := s'.least) && s'.least <= s.least
    ensures Inv(s', out)
  {
    hide *;
    InvParts(s, out);
    InvParts(s', out);
    SegsOKIs(s);
    SegsOKIs(s');
  }

  ghost predicate NoSegmentAt(segs: seq<Seg>, a: int) {
    forall k :: 0 <= k < |segs| ==> segs[k].base != a
  }

  lemma NoSegmentAtIs(segs: seq<Seg>, a: int)
    ensures NoSegmentAt(segs, a) <==> forall k :: 0 <= k < |segs| ==> segs[k].base != a
  {
  }

  /**
   * A region that cannot serve the request it was obtained for: it is one word short of it, once a word is lost to
   * alignment, and neither continues the segment of top nor ends where a segment begins.
   */
  ghost predicate FallsShort(segs: seq<Seg>, tbase: int, tsize: int, nb: int) {
    && tbase % 16 == 8 && tsize == nb + 88
    && (segs != [] ==> tbase != segs[0].base + segs[0].size)
    && NoSegmentAt(segs, tbase + tsize)
  }

  lemma FallsShortIs(segs: seq<Seg>, tbase: int, tsize: int, nb: int)
    ensures FallsShort(segs, tbase, tsize, nb) <==>
      && tbase % 16 == 8 && tsize == nb + 88
      && (segs != [] ==> tbase != segs[0].base + segs[0].size)
      && NoSegmentAt(segs, tbase + tsize)
  {
  }

  /** Such a region passes the tests of the noncontiguous call: it is granted, and exceeds the request and the foot. */
  lemma SomeRegionFallsShort()
    ensures FallsShort([], 0x2008, 120, 32) && Granted([], 0x2008, 120) && 120 > 32 + 80
  {
    GrantedIs([], 0x2008, 120);
  }

  /**
   * A region that covers the request does not fall short, and one that does not continue top exceeds the request and
   * the foot.
   */
  lemma RegionEnough(m: MallocState, tbase: int, tsize: int, nb: int)
    requires Enough(m, tbase, tsize, nb) || tsize > nb + 80
    requires Granted(m.segs, tbase, tsize) && nb % 16 == 0
    ensures tsize >= nb + 88 || ContinuesTop(m, tbase, tsize, nb)
    ensures ContinuesTop(m, tbase, tsize, nb) <==>
      m.segs != [] && tbase == m.segs[0].base + m.segs[0].size && m.topsize + tsize >= nb + 96
    ensures tsize >= nb + 88 ==> (tsize - 80 - (AlignUp(tbase) - tbase) <= nb <==> tbase % 16 == 8 && tsize == nb + 88)
  {
    hide *;
    EnoughIs(m, tbase, tsize, nb);
    ContinuesTopIs(m, tbase, tsize, nb);
    GrantedIs(m.segs, tbase, tsize);
    WordsApart(tsize, nb);
    if tsize > nb + 80 { RoomInRegion(tbase, tsize, nb); }
  }

  lemma ContinuesTopIs(m: MallocState, tbase: int, tsize: int, nb: int)
    ensures ContinuesTop(m, tbase, tsize, nb) <==>
      m.segs != [] && tbase == m.segs[0].base + m.segs[0].size && m.topsize + tsize >= nb + 96
  {
  }

  lemma WordsApart(tsize: int, nb: int)
    requires tsize % 8 == 0 && nb % 16 == 0
    ensures tsize > nb + 80 <==> tsize >= nb + 88
  {
  }

  lemma AlignUpWord(a: int)
    requires a % 8 == 0
    ensures if a % 16 == 8 then AlignUp(a) == a + 8 else AlignUp(a) == a
  {
    var q := a / 16;
    if a % 16 == 8 { DivUnique(a + 15, 16, q + 1, 7); } else { DivUnique(a + 15, 16, q, 15); }
  }

  /** Where top begins in a region of its own, and what of it is left. */
  lemma RoomInRegion(tbase: int, tsize: int, nb: int)
    requires tbase % 8 == 0 && tsize % 8 == 0 && nb % 16 == 0 && tsize > nb + 80
    ensures tsize - 80 - (AlignUp(tbase) - tbase) <= nb <==> tbase % 16 == 8 && tsize == nb + 88
  {
    hide *;
    AlignUpWord(tbase);
    WordsApart(tsize, nb);
  }

  /** The new region joins the heap, and the request is served from it, unless the region falls short. */
  method Install(m: MallocState, tbase: int, tsize: int, nb: int) returns (mem: int)
    requires m.Valid() && Granted(m.segs, tbase, tsize) && tsize >= 104 && nb >= 32 && nb % 16 == 0
    requires Enough(m, tbase, tsize, nb) || tsize > nb + 80
    modifies m`mem, m`smallmap, m`treemap, m`D, m`rings, m`trees, m`segBase, m`segSize, m`segNext, m`segs, m`L, m`top,
             m`topsize, m`dv, m`dvsize, m`trimCheck, m`leastAddr, m`footprint, m`maxFootprint
    ensures m.Valid() && Served(old(m.L), m.L, mem, nb) && PayloadKept(old(m.mem), m.mem, Blocks(old(m.L)))
    ensures mem == 0 <==> FallsShort(old(m.segs), tbase, tsize, nb)
    ensures m.footprint == old(m.footprint) + tsize
    ensures m.maxFootprint == if m.footprint > old(m.maxFootprint) then m.footprint else old(m.maxFootprint)
  {
    hide *;
    ghost var s0, out := m.Now(), {m.dv};
    NowIs(m);
    ValidIs(m);
    ConsistentIs(m, {m.dv});
    EnoughIs(m, tbase, tsize, nb);
    GrantedIs(m.segs, tbase, tsize);
    HasSegments(s0, {m.dv});
    FallsShortIs(m.segs, tbase, tsize, nb);
    NoSegmentAtIs(m.segs, tbase + tsize);
    RegionEnough(m, tbase, tsize, nb);
    m.footprint := m.footprint + tsize;
    if m.footprint > m.maxFootprint {
      m.maxFootprint := m.footprint;
    }
    NowIs(m);
    ContinuesTopIs(m, tbase, tsize, nb);
    mem := Place(m, tbase, tsize, nb);
    if mem == 0 {
      ServedIs(s0.L, m.L, mem, nb);
      mem := ServeFromTop(m, nb, s0.L, s0.mem);
    }
  }

  /** The region becomes the first segment, continues top, or lies apart, where it may serve the request at once. */
  method Place(m: MallocState, tbase: int, tsize: int, nb: int) returns (mem: int)
    requires Inv(m.Now(), {m.dv}) && DvOK(m.L, m.dv, m.dvsize) && Granted(m.segs, tbase, tsize) && tsize >= 104
    requires nb >= 32 && nb % 16 == 0 && (tsize >= nb + 88 || ContinuesTop(m, tbase, tsize, nb))
    requires m.footprint == TotalSize(m.segs) + tsize && m.footprint <= m.maxFootprint
    modifies m`mem, m`smallmap, m`treemap, m`D, m`rings, m`trees, m`segBase, m`segSize, m`segNext, m`segs, m`L, m`top,
             m`topsize, m`dv, m`dvsize, m`trimCheck, m`leastAddr
    ensures m.Valid() && Served(old(m.L), m.L, mem, nb) && PayloadKept(old(m.mem), m.mem, Blocks(old(m.L)))
    ensures mem != 0 ==> old(m.segs) != [] && !NoSegmentAt(old(m.segs), tbase + tsize)
                         && tbase != old(m.segs)[0].base + old(m.segs)[0].size
    ensures mem == 0 ==> m.top != 0
    ensures mem == 0 && old(m.segs) != [] && tbase == old(m.segs)[0].base + old(m.segs)[0].size ==>
      m.topsize == old(m.topsize) + tsize && old(m.topsize) >= 8
    ensures mem == 0 && (old(m.segs) == [] || tbase != old(m.segs)[0].base + old(m.segs)[0].size) ==>
      NoSegmentAt(old(m.segs), tbase + tsize) && m.topsize == tsize - 80 - (AlignUp(tbase) - tbase)
  {
    hide *;
    ghost var s0, out := m.Now(), {m.dv};
    NowIs(m);
    ContinuesTopIs(m, tbase, tsize, nb);
    HasSegments(s0, out);
    NoSegmentAtIs(m.segs, tbase + tsize);
    mem := 0;
    if m.top == 0 {
      FirstTime(m, tbase, tsize);
      NoPayload(s0.mem, m.mem, Blocks(s0.L));
      ServedIs(s0.L, m.L, mem, nb);
    } else {
      var sp, k := SegmentEndingAt(m, tbase, out);
      if sp != 0 { NodeIs(m, out, k); FirstHoldsTop(s0, out, k); }
      FirstHoldsTop(s0, out, 0);
      if sp != 0 && SegBase(m, sp) <= m.top < SegBase(m, sp) + SegSize(m, sp) {
        AppendToTop(m, tbase, tsize);
        ServedIs(s0.L, m.L, mem, nb);
      } else {
        mem := PlaceApart(m, tbase, tsize, nb);
      }
    }
  }

  /** The region lies below a segment, and the request is served there, or it becomes a segment of its own with top. */
  method PlaceApart(m: MallocState, tbase: int, tsize: int, nb: int) returns (mem: int)
    requires Inv(m.Now(), {m.dv}) && DvOK(m.L, m.dv, m.dvsize) && m.top != 0 && m.segs != []
    requires Granted(m.segs, tbase, tsize) && tsize >= 104 && nb >= 32 && nb % 16 == 0 && tsize >= nb + 88
    requires m.footprint == TotalSize(m.segs) + tsize && m.footprint <= m.maxFootprint
    modifies m`mem, m`smallmap, m`treemap, m`D, m`rings, m`trees, m`segBase, m`segSize, m`segNext, m`segs, m`L, m`top,
             m`topsize, m`dv, m`dvsize, m`trimCheck, m`leastAddr
    ensures m.Valid() && Served(old(m.L), m.L, mem, nb) && PayloadKept(old(m.mem), m.mem, Blocks(old(m.L)))
    ensures mem == 0 <==> NoSegmentAt(old(m.segs), tbase + tsize)
    ensures mem == 0 ==> m.top != 0 && m.topsize == tsize - 80 - (AlignUp(tbase) - tbase)
  {
    hide *;
    ghost var s0, out := m.Now(), {m.dv};
    NowIs(m);
    if tbase < m.leastAddr {
      m.leastAddr := tbase;
    }
    NowIs(m);
    LowerLeast(s0, m.Now(), out);
    var sp, k := SegmentStartingAt(m, tbase + tsize, {m.dv});
    NoSegmentAtIs(m.segs, tbase + tsize);
    if sp != 0 {
      mem := PrependAlloc(m, sp, k, tbase, tsize, nb);
    } else {
      AddSegmentAt(m, tbase, tsize);
      mem := 0;
      ServedIs(s0.L, m.L, 0, nb);
    }
  }

  lemma NoPayload(m: Mem, m': Mem, B: map<int, int>)
    requires B == map[]
    ensures PayloadKept(m, m', B)
  {
  }

  /** Allocate from the new or extended top space. */
  method ServeFromTop(m: MallocState, nb: int, ghost L0: Layout, ghost m0: Mem) returns (mem: int)
    requires m.Valid() && m.top != 0 && nb >= 32 && nb % 16 == 0
    requires Blocks(m.L) == Blocks(L0) && PayloadKept(m0, m.mem, Blocks(L0))
    modifies m`mem, m`L, m`top, m`topsize
    ensures m.Valid() && Served(L0, m.L, mem, nb) && PayloadKept(m0, m.mem, Blocks(L0))
    ensures nb < old(m.topsize) <==> mem != 0
    ensures mem != 0 ==> mem == old(m.top) + 16 && old(m.top) in m.L && m.L[old(m.top)].size == nb
  {
    hide *;
    mem := 0;
    ServedIs(L0, m.L, 0, nb);
    if nb < m.topsize {
      ValidIs(m);
      ConsistentIs(m, {m.dv});
      NowIs(m);
      TopAlone(m.Now(), {m.dv});
      var p := m.top;
      ghost var m1 := m.mem;
      TakeTop(m, nb, {m.dv});
      mem := p + 16;
      ServedIs(L0, m.L, mem, nb);
      PayloadThen(m0, m1, m.mem, Blocks(L0), Blocks(L0), Blocks(L0));
      ValidIs(m);
    }
  }

  lemma ServedIs(L: Layout, L': Layout, mem: int, nb: int)
    ensures Served(L, L', mem, nb) <==>
      if mem == 0 then Blocks(L') == Blocks(L)
      else
        var p := mem - 16;
        && p !in Blocks(L) && p in L' && L'[p].kind.Live? && L'[p].pin && nb <= L'[p].size < nb + 32
        && Blocks(L') == Blocks(L)[p := L'[p].size]
  {
  }

  /** What may be asked of sys_alloc: a padded request, or the size that always fails. */
  predicate Padded(nb: int) {
    (32 <= nb < 0x1_0000_0000_0000_0000 && nb % 16 == 0) || nb == 0xFFFF_FFFF_FFFF_FFFF
  }

  lemma PaddedIs(nb: int)
    ensures Padded(nb) <==> (32 <= nb < 0x1_0000_0000_0000_0000 && nb % 16 == 0) || nb == 0xFFFF_FFFF_FFFF_FFFF
  {
  }

  lemma FootprintPositive(s: Snap, out: set<int>)
    requires Inv(s, out)
    ensures TotalSize(s.segs) >= 0
  {
    hide *;
    HasSegments(s, out);
    PositiveTotal(s.segs);
  }

  lemma {:induction false} PositiveTotal(segs: seq<Seg>)
    requires forall k :: 0 <= k < |segs| ==> segs[k].size > 80
    ensures TotalSize(segs) >= 80 * |segs|
  {
    if segs != [] { PositiveTotal(segs[1..]); }
  }

  /** The footprint grew, and not from a noncontiguous call that yielded more than was asked for. */
  predicate GrewAsAsked(noncontiguous: bool, before: int, after: int, nb: int) {
    after > before && (!noncontiguous || after - before <= Asize(nb))
  }

  lemma GrewAsAskedIs(noncontiguous: bool, before: int, after: int, nb: int)
    ensures GrewAsAsked(noncontiguous, before, after, nb) <==>
      after > before && (!noncontiguous || after - before <= Asize(nb))
  {
  }

  /**
   * When sys_alloc gives null: the request is not made, or no way of asking yields a region, or the region that comes
   * falls short.
   */
  ghost predicate Refuses(c: Outside, nb: int) {
    Makes(c, nb) ==>
      var r := Ask(c, nb).region;
      r.Region? ==> FallsShort(c.segs, r.base, r.size, nb)
  }

  lemma RefusesIs(c: Outside, nb: int)
    ensures Refuses(c, nb) <==> (Makes(c, nb) && Ask(c, nb).region.Region? ==>
      FallsShort(c.segs, Ask(c, nb).region.base, Ask(c, nb).region.size, nb))
  {
  }

  /** An ordinary sbrk never makes sys_alloc give null before the address space or the limit is used up. */
  lemma SbrkServes(c: Outside, start: int, brk: int, nb: int)
    requires BreakAt(c, start, brk) && !c.noncontiguous && 0 <= c.topsize <= nb && brk + nb + 0x3000 <= 0x8000_0000_0000
    requires WithinFootprint(c.footprint, c.limit, nb + 0x2060)
    ensures !Refuses(c, nb)
  {
    hide Ask, Makes;
    SbrkExtends(c, start, brk, nb);
  }

  /** What was asked for a request, and that what came is in the footprint. */
  ghost predicate AskedFor(c: Outside, c': Outside, nb: int) {
    var a := if Makes(c, nb) then Ask(c, nb) else Answer(Nothing, c);
    && c'.system == c.system && c'.asked == a.after.asked && c'.noncontiguous == a.after.noncontiguous
    && c'.limit == c.limit && c'.footprint == c.footprint + if a.region.Region? then a.region.size else 0
  }

  lemma AskedForIs(c: Outside, c': Outside, nb: int)
    ensures AskedFor(c, c', nb) <==> (
      var a := if Makes(c, nb) then Ask(c, nb) else Answer(Nothing, c);
      && c'.system == c.system && c'.asked == a.after.asked && c'.noncontiguous == a.after.noncontiguous
      && c'.limit == c.limit && c'.footprint == c.footprint + if a.region.Region? then a.region.size else 0)
  {
  }

  /**
   * sys_alloc, for any system: what it asks, and that it gives null exactly when it has to. Whenever memory is obtained
   * the request is served, except that a noncontiguous call may yield exactly the request and 88 bytes. The footprint
   * only grows, and never past a limit except when a noncontiguous call yields more than was asked for.
   */
  method SysAlloc(m: MallocState, nb: int) returns (mem: int)
    requires m.Valid() && Padded(nb) && (m.top != 0 ==> m.topsize <= nb)
    modifies m
    ensures m.Valid() && Served(old(m.L), m.L, mem, nb) && PayloadKept(old(m.mem), m.mem, Blocks(old(m.L)))
    ensures mem == 0 <==> Refuses(old(m.Side()), nb)
    ensures AskedFor(old(m.Side()), m.Side(), nb)
    ensures m.maxFootprint == if m.footprint > old(m.maxFootprint) then m.footprint else old(m.maxFootprint)
    ensures m.footprint >= old(m.footprint) && m.footprintLimit == old(m.footprintLimit)
    ensures m.footprint > old(m.footprint) && mem == 0 ==> m.noncontiguous && m.footprint == old(m.footprint) + nb + 88
    ensures GrewAsAsked(m.noncontiguous, old(m.footprint), m.footprint, nb) ==>
      m.footprintLimit == 0 || m.footprint <= m.footprintLimit
    ensures mem != 0 ==> m.footprint > old(m.footprint)
    ensures nb == 0xFFFF_FFFF_FFFF_FFFF ==> mem == 0 && m.footprint == old(m.footprint)
  {
    hide *;
    mem := 0;
    ValidIs(m);
    ConsistentIs(m, {m.dv});
    NowIs(m);
    FootprintPositive(m.Now(), {m.dv});
    PaddedIs(nb);
    ServedIs(m.L, m.L, 0, nb);
    PayloadRefl(m.mem, Blocks(m.L));
    GrewAsAskedIs(m.noncontiguous, m.footprint, m.footprint, nb);
    ghost var c := m.Side();
    SideIs(m);
    RefusesIs(c, nb);
    AskedForIs(c, c, nb);
    MakesIs(c, nb);
    WithinIs(c.footprint, c.limit, Whole(nb + 96));
    var asize := Asize(nb);
    AsizeFits(nb);
    if asize > nb { AsizeIsWhole(nb); }
    if asize <= nb {
      return;
    }
    if m.footprintLimit != 0 {
      LimitTestIs(m.footprint, m.footprintLimit, asize);
      if !LimitTest(m.footprint, m.footprintLimit, asize) {
        return;
      }
    }
    ghost var before := m.footprint;
    var tbase, tsize := AskSystem(m, nb, asize);
    SideIs(m);
    AskedForIs(c, m.Side(), nb);
    AskedSame(c, nb);
    NowIs(m);
    ConsistentIs(m, {m.dv});
    ValidIs(m);
    GrewAsAskedIs(m.noncontiguous, before, before, nb);
    if tbase != CMFAIL {
      WithinIs(m.footprint, m.footprintLimit, tsize);
      EnoughIs(m, tbase, tsize, nb);
      FallsShortIs(m.segs, tbase, tsize, nb);
      GrewAsAskedIs(m.noncontiguous, before, before + tsize, nb);
      mem := Install(m, tbase, tsize, nb);
      SideIs(m);
      AskedForIs(c, m.Side(), nb);
    }
  }

  /** Asking changes nothing but what was asked, and whether contiguous calls have failed. */
  lemma AskedSame(c: Outside, nb: int)
    ensures Ask(c, nb).after ==
      c.(asked := Ask(c, nb).after.asked, noncontiguous := Ask(c, nb).after.noncontiguous)
  {
  }
}
