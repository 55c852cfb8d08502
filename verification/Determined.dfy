/**
 * The live blocks determine the heap: with the segments, records and fenceposts given, free chunks and top are what
 * lies between, fully coalesced. So the order in which blocks are freed does not matter, and a heap of one segment
 * with no live block is all top.
 */
module Determined {
  import opened Words
  import opened Memory
  import opened BinMaps
  import opened Layouts
  import opened Bins
  import opened State
  import opened HeapSteps
  import opened Chunks
  import opened Segments
  import opened SegmentList
  import opened SystemMemory
  import Prepend

  predicate Fixed(L: Layout, c: int) {
    c in L && (L[c].kind.Record? || L[c].kind.Fence?)
  }

  /** The same records and fenceposts. */
  ghost predicate SameFixed(L: Layout, L': Layout) {
    forall c :: FixedAlike(L, L', c)
  }

  predicate FixedAlike(L: Layout, L': Layout, c: int) {
    (Fixed(L, c) <==> Fixed(L', c)) && (Fixed(L, c) ==> L[c].kind == L'[c].kind && L[c].size == L'[c].size)
  }

  predicate Inside(g: Seg, c: int) {
    g.base <= c < g.base + g.size
  }

  /** The only fencepost chunk of a segment is the one after its record, and its head says so. */
  lemma FenceOfSegment(s: Snap, out: set<int>, k: int, q: int)
    requires Inv(s, out) && 0 <= k < |s.segs| && q in s.L && s.L[q].kind.Fence? && Inside(s.segs[k], q)
    ensures k > 0 && s.L[q] == Chunk(Fence, 8, true) && q == s.segs[k].rec + 32
  {
    hide *;
    InsideIs(s.segs[k], q);
    InvParts(s, out);
    SegsOKIs(s);
    SegsUnfold(s.L, s.segs, s.top, s.topsize);
    NoRecordInIs(s.L, s.segs[0]);
    SegOf(s, out, k);
    if k > 0 { RecordPlace(s.mem, s.L, s.segs, k); }
  }

  lemma InsideIs(g: Seg, c: int)
    ensures Inside(g, c) <==> g.base <= c < g.base + g.size
  {
  }

  lemma RecordPlace(m: Mem, L: Layout, segs: seq<Seg>, k: int)
    requires RecordsOK(m, L, segs) && 1 <= k < |segs|
    ensures segs[k].rec + 32 in L && L[segs[k].rec + 32] == Chunk(Fence, 8, true)
    ensures segs[k].base <= segs[k].rec - 16 && segs[k].rec + 48 <= segs[k].base + segs[k].size
  {
    assert RecordOK(m, L, segs, k);
  }

  /** Where records and fenceposts are is known from the segments. */
  lemma FixedPlaces(s: Snap, out: set<int>, c: int)
    requires Inv(s, out)
    ensures Fixed(s.L, c) && s.L[c].kind.Record? <==> exists k :: 1 <= k < |s.segs| && s.segs[k].rec - 16 == c
    ensures Fixed(s.L, c) && s.L[c].kind.Fence? <==> exists k :: 1 <= k < |s.segs| && s.segs[k].rec + 32 == c
    ensures Fixed(s.L, c) ==> s.L[c].size == if s.L[c].kind.Record? then 48 else 8
  {
    hide *;
    FixedIs'(s.L, c);
    InvParts(s, out);
    SegsOKIs(s);
    SegsUnfold(s.L, s.segs, s.top, s.topsize);
    forall k | 1 <= k < |s.segs| ensures s.segs[k].rec - 16 in s.L && s.L[s.segs[k].rec - 16].kind.Record?
        && s.L[s.segs[k].rec - 16].size == 48
      && s.segs[k].rec + 32 in s.L && s.L[s.segs[k].rec + 32] == Chunk(Fence, 8, true)
    {
      Prepend.RecordChunk(s.mem, s.L, s.segs, k);
      RecordPlace(s.mem, s.L, s.segs, k);
    }
    if c in s.L && s.L[c].kind.Record? { RecordsNamedIs(s.L, s.segs, c); }
    if c in s.L && s.L[c].kind.Fence? {
      ChunkFacts(s, out, c);
      ReachAtLeast(s.L[c]);
      var k := HomeOf(s.segs, c, c + Reach(s.L[c]));
      InsideIs(s.segs[k], c);
      FenceOfSegment(s, out, k, c);
    }
  }

  lemma FixedIs'(L: Layout, c: int)
    ensures Fixed(L, c) <==> c in L && (L[c].kind.Record? || L[c].kind.Fence?)
  {
  }

  lemma RecordsNamedIs(L: Layout, segs: seq<Seg>, c: int)
    requires RecordsNamed(L, segs) && c in L && L[c].kind.Record?
    ensures exists k :: 1 <= k < |segs| && segs[k].rec - 16 == c
  {
    assert Named(segs, c);
  }

  /** The same segments, the end of the first, which holds top, aside. */
  ghost predicate AlikeSegs(segs: seq<Seg>, segs': seq<Seg>) {
    && |segs| == |segs'|
    && (forall k :: 1 <= k < |segs| ==> segs[k] == segs'[k])
    && (segs != [] ==> segs[0].base == segs'[0].base)
  }

  lemma AlikeSegsIs(segs: seq<Seg>, segs': seq<Seg>)
    ensures AlikeSegs(segs, segs') <==>
      && |segs| == |segs'|
      && (forall k :: 1 <= k < |segs| ==> segs[k] == segs'[k])
      && (segs != [] ==> segs[0].base == segs'[0].base)
    ensures AlikeSegs(segs, segs') ==> AlikeSegs(segs', segs)
                                       && forall k :: 0 <= k < |segs| ==> segs[k].base == segs'[k].base
  {
  }

  lemma SameSegsSameFixed(s: Snap, out: set<int>, s': Snap, out': set<int>)
    requires Inv(s, out) && Inv(s', out') && AlikeSegs(s.segs, s'.segs)
    ensures SameFixed(s.L, s'.L)
  {
    hide *;
    SameFixedIs(s.L, s'.L);
    AlikeSegsIs(s.segs, s'.segs);
    forall c ensures FixedAlike(s.L, s'.L, c) {
      FixedPlaces(s, out, c);
      FixedPlaces(s', out', c);
      FixedIs'(s.L, c);
      FixedIs'(s'.L, c);
      FixedAlikeIs(s.L, s'.L, c);
    }
  }

  lemma SameFixedIs(L: Layout, L': Layout)
    ensures SameFixed(L, L') <==> forall c :: FixedAlike(L, L', c)
  {
  }

  lemma FixedAlikeIs(L: Layout, L': Layout, c: int)
    requires Fixed(L, c) <==> Fixed(L', c)
    requires Fixed(L, c) ==> (L[c].kind.Record? <==> L'[c].kind.Record?) && (L[c].kind.Fence? <==> L'[c].kind.Fence?)
                             && L[c].size == L'[c].size
    ensures FixedAlike(L, L', c)
  {
  }

  lemma FixedIs(L: Layout, L': Layout, c: int)
    requires SameFixed(L, L') && Blocks(L) == Blocks(L')
    ensures c in L && (L[c].kind.Record? || L[c].kind.Fence? || L[c].kind.Live?) ==>
      c in L' && L'[c].kind == L[c].kind && L'[c].size == L[c].size
    ensures c in L' && (L'[c].kind.Record? || L'[c].kind.Fence? || L'[c].kind.Live?) ==>
      c in L && L'[c].kind == L[c].kind && L'[c].size == L[c].size
  {
    assert FixedAlike(L, L', c);
    if c in L && L[c].kind.Live? { assert c in Blocks(L'); assert Blocks(L)[c] == Blocks(L')[c]; }
    if c in L' && L'[c].kind.Live? { assert c in Blocks(L); assert Blocks(L)[c] == Blocks(L')[c]; }
  }

  /** The end of a free chunk in one heap bounds it in the other. */
  lemma FreeNoLonger(s: Snap, out: set<int>, s': Snap, out': set<int>, f: int)
    requires Inv(s, out) && Inv(s', out') && SameFixed(s.L, s'.L) && Blocks(s.L) == Blocks(s'.L)
    requires f in s.L && s.L[f].kind.Free? && f in s'.L
    ensures s'.L[f].kind.Free? ==> s'.L[f].size <= s.L[f].size
    ensures f + s.L[f].size in s'.L
  {
    hide *;
    var e := f + s.L[f].size;
    ChunkFacts(s, out, f);
    HeadOfIs(s.L[e]);
    FixedIs(s.L, s'.L, e);
    if f < e { NotBetween(s', out', f, e); }
  }

  /** Nothing of top's segment lies beyond top. */
  lemma NothingAboveTop(s: Snap, out: set<int>, f: int, e: int)
    requires Inv(s, out) && f == s.top && f in s.L && e in s.L && f < e
    ensures !Within(s.segs, f, e + 16)
  {
    hide *;
    ChunkFacts(s, out, f);
    HasSegments(s, out);
    FirstHoldsTop(s, out, 0);
    InvParts(s, out);
    SegsOKIs(s);
    SegsUnfold(s.L, s.segs, s.top, s.topsize);
    TopIs(s.mem, s.L, s.top, s.topsize);
    if Within(s.segs, f, e + 16) {
      InOne(s.segs, f, e + 16);
    }
  }

  lemma InOne(segs: seq<Seg>, f: int, e: int)
    requires Separate(segs) && segs != [] && Within(segs, f, e) && segs[0].base <= f < segs[0].base + segs[0].size
      && f < e
    ensures e <= segs[0].base + segs[0].size
  {
    var k :| 0 <= k < |segs| && InSeg(segs[k], f, e);
    SameSeg(segs, 0, k, f);
  }

  /** What lies beyond top in one heap is in no segment with the place of top in the other. */
  lemma NothingAboveOtherTop(s: Snap, out: set<int>, s': Snap, out': set<int>, f: int, e: int)
    requires Inv(s, out) && Inv(s', out') && AlikeSegs(s.segs, s'.segs)
    requires f == s'.top && f in s'.L && e in s'.L && f < e
    ensures !Within(s.segs, f, e + 16)
  {
    hide *;
    if Within(s.segs, f, e + 16) {
      var k := HomeOf(s.segs, f, e + 16);
      AlikeSegsIs(s.segs, s'.segs);
      HasSegments(s', out');
      ChunkFacts(s', out', f);
      FirstHoldsTop(s', out', 0);
      ChunkFacts(s', out', e);
      ReachAtLeast(s'.L[e]);
      var j := HomeOf(s'.segs, e, e + Reach(s'.L[e]));
      NothingAboveTop(s', out', f, e);
      if j == 0 { InThisSeg(s'.segs, 0, f, e + 16); }
      InvParts(s, out);
      SegsOKIs(s);
      SegsUnfold(s.L, s.segs, s.top, s.topsize);
      InSegIs(s.segs, j, e);
      InSegIs(s.segs, k, e);
      SameSeg(s.segs, j, k, e);
      InThisSeg(s'.segs, j, f, e + 16);
    }
  }

  /** The same chunk, or both top. */
  predicate AlikeChunks(c: Chunk, d: Chunk) {
    c.kind == d.kind && c.pin == d.pin && (c.size == d.size || c.kind.Top?)
  }

  lemma AlikeChunksIs(c: Chunk, d: Chunk)
    ensures AlikeChunks(c, d) <==> c.kind == d.kind && c.pin == d.pin && (c.size == d.size || c.kind.Top?)
    ensures AlikeChunks(c, d) && !c.kind.Top? ==> c == d
  {
  }

  /** A chunk at the same place with the same pinuse bit is the same chunk. */
  lemma SameChunk(s: Snap, out: set<int>, s': Snap, out': set<int>, f: int)
    requires Inv(s, out) && Inv(s', out') && SameFixed(s.L, s'.L) && Blocks(s.L) == Blocks(s'.L)
      && AlikeSegs(s.segs, s'.segs)
    requires f in s.L && f in s'.L && s.L[f].pin == s'.L[f].pin
    ensures AlikeChunks(s.L[f], s'.L[f])
  {
    hide *;
    FixedIs(s.L, s'.L, f);
    ChunkFacts(s, out, f);
    ChunkFacts(s', out', f);
    ReachTop(s.L[f]);
    ReachTop(s'.L[f]);
    AlikeSegsIs(s.segs, s'.segs);
    if s.L[f].kind.Free? {
      FreeNoLonger(s, out, s', out', f);
      if s'.L[f].kind.Top? { NothingAboveOtherTop(s, out, s', out', f, f + s.L[f].size); }
    }
    if s'.L[f].kind.Free? {
      FixedBack(s.L, s'.L);
      FreeNoLonger(s', out', s, out, f);
      if s.L[f].kind.Top? { NothingAboveOtherTop(s', out', s, out, f, f + s'.L[f].size); }
    }
    AlikeChunksIs(s.L[f], s'.L[f]);
    KindsAre(s.L[f], s'.L[f]);
  }

  lemma FixedBack(L: Layout, L': Layout)
    requires SameFixed(L, L')
    ensures SameFixed(L', L)
  {
    forall c ensures FixedAlike(L', L, c) { assert FixedAlike(L, L', c); }
  }

  lemma KindsAre(c: Chunk, d: Chunk)
    ensures c.kind == d.kind && c.size == d.size && c.pin == d.pin ==> c == d
    ensures c.kind.Live? || c.kind.Free? || c.kind.Top? || c.kind.Record? || c.kind.Fence?
  {
  }

  lemma SegOf(s: Snap, out: set<int>, k: int)
    requires Inv(s, out) && 0 <= k < |s.segs|
    ensures AlignUp(s.segs[k].base) in s.L && s.L[AlignUp(s.segs[k].base)].pin
    ensures forall f, c :: f in s.L && s.L[f].kind.Fence? && c in s.L && s.segs[k].base <= f < c ==>
                           c >= s.segs[k].base + s.segs[k].size
  {
    hide *;
    InvParts(s, out);
    SegsOKIs(s);
    SegsUnfold(s.L, s.segs, s.top, s.topsize);
    FirstOKIs(s.L, s.segs[k]);
    FenceEndsIs(s.L, s.segs[k]);
  }

  /** Walking the chunks of a segment from f to c, the two heaps agree. */
  lemma {:induction false} WalkTo(s: Snap, out: set<int>, s': Snap, out': set<int>, k: int, f: int, c: int)
    requires Inv(s, out) && Inv(s', out') && SameFixed(s.L, s'.L) && Blocks(s.L) == Blocks(s'.L)
      && AlikeSegs(s.segs, s'.segs)
    requires 0 <= k < |s.segs| && s.segs[k].base <= f <= c && c + 16 <= s.segs[k].base + s.segs[k].size
    requires f in s.L && c in s.L && f in s'.L && s.L[f].pin == s'.L[f].pin
    ensures c in s'.L && AlikeChunks(s.L[c], s'.L[c])
    decreases c - f
  {
    hide *;
    SameChunk(s, out, s', out', f);
    if f < c {
      ChunkFacts(s, out, f);
      ChunkFacts(s', out', f);
      SegOf(s, out, k);
      if s.L[f].kind.Top? {
        InThisSeg(s.segs, k, f, c + 16);
        NothingAboveTop(s, out, f, c);
      }
      KindsAre(s.L[f], s.L[f]);
      AlikeChunksIs(s.L[f], s'.L[f]);
      NotBetween(s, out, f, c);
      WalkTo(s, out, s', out', k, f + s.L[f].size, c);
    }
  }

  lemma InThisSeg(segs: seq<Seg>, k: int, a: int, e: int)
    requires 0 <= k < |segs| && segs[k].base <= a && e <= segs[k].base + segs[k].size
    ensures Within(segs, a, e)
  {
    assert InSeg(segs[k], a, e);
  }

  lemma HomeOf(segs: seq<Seg>, a: int, e: int) returns (k: int)
    requires Within(segs, a, e)
    ensures 0 <= k < |segs| && segs[k].base <= a && e <= segs[k].base + segs[k].size
  {
    k :| 0 <= k < |segs| && InSeg(segs[k], a, e);
  }

  lemma Included(s: Snap, out: set<int>, s': Snap, out': set<int>, c: int)
    requires Inv(s, out) && Inv(s', out') && SameFixed(s.L, s'.L) && Blocks(s.L) == Blocks(s'.L)
      && AlikeSegs(s.segs, s'.segs)
    requires c in s.L
    ensures c in s'.L && AlikeChunks(s.L[c], s'.L[c])
  {
    hide *;
    AlikeSegsIs(s.segs, s'.segs);
    ChunkFacts(s, out, c);
    ReachAtLeast(s.L[c]);
    var k := HomeOf(s.segs, c, c + Reach(s.L[c]));
    SegOf(s, out, k);
    SegOf(s', out', k);
    AlignUpBounds(s.segs[k].base);
    LeastAligned(s.segs[k].base, c);
    WalkTo(s, out, s', out', k, AlignUp(s.segs[k].base), c);
  }

  lemma ReachAtLeast(c: Chunk)
    requires c.size >= 8
    ensures Reach(c) >= 16
  {
  }

  /** The same chunks throughout, but for the size of top. */
  ghost predicate SameButTop(L: Layout, L': Layout, top: int) {
    && (forall c :: c in L <==> c in L')
    && (forall c :: c in L && c != top ==> L'[c] == L[c])
  }

  lemma SameButTopIs(L: Layout, L': Layout, top: int)
    ensures SameButTop(L, L', top) <==> (forall c :: c in L <==> c in L')
                                        && (forall c :: c in L && c != top ==> L'[c] == L[c])
  {
  }

  /**
   * Two heaps with the same live blocks, in segments that agree but for the end of the first, have the same chunks
   * throughout, and tops that differ as the ends do.
   */
  lemma LiveBlocksDetermineHeap(s: Snap, out: set<int>, s': Snap, out': set<int>)
    requires Inv(s, out) && Inv(s', out') && Blocks(s.L) == Blocks(s'.L) && AlikeSegs(s.segs, s'.segs)
    ensures s.top == s'.top && SameButTop(s.L, s'.L, s.top)
    ensures s.segs == [] ==> s.topsize == s'.topsize == 0
    ensures s.segs != [] ==> s'.segs != [] && s'.topsize - s.topsize == s'.segs[0].size - s.segs[0].size
    ensures s.segs == s'.segs ==> s.L == s'.L && s.topsize == s'.topsize
  {
    hide *;
    AlikeSegsIs(s.segs, s'.segs);
    SameSegsSameFixed(s, out, s', out');
    FixedBack(s.L, s'.L);
    HasSegments(s, out);
    HasSegments(s', out');
    InvParts(s, out);
    InvParts(s', out');
    TopOKIs(s.L, s.top, s.topsize);
    TopOKIs(s'.L, s'.top, s'.topsize);
    forall c | c in s.L ensures c in s'.L && AlikeChunks(s.L[c], s'.L[c]) { Included(s, out, s', out', c); }
    forall c | c in s'.L ensures c in s.L { Included(s', out', s, out, c); }
    if s.top != 0 {
      FirstHoldsTop(s, out, 0);
      FirstHoldsTop(s', out', 0);
      AlikeChunksIs(s.L[s.top], s'.L[s.top]);
    }
    forall c | c in s.L && c != s.top ensures s'.L[c] == s.L[c] { AlikeChunksIs(s.L[c], s'.L[c]); }
    SameButTopIs(s.L, s'.L, s.top);
    if s.segs == s'.segs {
      if s.top != 0 {
        ChunkFacts(s, out, s.top);
        ChunkFacts(s', out', s.top);
        AlikeChunksIs(s.L[s.top], s'.L[s.top]);
        KindsAre(s.L[s.top], s'.L[s.top]);
      }
      SameMap(s.L, s'.L);
    }
  }

  lemma SameMap(L: Layout, L': Layout)
    requires (forall c :: c in L ==> c in L' && L'[c] == L[c]) && (forall c :: c in L' ==> c in L)
    ensures L == L'
  {
    assert forall c :: c in L.Keys <==> c in L'.Keys;
    assert L.Keys == L'.Keys;
    assert forall c :: c in L.Keys ==> L[c] == L'[c];
  }

  // ---- the heap without live blocks ----

  lemma OnlyTop(s: Snap, out: set<int>, c: int)
    requires Inv(s, out) && |s.segs| == 1 && Blocks(s.L) == map[] && c in s.L
    ensures c == s.top == AlignUp(s.segs[0].base) && s.L[c].kind.Top?
  {
    hide *;
    var f := AlignUp(s.segs[0].base);
    SegOf(s, out, 0);
    InvParts(s, out);
    SegsOKIs(s);
    SegsUnfold(s.L, s.segs, s.top, s.topsize);
    NoRecordInIs(s.L, s.segs[0]);
    BlocksIs(s.L);
    ChunkFacts(s, out, f);
    ChunkFacts(s, out, c);
    var k := HomeOf(s.segs, c, c + Reach(s.L[c]));
    ReachAtLeast(s.L[c]);
    AlignUpBounds(s.segs[0].base);
    LeastAligned(s.segs[0].base, c);
    var kf := HomeOf(s.segs, f, f + Reach(s.L[f]));
    ReachAtLeast(s.L[f]);
    KindsAre(s.L[f], s.L[f]);
    if s.L[f].kind.Free? {
      var n := f + s.L[f].size;
      HeadOfIs(s.L[n]);
      var kn := HomeOf(s.segs, f, n + 16);
      assert false;
    }
    if c > f {
      InThisSeg(s.segs, 0, f, c + 16);
      NothingAboveTop(s, out, f, c);
    }
  }

  lemma NoneMarked(m: Mem, smallmap: U32, treemap: U32, D: map<int, int>, rings: seq<seq<int>>, trees: seq<Tries.Tree>)
    requires BinsOK(m, smallmap, treemap, D, rings, trees) && D == map[]
    ensures smallmap == 0 && treemap == 0
  {
    hide *;
    BinsParts(m, smallmap, treemap, D, rings, trees);
    forall j: nat | j < 32 ensures !Marked(smallmap, j) && !Marked(treemap, j) {
      EmptySmallBin(m, m, smallmap, j, rings[j], D);
      EmptyTreeBin(m, m, treemap, j, trees[j], D);
      MarksAre(m, smallmap, treemap, j, rings[j], trees[j], D);
    }
    ZeroIffUnmarked(smallmap);
    ZeroIffUnmarked(treemap);
  }

  lemma MarksAre(m: Mem, smallmap: U32, treemap: U32, i: nat, r: seq<int>, t: Tries.Tree, D: map<int, int>)
    requires i < 32 && SmallBinOK(m, smallmap, i, r, D) && TreeBinOK(m, treemap, i, t, D)
    ensures (Marked(smallmap, i) <==> r != []) && (Marked(treemap, i) <==> t.Node?)
  {
  }

  /** Once every block of a one-segment heap is freed, top is the whole segment and everything else is empty. */
  lemma AllFreedIsAllTop(m: MallocState)
    requires m.Valid() && |m.segs| == 1 && Blocks(m.L) == map[]
    ensures m.smallmap == 0 && m.treemap == 0 && m.dv == 0 && m.dvsize == 0
    ensures m.top == AlignUp(m.segs[0].base) && m.top + m.topsize + 80 == m.segs[0].base + m.segs[0].size
    ensures m.L == map[m.top := Chunk(Top, m.topsize, true)]
    ensures m.footprint == m.segs[0].size
  {
    hide *;
    ValidIs(m);
    NowIs(m);
    ConsistentIs(m, {m.dv});
    var s, out := m.Now(), {m.dv};
    HasSegments(s, out);
    FirstHoldsTop(s, out, 0);
    InvParts(s, out);
    TopOKIs(m.L, m.top, m.topsize);
    forall c | c in m.L ensures c == m.top && m.L[c].kind.Top? { OnlyTop(s, out, c); }
    OnlyTop(s, out, m.top);
    ChunkFacts(s, out, m.top);
    KindsAre(m.L[m.top], Chunk(Top, m.topsize, true));
    SameMap(m.L, map[m.top := Chunk(Top, m.topsize, true)]);
    FiledIs(m.L, m.D, out);
    NoKeys(m.D);
    NoneMarked(m.mem, m.smallmap, m.treemap, m.D, m.rings, m.trees);
    DvIs(m.L, m.dv, m.dvsize);
    TotalOne(m.segs[0]);
    assert m.segs == [m.segs[0]];
  }
}
