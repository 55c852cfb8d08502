/** A region that ends where a segment begins joins it from below. */
module Prepend {
  import opened Memory
  import opened Layouts
  import opened Bins
  import opened State
  import opened HeapSteps
  import opened Chunks
  import opened Segments

  // ---- the record of the segment ----

  /**
   * The new base and size are written where the segment's record is: in the state for the first, else in its record
   * chunk.
   */
  function Recorded(m: Mem, segs: seq<Seg>, k: int, base: int, size: int): Mem
    requires 0 <= k < |segs|
  {
    if k == 0 then m else m[segs[k].rec := base][segs[k].rec + 8 := size]
  }

  lemma RecordChunk(m: Mem, L: Layout, segs: seq<Seg>, k: int)
    requires LayoutOK(m, L) && RecordsOK(m, L, segs) && 1 <= k < |segs|
    ensures segs[k].rec - 16 in L && L[segs[k].rec - 16].kind.Record? && L[segs[k].rec - 16].size == 48
      && segs[k].rec >= 0x2010
  {
    assert RecordOK(m, L, segs, k);
    TagFacts(m, L, segs[k].rec - 16);
  }

  /** Chunks keep clear of the inside of another chunk. */
  lemma ClearOfChunk(m: Mem, L: Layout, r: int, lo: int, hi: int)
    requires LayoutOK(m, L) && r in L && r + 16 <= lo && hi <= r + L[r].size && !L[r].kind.Top?
    ensures ClearOfRegion(L, r, lo, hi)
  {
    forall c | c in L && c != r ensures c >= hi || c + Needs(L[c]) <= lo {
      if c < r { NeedsBelow(m, L, c, r); } else { ClearOf(m, L, r, c); }
    }
  }

  lemma RecordWrite(m: Mem, m': Mem, L: Layout, D: map<int, int>, segs: seq<Seg>, k: int, base: int, size: int)
    requires LayoutOK(m, L) && RecordsOK(m, L, segs) && 0 <= k < |segs| && m' == Recorded(m, segs, k, base, size)
    requires forall p :: p in D ==> p in L && L[p].kind.Free? && L[p].size == D[p]
    requires Separate(segs) && forall j :: 0 <= j < |segs| ==> SegShape(segs[j])
    requires base <= segs[k].base && base + size == segs[k].base + segs[k].size
    ensures LayoutOK(m', L) && AwayFromBins(m, m', D)
    ensures RecordsOK(m', L, segs[k := segs[k].(base := base, size := size)])
    ensures forall c, w :: c in L && L[c].kind.Live? && c + 16 <= w < c + L[c].size + 8 ==> Rd(m', w) == Rd(m, w)
  {
    hide *;
    RecordedIs(m, segs, k, base, size);
    if k == 0 {
      RecordsSame(m, L, segs, segs[0 := segs[0].(base := base, size := size)]);
      NothingMoves(m, D);
    } else {
      var r := segs[k].rec;
      RecordChunk(m, L, segs, k);
      ClearOfChunk(m, L, r - 16, r, r + 16);
      TwoWrites(m, r, base, r + 8, size);
      LocalIs(m, m', r, r + 16);
      FloorIs();
      FarWrites(m, m', L, D, r - 16, r, r + 16);
      SameWordsAt(m, m', L, r - 16);
      forall c | c in L ensures SameWords(m, m', L, c) { }
      StillLaidOut(m, m', L);
      DistinctRecords(m, L, segs, k);
      RecordsWritten(m, m', L, segs, k, base, size);
    }
  }

  /** Two segments do not share a record: their bases differ. */
  lemma DistinctRecords(m: Mem, L: Layout, segs: seq<Seg>, k: int)
    requires RecordsOK(m, L, segs) && 1 <= k < |segs| && Separate(segs)
      && forall j :: 0 <= j < |segs| ==> SegShape(segs[j])
    ensures forall j :: 1 <= j < |segs| && j != k ==> segs[j].rec != segs[k].rec
  {
    forall j | 1 <= j < |segs| && j != k ensures segs[j].rec != segs[k].rec {
      assert RecordOK(m, L, segs, j) && RecordOK(m, L, segs, k);
      assert SegShape(segs[j]) && SegShape(segs[k]);
    }
  }

  lemma RecordedIs(m: Mem, segs: seq<Seg>, k: int, base: int, size: int)
    requires 0 <= k < |segs|
    ensures Recorded(m, segs, k, base, size) == if k == 0 then m else m[segs[k].rec := base][segs[k].rec + 8 := size]
  {
  }

  lemma NothingMoves(m: Mem, D: map<int, int>)
    ensures AwayFromBins(m, m, D)
  {
  }

  lemma SameWordsAt(m: Mem, m': Mem, L: Layout, c: int)
    requires c in L && L[c].kind.Record? && Rd(m', c) == Rd(m, c) && Rd(m', c + 8) == Rd(m, c + 8)
    ensures SameWords(m, m', L, c)
  {
  }

  lemma StillLaidOut(m: Mem, m': Mem, L: Layout)
    requires LayoutOK(m, L) && forall c :: c in L ==> SameWords(m, m', L, c)
    ensures LayoutOK(m', L)
  {
    hide SameWords;
    forall a | a in L ensures At(m', L, a) {
      assert At(m, L, a);
      SameTags(m, m', L, a);
    }
  }

  lemma RecordsWritten(m: Mem, m': Mem, L: Layout, segs: seq<Seg>, k: int, base: int, size: int)
    requires LayoutOK(m, L) && RecordsOK(m, L, segs) && 1 <= k < |segs|
    requires m' == m[segs[k].rec := base][segs[k].rec + 8 := size]
    requires forall j :: 1 <= j < |segs| && j != k ==> segs[j].rec != segs[k].rec
    requires base <= segs[k].base && base + size == segs[k].base + segs[k].size
    ensures RecordsOK(m', L, segs[k := segs[k].(base := base, size := size)])
  {
    hide LayoutOK;
    var segs' := segs[k := segs[k].(base := base, size := size)];
    forall j | 1 <= j < |segs'| ensures RecordOK(m', L, segs', j) {
      assert RecordOK(m, L, segs, j) && RecordOK(m, L, segs, k);
      RecordApart(m, L, segs[j].rec - 16, segs[k].rec - 16);
    }
  }

  lemma RecordApart(m: Mem, L: Layout, c: int, d: int)
    requires LayoutOK(m, L) && c in L && d in L && L[c].size == 48 && L[d].size == 48 && L[c].kind.Record?
      && L[d].kind.Record?
    ensures c == d || c + 48 <= d || d + 48 <= c
  {
    if c < d { ClearOf(m, L, c, d); }
    if d < c { ClearOf(m, L, d, c); }
  }

  // ---- the two new chunks ----

  /** Below the first chunk of segment k, the new region holds p, in use, and q, in use up to that chunk. */
  function WithTwo(L: Layout, p: int, q: int, n: int): Layout {
    L[p := Chunk(Live, q - p, true)][q := Chunk(Live, n - q, true)]
  }

  lemma TwoAt(m: Mem, L: Layout, p: int, q: int, n: int)
    requires p % 16 == 0 && p >= HEAP_FLOOR && q - p >= 32 && (q - p) % 16 == 0 && n - q >= 32 && (n - q) % 16 == 0
    requires p in L && L[p] == Chunk(Live, q - p, true) && q in L && L[q] == Chunk(Live, n - q, true) && n in L
      && L[n].pin
    requires Rd(m, p + 8) == q - p + 3 && Rd(m, q + 8) == n - q + 3 && n <= ADDRESS_LIMIT
    requires forall c :: c in L && c > p ==> c == q || c >= n
    ensures At(m, L, p) && At(m, L, q)
  {
  }

  lemma TwoLayout(m: Mem, m': Mem, L: Layout, b: int, p: int, q: int, n: int)
    requires LayoutOK(m, L) && b <= p && p % 16 == 0 && p >= HEAP_FLOOR && n in L && L[n].pin
    requires q - p >= 32 && (q - p) % 16 == 0 && n - q >= 32
    requires Rd(m', p + 8) == q - p + 3 && Rd(m', q + 8) == n - q + 3 && Local(m, m', p + 8, n)
    requires forall c :: c in L ==> c >= n || c + Reach(L[c]) <= b
    ensures LayoutOK(m', WithTwo(L, p, q, n)) && ClearOfRegion(L, p, p + 8, n)
    ensures SameBeyond(L, WithTwo(L, p, q, n), b, n) && WithTwo(L, p, q, n)[n] == L[n]
    ensures p in WithTwo(L, p, q, n) && q in WithTwo(L, p, q, n)
    ensures WithTwo(L, p, q, n)[p] == Chunk(Live, q - p, true) && WithTwo(L, p, q, n)[q] == Chunk(Live, n - q, true)
    ensures forall c :: c in WithTwo(L, p, q, n) && b <= c < n ==> c == p || c == q
  {
    hide *;
    var L' := WithTwo(L, p, q, n);
    TagFacts(m, L, n);
    FloorIs();
    forall c | c in L ensures c >= n || (c + Extent(L[c]) <= b && c + Needs(L[c]) <= b && c < b) {
      TagFacts(m, L, c);
      ReachNeeds(L[c]);
    }
    ClearIs(L, p, p + 8, n);
    NoChunksBinned(m, L, m', p, n);
    WithTwoIs(L, p, q, n);
    TwoAt(m', L', p, q, n);
    SameBeyondIs(L, L', b, n);
    Regional(m, L, m', L', b, n);
  }

  lemma ClearIs(L: Layout, t: int, lo: int, hi: int)
    ensures ClearOfRegion(L, t, lo, hi) <==> forall c :: c in L && c != t ==> c >= hi || c + Needs(L[c]) <= lo
  {
  }

  lemma SameBeyondIs(L: Layout, L': Layout, lo: int, hi: int)
    ensures SameBeyond(L, L', lo, hi) <==> forall c :: c < lo || c >= hi ==>
                                                       (c in L <==> c in L') && (c in L ==> L'[c] == L[c])
  {
  }

  lemma WithTwoIs(L: Layout, p: int, q: int, n: int)
    ensures WithTwo(L, p, q, n) == L[p := Chunk(Live, q - p, true)][q := Chunk(Live, n - q, true)]
  {
  }

  lemma NoChunksBinned(m: Mem, L: Layout, m': Mem, p: int, n: int)
    requires LayoutOK(m, L) && Local(m, m', p + 8, n) && ClearOfRegion(L, p, p + 8, n) && p >= HEAP_FLOOR && p !in L
    ensures forall c :: c in L ==> SameWords(m, m', L, c)
  {
    hide SameWords, LayoutOK;
    FarWrites(m, m', L, map[], p, p + 8, n);
  }

  // ---- the segments afterwards ----

  lemma Enlarged(segs: seq<Seg>, k: int, tbase: int)
    requires 0 <= k < |segs| && Separate(segs) && (forall j :: 0 <= j < |segs| ==> SegShape(segs[j]))
    requires Granted(segs, tbase, segs[k].base - tbase) && segs[k].base > tbase
    ensures var segs' := segs[k := Seg(tbase, segs[k].base + segs[k].size - tbase, segs[k].rec)];
            Separate(segs') && forall j :: 0 <= j < |segs| ==> SegShape(segs'[j])
  {
    var segs' := segs[k := Seg(tbase, segs[k].base + segs[k].size - tbase, segs[k].rec)];
    forall i, j | 0 <= i < j < |segs'|
      ensures segs'[i].base + segs'[i].size <= segs'[j].base || segs'[j].base + segs'[j].size <= segs'[i].base
    {
      assert SegShape(segs[i]) && SegShape(segs[j]);
    }
    forall j | 0 <= j < |segs| ensures SegShape(segs'[j]) { assert SegShape(segs[j]); }
  }

  lemma WithinEnlarged(segs: seq<Seg>, k: int, tbase: int, a: int, e: int)
    requires 0 <= k < |segs| && segs[k].base > tbase
    requires Within(segs, a, e) || (tbase <= a && e <= segs[k].base + segs[k].size)
    ensures Within(segs[k := Seg(tbase, segs[k].base + segs[k].size - tbase, segs[k].rec)], a, e)
  {
    var segs' := segs[k := Seg(tbase, segs[k].base + segs[k].size - tbase, segs[k].rec)];
    if tbase <= a && e <= segs[k].base + segs[k].size {
      assert InSeg(segs'[k], a, e);
    } else {
      var j :| 0 <= j < |segs| && InSeg(segs[j], a, e);
      assert InSeg(segs'[j], a, e);
    }
  }

  lemma BesideGrown(segs: seq<Seg>, k: int, tbase: int, j: int)
    requires 0 <= k < |segs| && 0 <= j < |segs| && j != k && Separate(segs) && SegShape(segs[j]) && SegShape(segs[k])
    requires Granted(segs, tbase, segs[k].base - tbase) && segs[k].base > tbase
    ensures segs[j].base >= segs[k].base + segs[k].size || segs[j].base + segs[j].size <= tbase
  {
  }

  lemma EndsStill(L: Layout, segs: seq<Seg>, k: int, tbase: int, p: int, q: int, n: int, j: int)
    requires 0 <= j < |segs| && 0 <= k < |segs| && FirstOK(L, segs[j]) && FenceEnds(L, segs[j])
    requires segs[k].base > tbase && p == AlignUp(tbase) && tbase <= p < q < n && n == AlignUp(segs[k].base)
    requires segs[k].base <= n && n + 16 <= segs[k].base + segs[k].size
    requires forall c :: c in L ==> c >= n || c < tbase
    requires j == k || segs[j].base >= segs[k].base + segs[k].size || segs[j].base + segs[j].size <= tbase
    ensures var segs' := segs[k := Seg(tbase, segs[k].base + segs[k].size - tbase, segs[k].rec)];
            FirstOK(WithTwo(L, p, q, n), segs'[j]) && FenceEnds(WithTwo(L, p, q, n), segs'[j])
  {
    hide *;
    WithTwoIs(L, p, q, n);
    AlignUpBounds(segs[j].base);
    var g := if j == k then Seg(tbase, segs[k].base + segs[k].size - tbase, segs[k].rec) else segs[j];
    FirstOKIs(L, segs[j]);
    FirstOKIs(WithTwo(L, p, q, n), g);
    FenceEndsIs(L, segs[j]);
    FenceEndsIs(WithTwo(L, p, q, n), g);
  }

  lemma PrependSegs(L: Layout, segs: seq<Seg>, top: int, topsize: int, k: int, tbase: int, p: int, q: int, n: int)
    requires SegsTiled(L, segs, top, topsize) && 0 <= k < |segs|
    requires Granted(segs, tbase, segs[k].base - tbase) && segs[k].base > tbase
    requires p == AlignUp(tbase) && n == AlignUp(segs[k].base) && p + 32 <= q && q + 32 <= n && n in L
      && n + 16 <= segs[k].base + segs[k].size
    requires forall c :: c in L ==> c >= n || c < tbase
    ensures SegsTiled(WithTwo(L, p, q, n), segs[k := Seg(tbase, segs[k].base + segs[k].size - tbase, segs[k].rec)], top,
                      topsize)
  {
    hide *;
    var L' := WithTwo(L, p, q, n);
    var segs' := segs[k := Seg(tbase, segs[k].base + segs[k].size - tbase, segs[k].rec)];
    SegsUnfold(L, segs, top, topsize);
    SegsUnfold(L', segs', top, topsize);
    WithTwoIs(L, p, q, n);
    Enlarged(segs, k, tbase);
    AlignUpBounds(tbase);
    AlignUpBounds(segs[k].base);
    GrantedIs(segs, tbase, segs[k].base - tbase);
    forall j | 0 <= j < |segs'| ensures FirstOK(L', segs'[j]) && FenceEnds(L', segs'[j]) {
      if j != k { BesideGrown(segs, k, tbase, j); }
      EndsStill(L, segs, k, tbase, p, q, n, j);
    }
    ReachTop(L'[p]);
    ReachTop(L'[q]);
    forall c | c in L' ensures Within(segs', c, c + Reach(L'[c])) {
      WithinEnlarged(segs, k, tbase, c, c + Reach(L'[c]));
    }
    NamedStill(L, L', segs, segs');
    NoRecordInIs(L, segs[0]);
    NoRecordInIs(L', segs'[0]);
  }

  /** Two live chunks join the blocks. */
  lemma TwoMore(L: Layout, b: int, p: int, q: int, n: int, L': Layout)
    requires SameBeyond(L, L', b, n) && b <= p < q < n && (forall c :: c in L ==> c >= n || c < b)
    requires p in L' && q in L' && L'[p] == Chunk(Live, q - p, true) && L'[q] == Chunk(Live, n - q, true)
    requires forall c :: c in L' && b <= c < n ==> c == p || c == q
    ensures Blocks(L') == Blocks(L)[p := q - p][q := n - q] && p !in Blocks(L) && q !in Blocks(L)
    ensures forall d, ds :: DvOK(L, d, ds) ==> DvOK(L', d, ds)
  {
    var B := Blocks(L)[p := q - p][q := n - q];
    forall c ensures c in Blocks(L') <==> c in B { }
    forall c | c in Blocks(L') ensures Blocks(L')[c] == B[c] { }
  }

  lemma TwoFiled(L: Layout, b: int, p: int, q: int, n: int, L': Layout, D: map<int, int>, out: set<int>)
    requires Filed(L, D, out) && SameBeyond(L, L', b, n) && b <= p < q < n && (forall c :: c in L ==> c >= n || c < b)
    requires p in L' && q in L' && L'[p].kind.Live? && L'[q].kind.Live?
    requires forall c :: c in L' && b <= c < n ==> c == p || c == q
    ensures Filed(L', D, out)
  {
  }

  lemma TwoTop(L: Layout, b: int, p: int, q: int, n: int, L': Layout, top: int, topsize: int)
    requires TopOK(L, top, topsize) && SameBeyond(L, L', b, n) && b <= p < q < n
      && (forall c :: c in L ==> c >= n || c < b) && n in L
    requires p in L' && q in L' && L'[p].kind.Live? && L'[q].kind.Live?
    requires forall c :: c in L' && b <= c < n ==> c == p || c == q
    ensures TopOK(L', top, topsize)
  {
  }

  lemma PrependStep(s: Snap, s': Snap, k: int, tbase: int, p: int, q: int, n: int, out: set<int>)
    requires Inv(s, out) && 0 <= k < |s.segs| && Granted(s.segs, tbase, s.segs[k].base - tbase)
      && s.segs[k].base > tbase
    requires p == AlignUp(tbase) && n == AlignUp(s.segs[k].base) && q - p >= 32 && (q - p) % 16 == 0 && n - q >= 32
    requires var m1 := Recorded(s.mem, s.segs, k, tbase, s.segs[k].base + s.segs[k].size - tbase);
             Local(m1, s'.mem, p + 8, n) && Rd(s'.mem, p + 8) == q - p + 3 && Rd(s'.mem, q + 8) == n - q + 3
    requires s' == s.(mem := s'.mem, L := WithTwo(s.L, p, q, n), least := s'.least,
                      segs := s.segs[k := Seg(tbase, s.segs[k].base + s.segs[k].size - tbase, s.segs[k].rec)],
                      segBase := if k == 0 then tbase else s.segBase,
                      segSize := if k == 0 then s.segs[k].base + s.segs[k].size - tbase else s.segSize)
    requires s'.least <= s.least && s'.least <= tbase
    ensures Inv(s', out) && PayloadKept(s.mem, s'.mem, Blocks(s.L))
    ensures Blocks(s'.L) == Blocks(s.L)[p := q - p][q := n - q] && p !in Blocks(s.L) && q !in Blocks(s.L)
    ensures SameBeyond(s.L, s'.L, tbase, n) && n in s.L && n in s'.L && s'.L[n] == s.L[n] && s.L[n].pin && tbase <= p
    ensures p in s'.L && s'.L[p] == Chunk(Live, q - p, true) && q in s'.L && s'.L[q] == Chunk(Live, n - q, true)
    ensures forall c :: c in s'.L && p <= c < n ==> c == p || c == q
    ensures forall d, ds :: DvOK(s.L, d, ds) ==> DvOK(s'.L, d, ds)
  {
    hide *;
    var base, size := s.segs[k].base, s.segs[k].base + s.segs[k].size - tbase;
    var m1 := Recorded(s.mem, s.segs, k, tbase, size);
    InvParts(s, out);
    SegsOKIs(s);
    SegsUnfold(s.L, s.segs, s.top, s.topsize);
    FiledIs(s.L, s.D, out);
    RecordWrite(s.mem, m1, s.L, s.D, s.segs, k, tbase, size);
    PrependRoom(s, out, k, tbase, n);
    AlignUpBounds(tbase);
    GrantedIs(s.segs, tbase, base - tbase);
    FloorIs();
    TwoLayout(m1, s'.mem, s.L, tbase, p, q, n);
    FarWrites(m1, s'.mem, s.L, s.D, p, p + 8, n);
    AwayTwice(s.mem, m1, s'.mem, s.D);
    BinsFrame(s.mem, s'.mem, s.smallmap, s.treemap, s.D, s.rings, s.trees);
    TwoFiled(s.L, tbase, p, q, n, s'.L, s.D, out);
    TwoTop(s.L, tbase, p, q, n, s'.L, s.top, s.topsize);
    TwoMore(s.L, tbase, p, q, n, s'.L);
    PrependSegs(s.L, s.segs, s.top, s.topsize, k, tbase, p, q, n);
    SameBeyondIs(s.L, s'.L, tbase, n);
    forall c ensures PostAfter(s.L, c) ==> c in s.L && c in s'.L && s'.L[c] == s.L[c] { PostAfterIs(s.L, c); }
    RecordsKept(m1, s'.mem, s.L, s'.L, s'.segs);
    HeadSegIs(s.segs, s.segBase, s.segSize, s.segNext);
    HeadSegIs(s'.segs, s'.segBase, s'.segSize, s'.segNext);
    SegsOKIs(s');
    BlocksIs(s.L);
    PayloadIs(s.mem, s'.mem, Blocks(s.L));
    InvParts(s', out);
  }

  lemma AwayTwice(m0: Mem, m1: Mem, m2: Mem, D: map<int, int>)
    requires AwayFromBins(m0, m1, D) && AwayFromBins(m1, m2, D)
    ensures AwayFromBins(m0, m2, D)
  {
  }

  lemma PrependRoom(s: Snap, out: set<int>, k: int, tbase: int, n: int)
    requires Inv(s, out) && 0 <= k < |s.segs| && Granted(s.segs, tbase, s.segs[k].base - tbase)
      && s.segs[k].base > tbase
    requires n == AlignUp(s.segs[k].base)
    ensures forall c :: c in s.L ==> c >= n || (c < tbase && c + Reach(s.L[c]) <= tbase)
    ensures n in s.L && s.L[n].pin && n + 16 <= s.segs[k].base + s.segs[k].size
  {
    hide *;
    ChunksOutsideGrant(s, out, tbase, s.segs[k].base - tbase);
    InvParts(s, out);
    SegsOKIs(s);
    SegsUnfold(s.L, s.segs, s.top, s.topsize);
    FirstOKIs(s.L, s.segs[k]);
    SegShapeIs(s.segs[k]);
    AlignUpBounds(s.segs[k].base);
    FirstAligned(s.segs[k].base);
    forall c | c in s.L ensures c >= n || (c < tbase && c + Reach(s.L[c]) <= tbase) {
      ChunkFacts(s, out, c);
      ReachNeeds(s.L[c]);
      if c >= s.segs[k].base { LeastAligned(s.segs[k].base, c); }
    }
  }
}
