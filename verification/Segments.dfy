/** How segments come, grow and shrink, with the invariant of the whole heap. */
module Segments {
  import opened Words
  import opened Memory
  import opened Layouts
  import opened Bins
  import opened State
  import opened HeapSteps
  import opened Chunks

  // ---- a region of memory that changes while the rest stays ----

  ghost predicate SameBeyond(L: Layout, L': Layout, lo: int, hi: int) {
    forall c :: c < lo || c >= hi ==> (c in L <==> c in L') && (c in L ==> L'[c] == L[c])
  }

  /** What a chunk needs below the region: its own bytes and the prev_foot word after it. */
  function Needs(c: Chunk): int {
    if c.kind.Top? then c.size + 16 else c.size + 8
  }

  /** The chunks other than t keep clear of [lo, hi). */
  ghost predicate ClearOfRegion(L: Layout, t: int, lo: int, hi: int) {
    forall c :: c in L && c != t ==> c >= hi || c + Needs(L[c]) <= lo
  }

  lemma FarWrites(m: Mem, m': Mem, L: Layout, D: map<int, int>, t: int, lo: int, hi: int)
    requires LayoutOK(m, L) && Local(m, m', lo, hi) && ClearOfRegion(L, t, lo, hi) && lo >= HEAP_FLOOR
    requires forall p :: p in D ==> p in L && p != t && L[p].kind.Free? && L[p].size == D[p]
    ensures AwayFromBins(m, m', D)
    ensures forall c, w :: c in L && c != t && c + 8 <= w < c + L[c].size + 8 ==> Rd(m', w) == Rd(m, w)
    ensures forall c :: c in L && c != t ==> SameWords(m, m', L, c)
  {
    forall c, w | c in L && c != t && c + 8 <= w < c + L[c].size + 8 ensures Rd(m', w) == Rd(m, w) { }
    forall c | c in L && c != t ensures SameWords(m, m', L, c) { SizePositive(m, L, c); }
    forall x, w | x in D && x + 8 <= w < x + D[x] ensures Rd(m', w) == Rd(m, w) { }
  }

  lemma SizePositive(m: Mem, L: Layout, c: int)
    requires LayoutOK(m, L) && c in L
    ensures L[c].size >= 8
  {
    hide *;
    TagFacts(m, L, c);
  }

  lemma BelowRegion(m: Mem, L: Layout, m': Mem, L': Layout, lo: int, hi: int, c: int)
    requires LayoutOK(m, L) && SameBeyond(L, L', lo, hi) && c in L && c < lo && SameWords(m, m', L, c)
    requires c + Extent(L[c]) <= lo && lo <= hi
    requires lo in L ==> L[lo].pin && lo in L' && L'[lo].pin && L[lo].kind.Top?
    ensures c in L' && At(m', L', c)
  {
    hide HeadOf, Sized;
    assert At(m, L, c);
    forall b | b in L' && b > c ensures c + Extent(L[c]) <= b {
      if b < lo || b >= hi { assert b in L; }
    }
    var e := c + L[c].size;
    assert e in L && e < lo ==> e in L' && L'[e] == L[e];
  }

  lemma AboveRegion(m: Mem, L: Layout, m': Mem, L': Layout, lo: int, hi: int, c: int)
    requires LayoutOK(m, L) && SameBeyond(L, L', lo, hi) && c in L && c >= hi && SameWords(m, m', L, c) && lo <= hi
    requires forall d :: d in L && lo <= d < hi ==> !L[d].kind.Free?
    ensures c in L' && At(m', L', c)
  {
    hide HeadOf, Sized;
    assert At(m, L, c);
    SizePositive(m, L, c);
    forall b | b in L' && b > c ensures c + Extent(L[c]) <= b { assert b in L; }
    if !L[c].pin { Previous(m, L, c); }
  }

  lemma Regional(m: Mem, L: Layout, m': Mem, L': Layout, lo: int, hi: int)
    requires LayoutOK(m, L) && lo < hi && SameBeyond(L, L', lo, hi)
    requires forall c :: c in L && (c < lo || c >= hi) ==> SameWords(m, m', L, c)
    requires forall c :: c in L && lo <= c < hi ==> !L[c].kind.Free?
    requires forall c :: c in L && c < lo ==> c + Extent(L[c]) <= lo
    requires lo in L ==> L[lo].pin && lo in L' && L'[lo].pin && L[lo].kind.Top?
    requires forall c :: c in L' && lo <= c < hi ==> At(m', L', c)
    ensures LayoutOK(m', L')
  {
    hide At, SameWords, Extent;
    forall c | c in L' ensures At(m', L', c) {
      if c < lo {
        BelowRegion(m, L, m', L', lo, hi, c);
      } else if c >= hi {
        AboveRegion(m, L, m', L', lo, hi, c);
      }
    }
  }

  // ---- where chunks are ----

  /** A chunk that starts above top lies in another segment, so beyond any room top may gain. */
  lemma AboveTop(s: Snap, out: set<int>, segs': seq<Seg>, c: int)
    requires Inv(s, out) && s.top != 0 && c in s.L && c > s.top
    requires s.segs != [] && |segs'| == |s.segs| && segs'[0].base == s.segs[0].base
      && (forall k :: 1 <= k < |s.segs| ==> segs'[k] == s.segs[k])
    requires Separate(segs')
    ensures c >= s.top + s.topsize + 80 && c >= segs'[0].base + segs'[0].size
  {
    hide *;
    InvParts(s, out);
    SegsOKIs(s);
    SegsUnfold(s.L, s.segs, s.top, s.topsize);
    TopIs(s.mem, s.L, s.top, s.topsize);
    ChunkFacts(s, out, c);
    ReachTop(s.L[c]);
    NotInFirst(s.segs, segs', c, c + Reach(s.L[c]), s.top);
  }

  lemma NotInFirst(segs: seq<Seg>, segs': seq<Seg>, c: int, e: int, top: int)
    requires Within(segs, c, e) && c < e && segs != [] && |segs'| == |segs| && segs'[0].base == segs[0].base
    requires forall k :: 1 <= k < |segs| ==> segs'[k] == segs[k]
    requires Separate(segs') && c >= segs[0].base + segs[0].size && segs[0].base <= top < c
    ensures c >= segs'[0].base + segs'[0].size
  {
    var k :| 0 <= k < |segs| && InSeg(segs[k], c, e);
    assert k != 0 && segs'[k] == segs[k];
  }

  // ---- top gains or loses room at its end ----

  lemma ResizeLayout(m: Mem, L: Layout, top: int, topsize: int, d: int, hi: int)
    requires LayoutOK(m, L) && top in L && L[top] == Chunk(Top, topsize, true) && topsize + d >= 8 && d % 8 == 0
    requires hi >= top + topsize + d + 80 && hi >= top + topsize + 80 && top + topsize + d + 80 <= ADDRESS_LIMIT
    requires forall c :: c in L && c > top ==> c >= hi
    requires forall c :: c in L && c != top ==> SameWords(m, m[top + 8 := topsize + d + 1][top + topsize + d + 8 := 80],
                                                          L, c)
    ensures LayoutOK(m[top + 8 := topsize + d + 1][top + topsize + d + 8 := 80],
                     L[top := Chunk(Top, topsize + d, true)])
  {
    hide *;
    var m' := m[top + 8 := topsize + d + 1][top + topsize + d + 8 := 80];
    var L' := L[top := Chunk(Top, topsize + d, true)];
    forall c | c in L && c < top ensures c + Extent(L[c]) <= top { ClearOf(m, L, c, top); }
    TagFacts(m, L, top);
    SumOfMultiples(topsize, d, 8);
    HeadOfIs(Chunk(Top, topsize, true));
    FloorIs();
    TwoWrites(m, top + 8, topsize + d + 1, top + topsize + d + 8, 80);
    TopHere(m', L', top, topsize + d);
    SameBeyondTop(L, L', top, hi);
    Regional(m, L, m', L', top, hi);
  }

  lemma SameBeyondTop(L: Layout, L': Layout, top: int, hi: int)
    requires top in L && top < hi && top in L' && L' == L[top := L'[top]]
    ensures SameBeyond(L, L', top, hi)
  {
  }

  lemma TopHere(m: Mem, L: Layout, top: int, topsize: int)
    requires top in L && L[top] == Chunk(Top, topsize, true) && top % 16 == 0 && top >= HEAP_FLOOR
    requires topsize >= 8 && topsize % 8 == 0 && top + topsize + 80 <= ADDRESS_LIMIT
    requires Rd(m, top + 8) == topsize + 1 && Rd(m, top + topsize + 8) == 80
    requires forall c :: c in L && c > top ==> c >= top + topsize + 80
    ensures At(m, L, top)
  {
  }

  /** Nothing is in the room that top may gain. */
  lemma TopRegion(s: Snap, segs': seq<Seg>, d: int, hi: int, out: set<int>)
    requires Inv(s, out) && s.top != 0 && s.segs != [] && hi == s.top + s.topsize + 80 + if d > 0 then d else 0
    requires segs' == s.segs[0 := s.segs[0].(size := s.segs[0].size + d)] && Separate(segs')
    ensures s.top in s.L && s.L[s.top] == Chunk(Top, s.topsize, true) && s.topsize >= 8 && s.topsize % 8 == 0
    ensures s.top % 16 == 0 && s.top >= 0x2000 && s.top + s.topsize + 80 == s.segs[0].base + s.segs[0].size
    ensures forall c :: c in s.L && c > s.top ==> c >= hi
  {
    hide *;
    InvParts(s, out);
    TopIs(s.mem, s.L, s.top, s.topsize);
    ChunkFacts(s, out, s.top);
    SegsOKIs(s);
    SegsUnfold(s.L, s.segs, s.top, s.topsize);
    forall c | c in s.L && c > s.top ensures c >= hi { AboveTop(s, out, segs', c); }
  }

  lemma TopRegionWrites(s: Snap, m': Mem, d: int, hi: int, out: set<int>)
    requires Inv(s, out) && s.top in s.L && s.L[s.top].kind.Top? && s.top >= 0x2000 && s.topsize >= 8
    requires s.topsize + d >= 8 && hi >= s.top + s.topsize + 80 && hi >= s.top + s.topsize + d + 80
    requires m' == s.mem[s.top + 8 := s.topsize + d + 1][s.top + s.topsize + d + 8 := 80]
    requires forall c :: c in s.L && c > s.top ==> c >= hi
    ensures AwayFromBins(s.mem, m', s.D)
    ensures forall c, w :: c in s.L && c != s.top && c + 8 <= w < c + s.L[c].size + 8 ==> Rd(m', w) == Rd(s.mem, w)
    ensures forall c :: c in s.L && c != s.top ==> SameWords(s.mem, m', s.L, c)
  {
    hide *;
    InvParts(s, out);
    ClearBelow(s.mem, s.L, s.top, hi);
    LocalIs(s.mem, m', s.top + 8, hi);
    TwoWrites(s.mem, s.top + 8, s.topsize + d + 1, s.top + s.topsize + d + 8, 80);
    FiledIs(s.L, s.D, out);
    FloorIs();
    FarWrites(s.mem, m', s.L, s.D, s.top, s.top + 8, hi);
  }

  lemma ResizeTop(s: Snap, s': Snap, d: int, out: set<int>)
    requires Inv(s, out) && s.top != 0 && s.topsize + d >= 8 && d % 8 == 0 && s.segs != []
    requires s' == s.(mem := s.mem[s.top + 8 := s.topsize + d + 1][s.top + s.topsize + d + 8 := 80],
                      L := s.L[s.top := Chunk(Top, s.topsize + d, true)], topsize := s.topsize + d,
                      segs := s.segs[0 := s.segs[0].(size := s.segs[0].size + d)], segSize := s.segSize + d)
    requires Separate(s'.segs) && s.segs[0].base + s.segs[0].size + d <= 0x8000_0000_0000
    ensures Inv(s', out) && Blocks(s'.L) == Blocks(s.L) && PayloadKept(s.mem, s'.mem, Blocks(s.L))
    ensures forall v, vs :: DvOK(s.L, v, vs) ==> DvOK(s'.L, v, vs)
  {
    hide *;
    var hi := s.top + s.topsize + 80 + if d > 0 then d else 0;
    InvParts(s, out);
    TopRegion(s, s'.segs, d, hi, out);
    TopRegionWrites(s, s'.mem, d, hi, out);
    FiledIs(s.L, s.D, out);
    FloorIs();
    ResizeLayout(s.mem, s.L, s.top, s.topsize, d, hi);
    SegsOKIs(s);
    BinsFrame(s.mem, s'.mem, s.smallmap, s.treemap, s.D, s.rings, s.trees);
    RecordsResized(s.mem, s'.mem, s.L, s'.L, s.segs, s'.segs, s.top);
    FiledIs(s'.L, s.D, out);
    TopOKIs(s.L, s.top, s.topsize);
    TopOKIs(s'.L, s'.top, s'.topsize);
    HeadSegIs(s.segs, s.segBase, s.segSize, s.segNext);
    HeadSegIs(s'.segs, s'.segBase, s'.segSize, s'.segNext);
    BelowTop(s, out);
    ResizeSegs(s.L, s.segs, s.top, s.topsize, d);
    SegsOKIs(s');
    SameLive(s.L, s'.L, s.top);
    BlocksIs(s.L);
    PayloadIs(s.mem, s'.mem, Blocks(s.L));
    InvParts(s', out);
  }

  lemma BelowTop(s: Snap, out: set<int>)
    requires Inv(s, out) && s.top in s.L
    ensures forall c :: c in s.L && c < s.top ==> c + s.L[c].size <= s.top && !s.L[c].kind.Top?
    ensures forall c :: c in s.L ==> s.L[c].size >= 0
  {
    hide *;
    forall c | c in s.L ensures s.L[c].size >= 0 && (c < s.top ==> c + s.L[c].size <= s.top && !s.L[c].kind.Top?) {
      ChunkFacts(s, out, c);
      if c < s.top { NotBetween(s, out, c, s.top); }
    }
  }

  lemma FloorIs()
    ensures HEAP_FLOOR == 0x2000 && ADDRESS_LIMIT == 0x8000_0000_0000
  {
  }

  lemma TwoWrites(m: Mem, a: int, v: int, b: int, u: int)
    ensures forall w :: w != a && w != b ==> Rd(m[a := v][b := u], w) == Rd(m, w)
    ensures Rd(m[a := v][b := u], b) == u && (a != b ==> Rd(m[a := v][b := u], a) == v)
  {
  }

  lemma ClearBelow(m: Mem, L: Layout, top: int, hi: int)
    requires LayoutOK(m, L) && top in L && forall c :: c in L && c > top ==> c >= hi
    ensures ClearOfRegion(L, top, top + 8, hi)
  {
    forall c | c in L && c != top ensures c >= hi || c + Needs(L[c]) <= top + 8 {
      if c < top { NeedsBelow(m, L, c, top); }
    }
  }

  lemma NeedsBelow(m: Mem, L: Layout, c: int, top: int)
    requires LayoutOK(m, L) && top in L && c in L && c < top
    ensures c + Needs(L[c]) <= top + 8
  {
    assert At(m, L, c);
  }

  lemma PayloadIs(m: Mem, m': Mem, B: map<int, int>)
    ensures PayloadKept(m, m', B) <==> forall c, w :: c in B && c + 16 <= w < c + B[c] + 8 ==> Rd(m', w) == Rd(m, w)
  {
  }

  lemma HeadSegIs(segs: seq<Seg>, segBase: int, segSize: int, segNext: int)
    ensures HeadSeg(segs, segBase, segSize, segNext) <==>
      (segs != [] ==> segBase == segs[0].base && segSize == segs[0].size)
          && segNext == (if |segs| > 1 then segs[1].rec else 0)
  {
  }

  lemma SameLive(L: Layout, L': Layout, top: int)
    requires top in L && !L[top].kind.Live? && top in L' && !L'[top].kind.Live? && !L[top].kind.Free?
      && !L'[top].kind.Free?
    requires forall c :: c != top ==> (c in L <==> c in L') && (c in L ==> L'[c] == L[c])
    ensures Blocks(L') == Blocks(L)
    ensures forall v, vs :: DvOK(L, v, vs) ==> DvOK(L', v, vs)
  {
    forall c ensures c in Blocks(L') <==> c in Blocks(L) { }
  }

  /** The records stay when only top and the first segment, which has no record, get another size. */
  lemma RecordsResized(m: Mem, m': Mem, L: Layout, L': Layout, segs: seq<Seg>, segs': seq<Seg>, top: int)
    requires RecordsOK(m, L, segs) && |segs'| == |segs| && forall k :: 1 <= k < |segs| ==> segs'[k] == segs[k]
    requires top in L && L[top].kind.Top? && top in L' && L' == L[top := L'[top]]
    requires forall c, w :: c in L && c != top && c + 8 <= w < c + L[c].size + 8 ==> Rd(m', w) == Rd(m, w)
    ensures RecordsOK(m', L', segs')
  {
    hide *;
    forall c ensures PostAfter(L, c) ==> c in L && c in L' && L'[c] == L[c] { PostAfterIs(L, c); }
    RecordsKept(m, m', L, L', segs);
    RecordsSame(m', L', segs, segs');
  }

  lemma RecordsSame(m: Mem, L: Layout, segs: seq<Seg>, segs': seq<Seg>)
    requires RecordsOK(m, L, segs) && |segs'| == |segs| && forall k :: 1 <= k < |segs| ==> segs'[k] == segs[k]
    ensures RecordsOK(m, L, segs')
  {
    forall k | 1 <= k < |segs'| ensures RecordOK(m, L, segs', k) {
      assert RecordOK(m, L, segs, k);
    }
  }

  lemma FirstShape(g: Seg, g': Seg, d: int)
    requires SegShape(g) && d % 8 == 0 && g' == g.(size := g.size + d) && g'.size > 80
      && g'.base + g'.size <= ADDRESS_LIMIT
    ensures SegShape(g')
  {
    hide *;
    FloorIs();
    SegShapeIs(g);
    SegShapeIs(g');
    SumOfMultiples(g.size, d, 8);
  }

  lemma ResizeSegs(L: Layout, segs: seq<Seg>, top: int, topsize: int, d: int)
    requires SegsTiled(L, segs, top, topsize) && top in L && L[top] == Chunk(Top, topsize, true) && segs != []
      && top % 16 == 0
    requires topsize + d >= 8 && d % 8 == 0 && topsize >= 8
    requires var segs' := segs[0 := segs[0].(size := segs[0].size + d)];
      Separate(segs') && segs'[0].base + segs'[0].size <= ADDRESS_LIMIT
    requires forall c :: c in L && c > top ==> c >= top + topsize + 80 && c >= top + topsize + d + 80
    requires forall c :: c in L && c < top ==> c + L[c].size <= top && !L[c].kind.Top? && L[c].size >= 0
    requires forall c :: c in L && c >= top ==> L[c].size >= 0
    ensures SegsTiled(L[top := Chunk(Top, topsize + d, true)], segs[0 := segs[0].(size := segs[0].size + d)], top,
                      topsize + d)
  {
    hide *;
    var segs' := segs[0 := segs[0].(size := segs[0].size + d)];
    var L' := L[top := Chunk(Top, topsize + d, true)];
    SegsUnfold(L, segs, top, topsize);
    SegsUnfold(L', segs', top, topsize + d);
    FirstShape(segs[0], segs'[0], d);
    TopKinds(L, top, topsize, d);
    ResizedNoRecord(L, L', segs[0], segs'[0], top);
    forall k | 0 <= k < |segs'| ensures SegShape(segs'[k]) && FirstOK(L', segs'[k]) && FenceEnds(L', segs'[k]) {
      ResizedFirst(L, L', segs[k], segs'[k]);
      if k == 0 { NoFence(L', segs'[0]); } else { ResizedFence(L, L', segs[k]); }
    }
    forall c | c in L' ensures Within(segs', c, c + Reach(L'[c])) {
      StillWithin(L, segs, top, topsize, d, c);
    }
    NamedStill(L, L', segs, segs');
  }

  lemma TopKinds(L: Layout, top: int, topsize: int, d: int)
    requires top in L && L[top] == Chunk(Top, topsize, true)
    ensures var L' := L[top := Chunk(Top, topsize + d, true)];
            (forall c :: c in L' <==> c in L) && forall c :: c in L ==> L'[c].kind == L[c].kind && L'[c].pin == L[c].pin
  {
  }

  lemma ResizedNoRecord(L: Layout, L': Layout, g: Seg, g': Seg, top: int)
    requires NoRecordIn(L, g) && g'.base == g.base && (forall c :: c in L' <==> c in L)
      && (forall c :: c in L ==> L'[c].kind == L[c].kind)
    requires forall c :: c in L && c > top ==> c >= g.base + g.size && c >= g'.base + g'.size
    requires g.base <= top && top < g.base + g.size && top in L && L[top].kind.Top?
    ensures NoRecordIn(L', g')
  {
    hide *;
    NoRecordInIs(L, g);
    NoRecordInIs(L', g');
  }

  lemma ResizedFirst(L: Layout, L': Layout, g: Seg, g': Seg)
    requires FirstOK(L, g) && g'.base == g.base && (forall c :: c in L' <==> c in L)
      && (forall c :: c in L ==> L'[c].pin == L[c].pin)
    ensures FirstOK(L', g')
  {
    hide *;
    FirstOKIs(L, g);
    FirstOKIs(L', g');
  }

  lemma ResizedFence(L: Layout, L': Layout, g: Seg)
    requires FenceEnds(L, g) && (forall c :: c in L' <==> c in L) && (forall c :: c in L ==> L'[c].kind == L[c].kind)
    ensures FenceEnds(L', g)
  {
    hide *;
    FenceEndsIs(L, g);
    FenceEndsIs(L', g);
  }

  /** A segment without fenceposts has nothing behind one. */
  lemma NoFence(L: Layout, g: Seg)
    requires NoRecordIn(L, g)
    ensures FenceEnds(L, g)
  {
    hide *;
    NoRecordInIs(L, g);
    FenceEndsIs(L, g);
  }

  /** The same records, named by the same segments. */
  lemma NamedStill(L: Layout, L': Layout, segs: seq<Seg>, segs': seq<Seg>)
    requires RecordsNamed(L, segs) && |segs'| == |segs| && forall k :: 1 <= k < |segs| ==> segs'[k].rec == segs[k].rec
    requires forall c :: c in L' && L'[c].kind.Record? ==> c in L && L[c].kind.Record?
    ensures RecordsNamed(L', segs')
  {
    forall c | c in L' && L'[c].kind.Record? ensures Named(segs', c) {
      assert Named(segs, c);
      var k :| 1 <= k < |segs| && segs[k].rec - 16 == c;
      assert segs'[k].rec - 16 == c;
    }
  }

  lemma FenceEndsIs(L: Layout, g: Seg)
    ensures FenceEnds(L, g) <==>
      forall f, c :: f in L && L[f].kind.Fence? && c in L && g.base <= f < c ==> c >= g.base + g.size
  {
  }

  lemma SegShapeIs(g: Seg)
    ensures SegShape(g) <==> g.base % 8 == 0 && g.size % 8 == 0 && g.size > 80 && 0x2000 <= g.base
                             && g.base + g.size <= 0x8000_0000_0000
  {
  }

  lemma FirstOKIs(L: Layout, g: Seg)
    ensures FirstOK(L, g) <==> AlignUp(g.base) in L && L[AlignUp(g.base)].pin
  {
  }

  lemma NoRecordInIs(L: Layout, g: Seg)
    ensures NoRecordIn(L, g) <==> forall c :: c in L && (L[c].kind.Record? || L[c].kind.Fence?) ==>
                                              c < g.base || c >= g.base + g.size
  {
  }

  lemma StillWithin(L: Layout, segs: seq<Seg>, top: int, topsize: int, d: int, c: int)
    requires segs != [] && segs[0].base <= top && top + topsize + 80 == segs[0].base + segs[0].size && topsize >= 8
      && topsize + d >= 8
    requires c in L && top in L && L[top] == Chunk(Top, topsize, true) && Within(segs, c, c + Reach(L[c]))
      && L[c].size >= 0
    requires c > top ==> c >= top + topsize + 80
    requires c < top ==> c + L[c].size <= top && !L[c].kind.Top?
    ensures Within(segs[0 := segs[0].(size := segs[0].size + d)], c,
                   c + Reach(L[top := Chunk(Top, topsize + d, true)][c]))
  {
    var segs' := segs[0 := segs[0].(size := segs[0].size + d)];
    var r := Reach(L[top := Chunk(Top, topsize + d, true)][c]);
    var k :| 0 <= k < |segs| && InSeg(segs[k], c, c + Reach(L[c]));
    if k == 0 || c == top { assert InSeg(segs'[0], c, c + r); } else { assert InSeg(segs'[k], c, c + r); }
  }

  // ---- regions granted by the system ----

  /** A word-aligned region of user memory that touches no segment. */
  predicate Granted(segs: seq<Seg>, b: int, n: int) {
    && b % 8 == 0 && n % 8 == 0 && 0x2000 <= b && b + n <= 0x8000_0000_0000
    && (forall k :: 0 <= k < |segs| ==> b + n <= segs[k].base || segs[k].base + segs[k].size <= b)
  }

  lemma GrantedIs(segs: seq<Seg>, b: int, n: int)
    ensures Granted(segs, b, n) <==>
      b % 8 == 0 && n % 8 == 0 && 0x2000 <= b && b + n <= 0x8000_0000_0000
      && forall k :: 0 <= k < |segs| ==> b + n <= segs[k].base || segs[k].base + segs[k].size <= b
  {
  }

  lemma OutsideOfGrant(segs: seq<Seg>, b: int, n: int, a: int, e: int)
    requires Granted(segs, b, n) && Within(segs, a, e) && n > 0
    ensures e <= b || a >= b + n
  {
    var k :| 0 <= k < |segs| && InSeg(segs[k], a, e);
  }

  lemma ChunksOutsideGrant(s: Snap, out: set<int>, b: int, n: int)
    requires Inv(s, out) && Granted(s.segs, b, n) && n > 0
    ensures forall c :: c in s.L ==> c + Reach(s.L[c]) <= b || c >= b + n
  {
    hide *;
    forall c | c in s.L ensures c + Reach(s.L[c]) <= b || c >= b + n {
      ChunkFacts(s, out, c);
      OutsideOfGrant(s.segs, b, n, c, c + Reach(s.L[c]));
    }
  }

  lemma ReachNeeds(c: Chunk)
    requires c.size >= 0 && (c.kind.Fence? ==> c.size == 8)
    ensures Needs(c) <= Reach(c) && Extent(c) <= Reach(c) && c.size <= Reach(c)
  {
  }

  // ---- the first segment ----

  lemma EmptyBins(m: Mem, m': Mem, smallmap: U32, treemap: U32, D: map<int, int>, rings: seq<seq<int>>,
                  trees: seq<Tries.Tree>)
    requires BinsOK(m, smallmap, treemap, D, rings, trees) && D == map[]
    requires forall w :: 0x1800 <= w < 0x2000 ==> Rd(m', w) == Rd(m, w)
    ensures BinsOK(m', smallmap, treemap, D, rings, trees)
  {
    hide *;
    BinsParts(m, smallmap, treemap, D, rings, trees);
    forall i | 0 <= i < 32 ensures SmallBinOK(m', smallmap, i, rings[i], D) {
      EmptySmallBin(m, m', smallmap, i, rings[i], D);
    }
    forall i | 0 <= i < 32 ensures TreeBinOK(m', treemap, i, trees[i], D) {
      TreeBinAtIs(i);
      EmptyTreeBin(m, m', treemap, i, trees[i], D);
    }
    NoChunksOK(m', D);
    BinsParts(m', smallmap, treemap, D, rings, trees);
  }

  lemma TreeBinAtIs(i: int)
    ensures TreeBinAt(i) == 0x1800 + 8 * i
  {
  }

  lemma NoChunksOK(m: Mem, D: map<int, int>)
    requires D == map[]
    ensures ChunksOK(m, D)
  {
  }

  lemma BinsParts(m: Mem, smallmap: U32, treemap: U32, D: map<int, int>, rings: seq<seq<int>>, trees: seq<Tries.Tree>)
    ensures BinsOK(m, smallmap, treemap, D, rings, trees) <==>
      && ChunksOK(m, D) && Complete(rings, trees, D) && |rings| == 32 && |trees| == 32
      && (forall i :: 0 <= i < 32 ==> SmallBinOK(m, smallmap, i, rings[i], D))
      && (forall i :: 0 <= i < 32 ==> TreeBinOK(m, treemap, i, trees[i], D))
  {
    hide ChunksOK, Complete, SmallBinOK, TreeBinOK;
    if BinsOK(m, smallmap, treemap, D, rings, trees) { Lengths32(rings, trees, D); }
  }

  lemma Lengths32(rings: seq<seq<int>>, trees: seq<Tries.Tree>, D: map<int, int>)
    requires Complete(rings, trees, D)
    ensures |rings| == 32 && |trees| == 32
  {
  }

  lemma EmptySmallBin(m: Mem, m': Mem, map0: U32, i: int, r: seq<int>, D: map<int, int>)
    requires 0 <= i < 32 && D == map[] && SmallBinOK(m, map0, i, r, D)
    ensures SmallBinOK(m', map0, i, r, D) && r == []
  {
    if r != [] {
      SmallBinHas(m, map0, i, r, D);
    }
  }

  lemma SmallBinHas(m: Mem, map0: U32, i: int, r: seq<int>, D: map<int, int>)
    requires 0 <= i < 32 && SmallBinOK(m, map0, i, r, D) && r != []
    ensures r[0] in D
  {
    var x := r[0];
    assert x in r;
  }

  lemma EmptyTreeBin(m: Mem, m': Mem, map0: U32, i: int, t: Tries.Tree, D: map<int, int>)
    requires 0 <= i < 32 && D == map[] && TreeBinOK(m, map0, i, t, D) && Rd(m', TreeBinAt(i)) == Rd(m, TreeBinAt(i))
    ensures TreeBinOK(m', map0, i, t, D) && t.Leaf?
  {
    if t.Node? {
      RootIsMember(t);
    }
    LeafRep(m', TreeBinAt(i), i);
  }

  lemma RootIsMember(t: Tries.Tree)
    requires t.Node?
    ensures t.a in Tries.Members(t)
  {
  }

  lemma LeafRep(m: Mem, par: int, i: int)
    ensures TrieLinks.Rep(m, Tries.Leaf, par, i)
  {
  }

  lemma FirstSegment(s: Snap, s': Snap, tbase: int, tsize: int, out: set<int>)
    requires Inv(s, out) && s.top == 0 && Granted(s.segs, tbase, tsize) && tsize >= 104
    requires s' == s.(mem := s'.mem, L := map[AlignUp(tbase) := Chunk(Top, tbase + tsize - 80 - AlignUp(tbase), true)],
                      top := AlignUp(tbase), topsize := tbase + tsize - 80 - AlignUp(tbase),
                      segs := [Seg(tbase, tsize, 0)], segBase := tbase, segSize := tsize, least := s'.least)
    requires s'.least <= tbase
    requires forall w :: 0x1800 <= w < 0x2000 ==> Rd(s'.mem, w) == Rd(s.mem, w)
    requires Rd(s'.mem, s'.top + 8) == s'.topsize + 1 && Rd(s'.mem, s'.top + s'.topsize + 8) == 80
    ensures Inv(s', out) && s.L == map[] && s.segs == [] && Blocks(s.L) == map[] && Blocks(s'.L) == map[]
    ensures s'.topsize >= tsize - 88
  {
    hide *;
    InvParts(s, out);
    SegsOKIs(s);
    SegsUnfold(s.L, s.segs, s.top, s.topsize);
    TopOKIs(s.L, s.top, s.topsize);
    TopOKIs(s'.L, s'.top, s'.topsize);
    FiledIs(s.L, s.D, out);
    FiledIs(s'.L, s.D, out);
    NoKeys(s.D);
    EmptyBins(s.mem, s'.mem, s.smallmap, s.treemap, s.D, s.rings, s.trees);
    GrantedIs(s.segs, tbase, tsize);
    AlignUpBounds(tbase);
    FirstAligned(tbase);
    FloorIs();
    TopHere(s'.mem, s'.L, s'.top, s'.topsize);
    OneAt(s'.mem, s'.L, s'.top);
    HeadSegIs(s.segs, s.segBase, s.segSize, s.segNext);
    HeadSegIs(s'.segs, s'.segBase, s'.segSize, s'.segNext);
    OneSegment(s'.L, tbase, tsize, s'.top, s'.topsize);
    NoRecords(s'.mem, s'.L, s'.segs);
    SegsOKIs(s');
    BlocksIs(s.L);
    BlocksIs(s'.L);
    NoKeys(Blocks(s.L));
    NoKeys(Blocks(s'.L));
    InvParts(s', out);
  }

  lemma FirstAligned(b: int)
    requires b % 8 == 0
    ensures AlignUp(b) == b || AlignUp(b) == b + 8
    ensures (b - AlignUp(b)) % 8 == 0
  {
    var q, r := b / 16, b % 16;
    assert b == 16 * q + r;
    DivUnique(b, 8, 2 * q + r / 8, r % 8);
    if r == 0 { DivUnique(b + 15, 16, q, 15); } else { DivUnique(b + 15, 16, q + 1, r - 1); }
  }

  lemma OneAt(m: Mem, L: Layout, top: int)
    requires top in L && At(m, L, top) && forall c :: c in L ==> c == top
    ensures LayoutOK(m, L)
  {
  }

  lemma NoRecords(m: Mem, L: Layout, segs: seq<Seg>)
    requires |segs| <= 1
    ensures RecordsOK(m, L, segs)
  {
  }

  lemma OneSegment(L: Layout, tbase: int, tsize: int, top: int, topsize: int)
    requires tbase % 8 == 0 && tsize % 8 == 0 && tsize >= 104 && 0x2000 <= tbase && tbase + tsize <= 0x8000_0000_0000
    requires top == AlignUp(tbase) && topsize == tbase + tsize - 80 - top && L == map[top := Chunk(Top, topsize, true)]
    ensures SegsTiled(L, [Seg(tbase, tsize, 0)], top, topsize)
  {
    hide SegsTiled;
    SegsUnfold(L, [Seg(tbase, tsize, 0)], top, topsize);
    assert InSeg([Seg(tbase, tsize, 0)][0], top, top + Reach(L[top]));
  }
}
