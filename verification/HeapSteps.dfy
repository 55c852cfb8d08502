/** How the invariant survives each kind of step: bin operations, retilings, and retilings that move top. */
module HeapSteps {
  import opened Memory
  import opened Sizes
  import opened Layouts
  import opened Retile
  import opened Bins
  import opened State

  lemma InvParts(s: Snap, out: set<int>)
    ensures Inv(s, out) <==>
      && BinsOK(s.mem, s.smallmap, s.treemap, s.D, s.rings, s.trees) && LayoutOK(s.mem, s.L) && Filed(s.L, s.D, out)
      && (forall c :: c in s.L ==> c >= s.least) && TopOK(s.L, s.top, s.topsize) && SegsOK(s)
  {
  }

  /** Where a word inside a free chunk is not: no head, no foot, no record. */
  lemma InsideFree(m: Mem, L: Layout, D: map<int, int>, w: int, a: int)
    requires LayoutOK(m, L) && a in L
    requires forall p :: p in D ==> p in L && L[p].kind.Free? && L[p].size == D[p]
    ensures !InBinned(D, a + 8) && !InBinned(D, a)
    ensures L[a].kind.Free? ==> !InBinned(D, a + L[a].size)
    ensures L[a].kind.Top? ==> !InBinned(D, a + L[a].size + 8)
    ensures !L[a].kind.Free? && a + 16 <= w < a + L[a].size + 8 ==> !InBinned(D, w)
  {
    hide HeadOf, Follows, Leads;
    assert At(m, L, a);
    forall y | y in D
      ensures !(y + 16 <= a + 8 < y + D[y]) && !(y + 16 <= a < y + D[y])
      ensures L[a].kind.Free? ==> !(y + 16 <= a + L[a].size < y + D[y])
      ensures L[a].kind.Top? ==> !(y + 16 <= a + L[a].size + 8 < y + D[y])
      ensures !L[a].kind.Free? && a + 16 <= w < a + L[a].size + 8 ==> !(y + 16 <= w < y + D[y])
    {
      assert At(m, L, y);
      if y < a { Before(m, L, y, a); }
      if a < y { Before(m, L, a, y); }
    }
  }

  /** Bin operations leave the boundary tags alone. */
  lemma BinStepLayout(m: Mem, m': Mem, L: Layout, D: map<int, int>)
    requires LayoutOK(m, L) && BinWrites(m, m', D)
    requires forall p :: p in D ==> p in L && L[p].kind.Free? && L[p].size == D[p]
    ensures LayoutOK(m', L)
  {
    forall a | a in L ensures At(m', L, a) {
      assert At(m, L, a);
      InsideFree(m, L, D, 0, a);
      TagsAbove(m, L, a);
      SameTags(m, m', L, a);
    }
  }

  lemma TagsAbove(m: Mem, L: Layout, a: int)
    requires a in L && At(m, L, a)
    ensures a >= HEAP_FLOOR && a + L[a].size >= HEAP_FLOOR
  {
  }

  lemma SameTags(m: Mem, m': Mem, L: Layout, a: int)
    requires a in L && At(m, L, a) && SameWords(m, m', L, a)
    ensures At(m', L, a)
  {
    hide HeadOf;
  }

  /** The first fencepost, right after a segment record. */
  predicate PostAfter(L: Layout, c: int) {
    c in L && L[c].kind.Fence? && c - 48 in L && L[c - 48].kind.Record? && L[c - 48].size == 48
  }

  lemma PostAfterIs(L: Layout, c: int)
    ensures PostAfter(L, c) <==> c in L && L[c].kind.Fence? && c - 48 in L && L[c - 48].kind.Record?
                                 && L[c - 48].size == 48
  {
  }

  /** Retilings stay away from records and their fenceposts. */
  lemma PostsStay(m: Mem, L: Layout, L': Layout, q: int, n: int)
    requires LayoutOK(m, L) && SameOutside(L, L', q, n) && q in L && q < n
    requires forall c :: c in L && q <= c < n ==> !L[c].kind.Record? && !L[c].kind.Fence?
    ensures forall c :: PostAfter(L, c) ==> c in L' && L'[c] == L[c]
  {
    forall c | PostAfter(L, c) ensures c in L' && L'[c] == L[c] {
      if c == n && c - 48 < q { ClearOf(m, L, c - 48, q); }
    }
  }

  /** Record words survive whatever leaves the inside of records alone. */
  lemma RecordsKept(m: Mem, m': Mem, L: Layout, L': Layout, segs: seq<Seg>)
    requires RecordsOK(m, L, segs)
    requires forall c :: c in L && L[c].kind.Record? ==> c in L' && L'[c].kind.Record? && L'[c].size == L[c].size
    requires forall c, w :: c in L && L[c].kind.Record? && c + 16 <= w < c + L[c].size + 8 ==> Rd(m', w) == Rd(m, w)
    requires forall c :: PostAfter(L, c) ==> c in L' && L'[c] == L[c]
    ensures RecordsOK(m', L', segs)
  {
    forall k | 1 <= k < |segs| ensures RecordOK(m', L', segs, k) {
      assert RecordOK(m, L, segs, k);
      var r := segs[k].rec - 16;
      assert r in L && L[r].kind.Record? && L[r].size == 48;
      assert PostAfter(L, r + 48);
    }
  }

  /** A bin operation keeps the layout and the payloads; only which free chunks are out of the bins changes. */
  lemma BinStep(s: Snap, s': Snap, U: map<int, int>, out: set<int>, out': set<int>)
    requires Inv(s, out) && s' == s.(mem := s'.mem, smallmap := s'.smallmap, treemap := s'.treemap, D := s'.D,
                                     rings := s'.rings, trees := s'.trees)
    requires BinsOK(s'.mem, s'.smallmap, s'.treemap, s'.D, s'.rings, s'.trees)
    requires BinWrites(s.mem, s'.mem, U) && Filed(s.L, s'.D, out')
    requires forall p :: p in U ==> p in s.L && s.L[p].kind.Free? && s.L[p].size == U[p]
    ensures Inv(s', out') && PayloadKept(s.mem, s'.mem, Blocks(s.L))
  {
    hide *;
    InvParts(s, out);
    InvParts(s', out');
    SegsOKParts(s);
    SegsOKParts(s');
    FiledIs(s.L, s'.D, out');
    BinStepLayout(s.mem, s'.mem, s.L, U);
    BinWritesIs(s.mem, s'.mem, U);
    forall c, w | c in s.L && !s.L[c].kind.Free? && c + 16 <= w < c + s.L[c].size + 8
      ensures Rd(s'.mem, w) == Rd(s.mem, w)
    {
      InsideFree(s.mem, s.L, U, w, c);
      AboveFloor(s.mem, s.L, c);
    }
    forall d | PostAfter(s.L, d) ensures d in s.L { PostAfterIs(s.L, d); }
    RecordsKept(s.mem, s'.mem, s.L, s.L, s.segs);
    BlocksAre(s.L);
    PayloadOfBlocks(s.mem, s'.mem, Blocks(s.L));
  }

  lemma BlocksAre(L: Layout)
    ensures forall c :: c in Blocks(L) ==> c in L && L[c].kind.Live? && Blocks(L)[c] == L[c].size
  {
  }

  lemma PayloadOfBlocks(m: Mem, m': Mem, B: map<int, int>)
    ensures PayloadKept(m, m', B) <==> forall c, w :: c in B && c + 16 <= w < c + B[c] + 8 ==> Rd(m', w) == Rd(m, w)
  {
  }

  lemma BinWritesIs(m: Mem, m': Mem, D: map<int, int>)
    ensures BinWrites(m, m', D) <==> forall w :: w >= HEAP_FLOOR && !InBinned(D, w) ==> Rd(m', w) == Rd(m, w)
  {
  }

  lemma SegsOKParts(s: Snap)
    ensures SegsOK(s) <==> SegsTiled(s.L, s.segs, s.top, s.topsize) && HeadSeg(s.segs, s.segBase, s.segSize, s.segNext)
                           && RecordsOK(s.mem, s.L, s.segs)
  {
  }

  lemma AboveFloor(m: Mem, L: Layout, c: int)
    requires LayoutOK(m, L) && c in L
    ensures c >= HEAP_FLOOR
  {
    assert At(m, L, c);
  }

  // ---- retilings and segments ----

  lemma SegsUnfold(L: Layout, segs: seq<Seg>, top: int, topsize: int)
    ensures SegsTiled(L, segs, top, topsize) <==>
      && (top == 0 <==> segs == [])
      && (forall k :: 0 <= k < |segs| ==> SegShape(segs[k]) && FirstOK(L, segs[k]) && FenceEnds(L, segs[k]))
      && Separate(segs) && RecordsNamed(L, segs)
      && (forall c :: c in L ==> Within(segs, c, c + Reach(L[c])))
      && (segs != [] ==> segs[0].base <= top && top + topsize + 80 == segs[0].base + segs[0].size)
      && (segs != [] ==> NoRecordIn(L, segs[0]))
  {
  }

  /** Two segments that share an address are one. */
  lemma SameSeg(segs: seq<Seg>, j: int, k: int, a: int)
    requires Separate(segs) && 0 <= j < |segs| && 0 <= k < |segs|
    requires InSeg(segs[j], a, a + 1) && InSeg(segs[k], a, a + 1)
    ensures j == k
  {
  }

  lemma Together(segs: seq<Seg>, q: int, p: int, e: int)
    requires Separate(segs) && Within(segs, q, p + 16) && Within(segs, p, e) && q < p && e > p
    ensures Within(segs, q, e)
  {
    var j :| 0 <= j < |segs| && InSeg(segs[j], q, p + 16);
    var k :| 0 <= k < |segs| && InSeg(segs[k], p, e);
    SameSeg(segs, j, k, p);
  }

  lemma FirstStays(L: Layout, L': Layout, segs: seq<Seg>, q: int, n: int, e: int, j: int)
    requires Separate(segs) && 0 <= j < |segs| && SegShape(segs[j]) && FirstOK(L, segs[j])
    requires Within(segs, q, e) && q % 16 == 0 && q < n < e && SameOutside(L, L', q, n)
    requires q in L && q in L' && L'[q].pin == L[q].pin
    ensures FirstOK(L', segs[j])
  {
    var f := AlignUp(segs[j].base);
    AlignUpBounds(segs[j].base);
    if q < f <= n {
      var k :| 0 <= k < |segs| && InSeg(segs[k], q, e);
      SameSeg(segs, j, k, f);
      LeastAligned(segs[j].base, q);
    }
  }

  lemma FenceStays(L: Layout, L': Layout, g: Seg, q: int, n: int)
    requires FenceEnds(L, g) && SameOutside(L, L', q, n) && q in L
    requires forall c :: c in L' && q <= c < n ==> !L'[c].kind.Fence?
    requires n in L' ==> n in L && L'[n].kind == L[n].kind
    ensures FenceEnds(L', g)
  {
  }

  lemma AlignUpBounds(a: int)
    ensures a <= AlignUp(a) < a + 16 && AlignUp(a) % 16 == 0
  {
  }

  lemma LeastAligned(a: int, q: int)
    requires q >= a && q % 16 == 0
    ensures q >= AlignUp(a)
  {
  }

  /** Retiling inside one segment keeps the segments tiled. */
  lemma SegsRetile(segs: seq<Seg>, L: Layout, L': Layout, top: int, topsize: int, top': int, topsize': int, q: int,
                   n: int, e: int)
    requires SegsTiled(L, segs, top, topsize) && SameOutside(L, L', q, n) && q < n < e && Within(segs, q, e)
    requires q in L && q in L' && L'[q].pin == L[q].pin && q % 16 == 0
    requires forall c :: c in L' && q <= c < n ==> c + Reach(L'[c]) <= e && !L'[c].kind.Record? && !L'[c].kind.Fence?
    requires n in L' ==> n in L && L'[n].kind == L[n].kind && L'[n].size == L[n].size
    requires top != 0 && top' != 0 && top' + topsize' == top + topsize && segs[0].base <= top'
    ensures SegsTiled(L', segs, top', topsize')
  {
    hide *;
    SegsUnfold(L, segs, top, topsize);
    SegsUnfold(L', segs, top', topsize');
    OutsideIs(L, L', q, n);
    ReachOnly(L, L', n);
    RecordsStill(L, L', segs, q, n);
    forall k | 0 <= k < |segs| ensures SegShape(segs[k]) && FirstOK(L', segs[k]) && FenceEnds(L', segs[k]) {
      FirstStays(L, L', segs, q, n, e, k);
      FenceStays(L, L', segs[k], q, n);
    }
    forall c | c in L' ensures Within(segs, c, c + Reach(L'[c])) {
      if q <= c < n { Shrink(segs, q, e, c, c + Reach(L'[c])); }
    }
  }

  lemma OutsideIs(L: Layout, L': Layout, q: int, n: int)
    ensures SameOutside(L, L', q, n) <==> forall c :: c < q || c > n ==>
                                                      (c in L <==> c in L') && (c in L ==> L'[c] == L[c])
  {
  }

  lemma ReachOnly(L: Layout, L': Layout, n: int)
    ensures n in L && n in L' && L'[n].kind == L[n].kind && L'[n].size == L[n].size ==> Reach(L'[n]) == Reach(L[n])
  {
  }

  lemma RecordsStill(L: Layout, L': Layout, segs: seq<Seg>, q: int, n: int)
    requires SameOutside(L, L', q, n) && q < n && RecordsNamed(L, segs)
    requires forall c :: c in L' && q <= c < n ==> !L'[c].kind.Record? && !L'[c].kind.Fence?
    requires n in L' ==> n in L && L'[n].kind == L[n].kind
    ensures RecordsNamed(L', segs)
    ensures segs != [] && NoRecordIn(L, segs[0]) ==> NoRecordIn(L', segs[0])
  {
    hide Named;
  }

  lemma Shrink(segs: seq<Seg>, q: int, e: int, a: int, b: int)
    requires Within(segs, q, e) && q <= a && b <= e
    ensures Within(segs, a, b)
  {
    var k :| 0 <= k < |segs| && InSeg(segs[k], q, e);
    assert InSeg(segs[k], a, b);
  }

  /** Writes that stay in an interval of whole chunks leave bins, records and other payloads alone. */
  lemma LocalAway(m: Mem, m': Mem, L: Layout, D: map<int, int>, q: int, n: int, hi: int)
    requires LayoutOK(m, L) && Local(m, m', q + 8, hi) && q in L && q < n <= hi
    requires forall p :: p in D ==> p in L && L[p].kind.Free? && L[p].size == D[p] && (p < q || p >= n)
    requires forall c :: c in L && c >= n ==> c + 8 >= hi || (c == n && hi == n + 16 && !L[n].kind.Free?)
    ensures AwayFromBins(m, m', D)
  {
    AboveFloor(m, L, q);
    forall x, w | x in D && x + 8 <= w < x + D[x] ensures Rd(m', w) == Rd(m, w) {
      if x < q { ClearOf(m, L, x, q); }
    }
  }

  lemma ClearOf(m: Mem, L: Layout, x: int, q: int)
    requires LayoutOK(m, L) && x in L && q in L && x < q
    ensures x + Extent(L[x]) <= q && x + L[x].size <= q
  {
    assert At(m, L, x);
  }

  lemma LocalPayload(m: Mem, m': Mem, L: Layout, q: int, n: int, hi: int)
    requires LayoutOK(m, L) && Local(m, m', q + 8, hi) && q in L && q < n <= hi
    requires forall c :: c in L && c >= n ==> c + 16 >= hi
    ensures forall c, w :: c in L && (c < q || c >= n) && !L[c].kind.Free? && c + 16 <= w < c + L[c].size + 8 ==>
                           Rd(m', w) == Rd(m, w)
  {
    forall c, w | c in L && (c < q || c >= n) && !L[c].kind.Free? && c + 16 <= w < c + L[c].size + 8
      ensures Rd(m', w) == Rd(m, w)
    {
      if c < q { ClearOf(m, L, c, q); }
    }
  }

  /**
   * The step taken by every retiling of [q, n) that leaves top where it is; the chunk at n may lose or gain its pinuse
   * bit.
   */
  lemma RetileStep(s: Snap, s': Snap, q: int, n: int, hi: int, out: set<int>, out': set<int>)
    requires Inv(s, out) && s' == s.(mem := s'.mem, L := s'.L)
    requires q in s.L && n in s.L && q < n && Local(s.mem, s'.mem, q + 8, hi)
    requires hi == n || (hi == n + 16 && !s.L[n].kind.Free?)
    requires LayoutOK(s'.mem, s'.L) && SameOutside(s.L, s'.L, q, n)
    requires q in s'.L && s'.L[q].pin == s.L[q].pin
    requires n in s'.L && s'.L[n].kind == s.L[n].kind && s'.L[n].size == s.L[n].size
    requires forall c :: c in s'.L && q <= c < n ==> c + s'.L[c].size <= n && (s'.L[c].kind.Live? || s'.L[c].kind.Free?)
    requires forall c :: c in s.L && q <= c < n ==> s.L[c].kind.Live? || s.L[c].kind.Free?
    requires forall p :: p in s.D ==> p < q || p >= n
    requires Within(s.segs, q, n + 16)
    requires Filed(s'.L, s.D, out')
    ensures Inv(s', out')
    ensures PayloadKept(s.mem, s'.mem, map c | c in Blocks(s.L) && (c < q || c >= n) :: s.L[c].size)
  {
    hide BinsOK, At, LayoutOK, SegsTiled, HeadOf, Filed;
    FiledIs(s.L, s.D, out);
    AfterEnd(s.mem, s.L, n);
    LocalAway(s.mem, s'.mem, s.L, s.D, q, n, hi);
    BinsFrame(s.mem, s'.mem, s.smallmap, s.treemap, s.D, s.rings, s.trees);
    LocalPayload(s.mem, s'.mem, s.L, q, n, hi);
    PostsStay(s.mem, s.L, s'.L, q, n);
    RecordsKept(s.mem, s'.mem, s.L, s'.L, s.segs);
    Aligned16(s.mem, s.L, q);
    HasSegs(s.L, s.segs, s.top, s.topsize, q, n + 16);
    SegsRetile(s.segs, s.L, s'.L, s.top, s.topsize, s.top, s.topsize, q, n, n + 16);
    TopStays(s.L, s'.L, q, n, s.top, s.topsize);
    LeastStays(s.L, s'.L, q, n, s.least);
  }

  lemma FiledIs(L: Layout, D: map<int, int>, out: set<int>)
    ensures Filed(L, D, out) <==>
      && (forall p :: p in D ==> p in L && L[p].kind.Free? && L[p].size == D[p] && p !in out)
      && (forall p :: p in L && L[p].kind.Free? && p !in out ==> p in D)
  {
  }

  lemma AfterEnd(m: Mem, L: Layout, n: int)
    requires LayoutOK(m, L) && n in L
    ensures forall c :: c in L && c >= n ==> c == n || c >= n + 16
  {
    forall c | c in L && c > n ensures c >= n + 16 { AfterNext(m, L, n, c); }
  }

  lemma Aligned16(m: Mem, L: Layout, q: int)
    requires LayoutOK(m, L) && q in L
    ensures q % 16 == 0
  {
    assert At(m, L, q);
  }

  lemma HasSegs(L: Layout, segs: seq<Seg>, top: int, topsize: int, q: int, e: int)
    requires SegsTiled(L, segs, top, topsize) && Within(segs, q, e)
    ensures segs != [] && top != 0 && segs[0].base <= top
  {
  }

  lemma TopStays(L: Layout, L': Layout, q: int, n: int, top: int, topsize: int)
    requires TopOK(L, top, topsize) && SameOutside(L, L', q, n) && q in L && top != 0
    requires forall c :: c in L && q <= c < n ==> !L[c].kind.Top?
    requires forall c :: c in L' && q <= c < n ==> !L'[c].kind.Top?
    requires n in L && n in L' && L'[n].kind == L[n].kind && L'[n].size == L[n].size
    ensures TopOK(L', top, topsize)
  {
  }

  lemma LeastStays(L: Layout, L': Layout, q: int, n: int, least: int)
    requires forall c :: c in L ==> c >= least
    requires SameOutside(L, L', q, n) && q in L
    ensures forall c :: c in L' ==> c >= least
  {
  }

  /** The step taken by every retiling that ends in top: [q, n) with n the end of top. */
  lemma RetileTopStep(s: Snap, s': Snap, q: int, n: int, out: set<int>, out': set<int>)
    requires Inv(s, out) && s' == s.(mem := s'.mem, L := s'.L, top := s'.top, topsize := s'.topsize)
    requires s.top != 0 && n == s.top + s.topsize && s'.top != 0 && s'.top + s'.topsize == n
    requires q in s.L && q <= s.top && q <= s'.top && Local(s.mem, s'.mem, q + 8, n + 8)
    requires LayoutOK(s'.mem, s'.L) && SameOutside(s.L, s'.L, q, n) && n !in s.L && n !in s'.L
    requires q in s'.L && s'.L[q].pin == s.L[q].pin
    requires forall c :: c in s'.L && q <= c < n ==> c + Reach(s'.L[c]) <= n + 80
                                                     && (s'.L[c].kind.Live? || s'.L[c].kind.Top?)
    requires forall c :: c in s.L && q <= c < n ==> s.L[c].kind.Live? || s.L[c].kind.Free? || s.L[c].kind.Top?
    requires forall p :: p in s.D ==> p < q || p >= n
    requires Within(s.segs, q, n + 80) && s.segs != [] && s.segs[0].base <= s'.top
    requires Filed(s'.L, s.D, out') && TopOK(s'.L, s'.top, s'.topsize)
    ensures Inv(s', out')
    ensures PayloadKept(s.mem, s'.mem, map c | c in Blocks(s.L) && (c < q || c >= n) :: s.L[c].size)
  {
    hide BinsOK, At, LayoutOK, SegsTiled, HeadOf, Filed;
    FiledIs(s.L, s.D, out);
    AfterTopEnd(s.mem, s.L, s.top, s.topsize);
    TopBelow(s.mem, s.L, s.top);
    LocalAway(s.mem, s'.mem, s.L, s.D, q, n, n + 8);
    BinsFrame(s.mem, s'.mem, s.smallmap, s.treemap, s.D, s.rings, s.trees);
    LocalPayload(s.mem, s'.mem, s.L, q, n, n + 8);
    PostsStay(s.mem, s.L, s'.L, q, n);
    RecordsKept(s.mem, s'.mem, s.L, s'.L, s.segs);
    Aligned16(s.mem, s.L, q);
    SegsRetile(s.segs, s.L, s'.L, s.top, s.topsize, s'.top, s'.topsize, q, n, n + 80);
    LeastStays(s.L, s'.L, q, n, s.least);
  }

  lemma AfterTopEnd(m: Mem, L: Layout, top: int, topsize: int)
    requires LayoutOK(m, L) && top in L && L[top].kind.Top? && L[top].size == topsize
    ensures forall c :: c in L && c >= top + topsize ==> c >= top + topsize + 80
    ensures topsize > 0
  {
    forall c | c in L && c >= top + topsize ensures c >= top + topsize + 80 { AfterTop(m, L, top, c); }
    AfterTop(m, L, top, top);
  }

  lemma TopBelow(m: Mem, L: Layout, top: int)
    requires LayoutOK(m, L) && top in L
    ensures L[top].size > 0
  {
    assert At(m, L, top);
  }

  // ---- filing and blocks under a retiling ----

  lemma FiledRetile(L: Layout, L': Layout, D: map<int, int>, out: set<int>, out': set<int>, q: int, n: int)
    requires Filed(L, D, out) && SameOutside(L, L', q, n) && q < n
    requires n in L' ==> n in L && L'[n].kind == L[n].kind && L'[n].size == L[n].size
    requires n in L ==> n in L'
    requires forall p :: p in D ==> p < q || p >= n
    requires forall p :: p in L && (p < q || p >= n) ==> (p in out <==> p in out')
    requires forall p :: p in L' && q <= p < n && L'[p].kind.Free? ==> p in out'
    ensures Filed(L', D, out')
  {
  }

  lemma Outside(L: Layout, L': Layout, q: int, n: int, c: int)
    requires SameOutside(L, L', q, n) && (n in L <==> n in L')
    requires n in L ==> L'[n].kind == L[n].kind && L'[n].size == L[n].size
    ensures (c < q || c >= n) ==> (c in L <==> c in L')
    ensures (c < q || c >= n) && c in L ==> L'[c].kind == L[c].kind && L'[c].size == L[c].size
  {
  }

  /** Free chunks of the layout are fit to be binned. */
  lemma Binnable(m: Mem, L: Layout, E: map<int, int>)
    requires LayoutOK(m, L) && forall p :: p in E ==> p in L && L[p].kind.Free? && L[p].size == E[p]
    ensures ChunksOK(m, E)
  {
    forall x | x in E ensures ChunkOK(m, x, E[x]) {
      assert At(m, L, x);
    }
    forall x, y | x in E && y in E && x < y ensures x + E[x] <= y {
      Before'(m, L, x, y);
    }
  }

  lemma Before'(m: Mem, L: Layout, x: int, y: int)
    requires LayoutOK(m, L) && x in L && y in L && x < y
    ensures x + L[x].size <= y
  {
    assert At(m, L, x);
  }

  // ---- the four retilings as steps ----

  /** [q, n) is a run of live chunks and unbinned free ones inside one segment. */
  ghost predicate Run(s: Snap, q: int, n: int) {
    && q in s.L && n in s.L && q < n && Within(s.segs, q, n + 16)
    && (forall c :: c in s.L && q <= c < n ==> s.L[c].kind.Live? || s.L[c].kind.Free?)
    && (forall p :: p in s.D ==> p < q || p >= n)
  }

  /** out' is out with the free chunks of the run replaced by those of its new tiling. */
  ghost predicate Refiled(L: Layout, L': Layout, q: int, n: int, out: set<int>, out': set<int>) {
    && (forall p :: p in L && (p < q || p >= n) ==> (p in out <==> p in out'))
    && (forall p :: p in L' && q <= p < n && L'[p].kind.Free? ==> p in out')
  }

  ghost function BlocksOutside(L: Layout, q: int, n: int): map<int, int> {
    map c | c in Blocks(L) && (c < q || c >= n) :: L[c].size
  }

  lemma RunIs(s: Snap, q: int, n: int)
    ensures Run(s, q, n) <==>
      && q in s.L && n in s.L && q < n && Within(s.segs, q, n + 16)
      && (forall c :: c in s.L && q <= c < n ==> s.L[c].kind.Live? || s.L[c].kind.Free?)
      && (forall p :: p in s.D ==> p < q || p >= n)
  {
  }

  lemma BlocksOutsideIs(L: Layout, q: int, n: int)
    ensures BlocksOutside(L, q, n) == map c | c in Blocks(L) && (c < q || c >= n) :: L[c].size
  {
  }

  lemma OneStep(s: Snap, s': Snap, q: int, n: int, hi: int, k: Kind, out: set<int>, out': set<int>)
    requires Inv(s, out) && Run(s, q, n) && s' == s.(mem := s'.mem, L := One(s.L, q, n, k))
    requires Piece(s.L, q, n, n - q, k) && (k.Free? ==> s.L[q].pin)
    requires Local(s.mem, s'.mem, q + 8, hi) && (hi == n || (hi == n + 16 && !s.L[n].kind.Free?))
    requires Rd(s'.mem, q + 8) == HeadOf(Chunk(k, n - q, s.L[q].pin))
    requires Rd(s'.mem, n + 8) == HeadOf(s.L[n].(pin := Cin(k)))
    requires k.Free? ==> Rd(s'.mem, n) == n - q
    requires Refiled(s.L, s'.L, q, n, out, out')
    ensures Inv(s', out') && PayloadKept(s.mem, s'.mem, BlocksOutside(s.L, q, n))
  {
    hide *;
    RunIs(s, q, n);
    InvParts(s, out);
    LocalGrows(s.mem, s'.mem, q + 8, hi, n + 16);
    PieceIs(s.L, q, n, n - q, k);
    OneOK(s.mem, s.L, s'.mem, q, n, k);
    OneIs(s.L, q, n, k);
    RefiledIs(s.L, s'.L, q, n, out, out');
    FiledRetile(s.L, s'.L, s.D, out, out', q, n);
    BlocksOutsideIs(s.L, q, n);
    RetileStep(s, s', q, n, hi, out, out');
  }

  lemma LocalGrows(m: Mem, m': Mem, lo: int, hi: int, hi': int)
    requires Local(m, m', lo, hi) && hi <= hi'
    ensures Local(m, m', lo, hi')
  {
  }

  lemma PieceIs(L: Layout, q: int, n: int, size: int, k: Kind)
    ensures Piece(L, q, n, size, k) <==>
      q in L && n in L && q < n && size >= 32 && size % 16 == 0 && (k.Live? || (k.Free? && Cin(L[n].kind)))
  {
  }

  lemma RefiledIs(L: Layout, L': Layout, q: int, n: int, out: set<int>, out': set<int>)
    ensures Refiled(L, L', q, n, out, out') <==>
      && (forall p :: p in L && (p < q || p >= n) ==> (p in out <==> p in out'))
      && (forall p :: p in L' && q <= p < n && L'[p].kind.Free? ==> p in out')
  {
  }

  lemma TwoStep(s: Snap, s': Snap, q: int, r: int, n: int, hi: int, j: Kind, k: Kind, out: set<int>, out': set<int>)
    requires Inv(s, out) && Run(s, q, n) && s' == s.(mem := s'.mem, L := Two(s.L, q, r, n, j, k))
    requires Piece(s.L, q, n, n - r, k) && q < r < n && r - q >= 32 && (r - q) % 16 == 0
    requires (j.Live? && (k.Live? || k.Free?)) || (j.Free? && k.Live? && s.L[q].pin)
    requires Local(s.mem, s'.mem, q + 8, hi) && (hi == n || (hi == n + 16 && !s.L[n].kind.Free?))
    requires Rd(s'.mem, q + 8) == HeadOf(Chunk(j, r - q, s.L[q].pin))
    requires Rd(s'.mem, r + 8) == HeadOf(Chunk(k, n - r, Cin(j)))
    requires Rd(s'.mem, n + 8) == HeadOf(s.L[n].(pin := Cin(k)))
    requires j.Free? ==> Rd(s'.mem, r) == r - q
    requires k.Free? ==> Rd(s'.mem, n) == n - r
    requires Refiled(s.L, s'.L, q, n, out, out')
    ensures Inv(s', out') && PayloadKept(s.mem, s'.mem, BlocksOutside(s.L, q, n))
  {
    hide *;
    RunIs(s, q, n);
    InvParts(s, out);
    LocalGrows(s.mem, s'.mem, q + 8, hi, n + 16);
    PieceIs(s.L, q, n, n - r, k);
    MinChunk();
    TwoOK(s.mem, s.L, s'.mem, q, r, n, j, k);
    TwoIs(s.L, q, r, n, j, k);
    RefiledIs(s.L, s'.L, q, n, out, out');
    FiledRetile(s.L, s'.L, s.D, out, out', q, n);
    BlocksOutsideIs(s.L, q, n);
    RetileStep(s, s', q, n, hi, out, out');
  }

  lemma MinChunk()
    ensures MIN_CHUNK_SIZE == 32 && TOP_FOOT_SIZE == 80
  {
  }

  /** From q to the end of top: live chunks, unbinned free ones and top, inside the first segment. */
  ghost predicate TopRun(s: Snap, q: int) {
    && q in s.L && s.top != 0 && q <= s.top && Within(s.segs, q, s.top + s.topsize + 80)
    && s.segs != [] && s.segs[0].base <= q
    && (forall c :: c in s.L && q <= c < s.top + s.topsize ==>
                    s.L[c].kind.Live? || s.L[c].kind.Free? || s.L[c].kind.Top?)
    && (forall p :: p in s.D ==> p < q || p >= s.top + s.topsize)
  }

  lemma TopRunIs(s: Snap, q: int)
    ensures TopRun(s, q) <==>
      && q in s.L && s.top != 0 && q <= s.top && Within(s.segs, q, s.top + s.topsize + 80)
      && s.segs != [] && s.segs[0].base <= q
      && (forall c :: c in s.L && q <= c < s.top + s.topsize ==>
                      s.L[c].kind.Live? || s.L[c].kind.Free? || s.L[c].kind.Top?)
      && (forall p :: p in s.D ==> p < q || p >= s.top + s.topsize)
  {
  }

  lemma TopIs(m: Mem, L: Layout, top: int, topsize: int)
    requires LayoutOK(m, L) && TopOK(L, top, topsize) && top != 0
    ensures top in L && L[top].kind.Top? && L[top].size == topsize && topsize >= 8
    ensures top + topsize !in L && forall c :: c in L && c > top ==> c >= top + topsize + 80
    ensures forall c :: c in L && L[c].kind.Top? ==> c == top
    ensures top % 16 == 0 && topsize % 8 == 0 && L[top].pin && Rd(m, top + 8) == HeadOf(L[top])
  {
    hide *;
    TopOKIs(L, top, topsize);
    TopFields(m, L, top);
    MinChunk();
    AfterTop(m, L, top, top);
    forall c | c in L && c > top ensures c >= top + topsize + 80 { AfterTop(m, L, top, c); }
  }

  lemma TopFields(m: Mem, L: Layout, top: int)
    requires LayoutOK(m, L) && top in L && L[top].kind.Top?
    ensures top % 16 == 0 && L[top].size % 8 == 0 && L[top].size > 0 && L[top].pin && Rd(m, top + 8) == HeadOf(L[top])
  {
    assert At(m, L, top);
  }

  lemma TopOKIs(L: Layout, top: int, topsize: int)
    ensures TopOK(L, top, topsize) <==>
      && (top == 0 ==> topsize == 0 && L == map[])
      && (top != 0 ==> top in L && L[top].kind.Top? && L[top].size == topsize)
      && (forall c :: c in L && L[c].kind.Top? ==> c == top)
  {
  }

  lemma TopOneIs(L: Layout, q: int, t: int)
    requires q in L && t in L && L[t].kind.Top? && q <= t && L[t].size > 0
    requires forall c :: c in L && c > t ==> c >= t + L[t].size + 80
    requires forall c :: c in L && L[c].kind.Top? ==> c == t
    ensures SameOutside(L, TopOne(L, q, t), q, t + L[t].size) && t + L[t].size !in TopOne(L, q, t)
    ensures q in TopOne(L, q, t) && TopOne(L, q, t)[q] == Chunk(Top, t + L[t].size - q, L[q].pin)
    ensures forall c :: c in TopOne(L, q, t) && q <= c < t + L[t].size ==> c == q
    ensures TopOK(TopOne(L, q, t), q, t + L[t].size - q) || q == 0
  {
  }

  lemma TopTwoIs(L: Layout, q: int, r: int, t: int)
    requires q in L && t in L && L[t].kind.Top? && q <= t && q < r < t + L[t].size && L[t].size > 0
    requires forall c :: c in L && c > t ==> c >= t + L[t].size + 80
    requires forall c :: c in L && L[c].kind.Top? ==> c == t
    ensures SameOutside(L, TopTwo(L, q, r, t), q, t + L[t].size) && t + L[t].size !in TopTwo(L, q, r, t)
    ensures q in TopTwo(L, q, r, t) && TopTwo(L, q, r, t)[q] == Chunk(Live, r - q, L[q].pin)
    ensures r in TopTwo(L, q, r, t) && TopTwo(L, q, r, t)[r] == Chunk(Top, t + L[t].size - r, true)
    ensures forall c :: c in TopTwo(L, q, r, t) && q <= c < t + L[t].size ==> c == q || c == r
    ensures TopOK(TopTwo(L, q, r, t), r, t + L[t].size - r) || r == 0
  {
  }

  lemma TopOneStep(s: Snap, s': Snap, q: int, out: set<int>, out': set<int>)
    requires Inv(s, out) && TopRun(s, q) && s.top in s.L
    requires s' == s.(mem := s'.mem, L := TopOne(s.L, q, s.top), top := q, topsize := s.top + s.topsize - q)
    requires s.L[q].pin && Local(s.mem, s'.mem, q + 8, s.top + 16)
    requires Rd(s'.mem, q + 8) == HeadOf(Chunk(Top, s.top + s.topsize - q, true))
    requires Refiled(s.L, s'.L, q, s.top + s.topsize, out, out')
    ensures Inv(s', out') && PayloadKept(s.mem, s'.mem, BlocksOutside(s.L, q, s.top + s.topsize))
  {
    hide *;
    var n := s.top + s.topsize;
    TopRunIs(s, q);
    InvParts(s, out);
    TopIs(s.mem, s.L, s.top, s.topsize);
    Positive(s.mem, s.L, q);
    TopOneOK(s.mem, s.L, s'.mem, q, s.top);
    TopOneIs(s.L, q, s.top);
    LocalGrows(s.mem, s'.mem, q + 8, s.top + 16, n + 8);
    RefiledIs(s.L, s'.L, q, n, out, out');
    FiledRetile(s.L, s'.L, s.D, out, out', q, n);
    BlocksOutsideIs(s.L, q, n);
    ReachTop(s'.L[q]);
    RetileTopStep(s, s', q, n, out, out');
  }

  lemma ReachTop(c: Chunk)
    ensures c.kind.Top? ==> Reach(c) == c.size + 80
    ensures c.kind.Live? || c.kind.Free? || c.kind.Record? ==> Reach(c) == c.size + 16
    ensures c.kind.Fence? ==> Reach(c) == 16
  {
  }

  lemma Positive(m: Mem, L: Layout, q: int)
    requires LayoutOK(m, L) && q in L
    ensures q > 0 && q % 16 == 0 && Rd(m, q + 8) == HeadOf(L[q])
  {
    assert At(m, L, q);
  }

  lemma TopTwoStep(s: Snap, s': Snap, q: int, r: int, out: set<int>, out': set<int>)
    requires Inv(s, out) && TopRun(s, q) && s.top in s.L && q < r < s.top + s.topsize && r - q >= 32
      && (r - q) % 16 == 0
    requires s' == s.(mem := s'.mem, L := TopTwo(s.L, q, r, s.top), top := r, topsize := s.top + s.topsize - r)
    requires Local(s.mem, s'.mem, q + 8, s.top + s.topsize + 8)
    requires Rd(s'.mem, q + 8) == HeadOf(Chunk(Live, r - q, s.L[q].pin))
    requires Rd(s'.mem, r + 8) == HeadOf(Chunk(Top, s.top + s.topsize - r, true))
    requires Refiled(s.L, s'.L, q, s.top + s.topsize, out, out')
    ensures Inv(s', out') && PayloadKept(s.mem, s'.mem, BlocksOutside(s.L, q, s.top + s.topsize))
  {
    hide *;
    var n := s.top + s.topsize;
    TopRunIs(s, q);
    InvParts(s, out);
    TopIs(s.mem, s.L, s.top, s.topsize);
    Positive(s.mem, s.L, q);
    MinChunk();
    TopTwoOK(s.mem, s.L, s'.mem, q, r, s.top);
    TopTwoIs(s.L, q, r, s.top);
    RefiledIs(s.L, s'.L, q, n, out, out');
    FiledRetile(s.L, s'.L, s.D, out, out', q, n);
    BlocksOutsideIs(s.L, q, n);
    ReachTop(s'.L[q]);
    ReachTop(s'.L[r]);
    RetileTopStep(s, s', q, n, out, out');
  }

  // ---- the same steps with the set of unbinned chunks and the live blocks worked out ----

  /** The members of out beyond [q, n). */
  ghost function Beyond(out: set<int>, q: int, n: int): set<int> {
    set x | x in out && (x < q || x >= n)
  }

  ghost function IfFree(k: Kind, q: int): set<int> {
    if k.Free? then {q} else {}
  }

  ghost function IfLive(B: map<int, int>, k: Kind, q: int, size: int): map<int, int> {
    if k.Live? then B[q := size] else B
  }

  lemma BeyondIs(out: set<int>, q: int, n: int, j: Kind, a: int, k: Kind, b: int)
    ensures forall x :: x in Beyond(out, q, n) + IfFree(j, a) + IfFree(k, b) <==>
                        (x in out && (x < q || x >= n)) || (j.Free? && x == a) || (k.Free? && x == b)
    ensures forall x :: x in Beyond(out, q, n) + IfFree(k, b) <==>
                        (x in out && (x < q || x >= n)) || (k.Free? && x == b)
    ensures forall x :: x in Beyond(out, q, n) <==> x in out && (x < q || x >= n)
  {
  }

  lemma BeyondSum(out: set<int>, q: int, n: int, k: Kind, b: int)
    ensures Beyond(out, q, n) + IfFree(Live, q) == Beyond(out, q, n)
    ensures Beyond(out, q, n) + IfFree(k, b) == if k.Free? then Beyond(out, q, n) + {b} else Beyond(out, q, n)
  {
  }

  lemma OneBlocks(L: Layout, L': Layout, q: int, n: int, k: Kind)
    requires SameOutside(L, L', q, n) && q < n && (n in L <==> n in L')
    requires n in L ==> L'[n].kind == L[n].kind && L'[n].size == L[n].size
    requires q in L' && L'[q].kind == k
    requires forall b :: b in L' && q <= b < n ==> b == q
    ensures Blocks(L') == IfLive(BlocksOutside(L, q, n), k, q, L'[q].size)
  {
    forall c ensures c in Blocks(L') <==> c in IfLive(BlocksOutside(L, q, n), k, q, L'[q].size) {
      Outside(L, L', q, n, c);
    }
    forall c | c in Blocks(L')
      ensures Blocks(L')[c] == IfLive(BlocksOutside(L, q, n), k, q, L'[q].size)[c]
    {
      Outside(L, L', q, n, c);
    }
  }

  lemma TwoBlocks(L: Layout, L': Layout, q: int, r: int, n: int, j: Kind, k: Kind)
    requires SameOutside(L, L', q, n) && q < r < n && (n in L <==> n in L')
    requires n in L ==> L'[n].kind == L[n].kind && L'[n].size == L[n].size
    requires q in L' && L'[q].kind == j && r in L' && L'[r].kind == k
    requires forall b :: b in L' && q <= b < n ==> b == q || b == r
    ensures Blocks(L') == IfLive(IfLive(BlocksOutside(L, q, n), j, q, L'[q].size), k, r, L'[r].size)
  {
    var B := IfLive(IfLive(BlocksOutside(L, q, n), j, q, L'[q].size), k, r, L'[r].size);
    forall c ensures c in Blocks(L') <==> c in B { Outside(L, L', q, n, c); }
    forall c | c in Blocks(L') ensures Blocks(L')[c] == B[c] { Outside(L, L', q, n, c); }
  }

  lemma OneDone(s: Snap, s': Snap, q: int, n: int, hi: int, k: Kind, out: set<int>)
    requires Inv(s, out) && Run(s, q, n) && s' == s.(mem := s'.mem, L := One(s.L, q, n, k))
    requires Piece(s.L, q, n, n - q, k) && (k.Free? ==> s.L[q].pin)
    requires Local(s.mem, s'.mem, q + 8, hi) && (hi == n || (hi == n + 16 && !s.L[n].kind.Free?))
    requires Rd(s'.mem, q + 8) == HeadOf(Chunk(k, n - q, s.L[q].pin))
    requires Rd(s'.mem, n + 8) == HeadOf(s.L[n].(pin := Cin(k)))
    requires k.Free? ==> Rd(s'.mem, n) == n - q
    ensures Inv(s', Beyond(out, q, n) + IfFree(k, q)) && PayloadKept(s.mem, s'.mem, BlocksOutside(s.L, q, n))
    ensures Blocks(s'.L) == IfLive(BlocksOutside(s.L, q, n), k, q, n - q)
    ensures SameOutside(s.L, s'.L, q, n) && q in s'.L && s'.L[q] == Chunk(k, n - q, s.L[q].pin)
    ensures n in s'.L && s'.L[n] == s.L[n].(pin := Cin(k))
    ensures forall b :: b in s'.L && q <= b < n ==> b == q
  {
    hide *;
    RunIs(s, q, n);
    OneIs(s.L, q, n, k);
    BeyondIs(out, q, n, k, q, k, q);
    RefiledIs(s.L, s'.L, q, n, out, Beyond(out, q, n) + IfFree(k, q));
    OneStep(s, s', q, n, hi, k, out, Beyond(out, q, n) + IfFree(k, q));
    OneBlocks(s.L, s'.L, q, n, k);
  }

  lemma TwoDone(s: Snap, s': Snap, q: int, r: int, n: int, hi: int, j: Kind, k: Kind, out: set<int>)
    requires Inv(s, out) && Run(s, q, n) && s' == s.(mem := s'.mem, L := Two(s.L, q, r, n, j, k))
    requires Piece(s.L, q, n, n - r, k) && q < r < n && r - q >= 32 && (r - q) % 16 == 0
    requires (j.Live? && (k.Live? || k.Free?)) || (j.Free? && k.Live? && s.L[q].pin)
    requires Local(s.mem, s'.mem, q + 8, hi) && (hi == n || (hi == n + 16 && !s.L[n].kind.Free?))
    requires Rd(s'.mem, q + 8) == HeadOf(Chunk(j, r - q, s.L[q].pin))
    requires Rd(s'.mem, r + 8) == HeadOf(Chunk(k, n - r, Cin(j)))
    requires Rd(s'.mem, n + 8) == HeadOf(s.L[n].(pin := Cin(k)))
    requires j.Free? ==> Rd(s'.mem, r) == r - q
    requires k.Free? ==> Rd(s'.mem, n) == n - r
    ensures Inv(s', Beyond(out, q, n) + IfFree(j, q) + IfFree(k, r))
      && PayloadKept(s.mem, s'.mem, BlocksOutside(s.L, q, n))
    ensures Blocks(s'.L) == IfLive(IfLive(BlocksOutside(s.L, q, n), j, q, r - q), k, r, n - r)
    ensures SameOutside(s.L, s'.L, q, n)
    ensures q in s'.L && s'.L[q] == Chunk(j, r - q, s.L[q].pin) && r in s'.L && s'.L[r] == Chunk(k, n - r, Cin(j))
    ensures n in s'.L && s'.L[n] == s.L[n].(pin := Cin(k))
    ensures forall b :: b in s'.L && q <= b < n ==> b == q || b == r
  {
    hide *;
    RunIs(s, q, n);
    TwoIs(s.L, q, r, n, j, k);
    BeyondIs(out, q, n, j, q, k, r);
    RefiledIs(s.L, s'.L, q, n, out, Beyond(out, q, n) + IfFree(j, q) + IfFree(k, r));
    TwoStep(s, s', q, r, n, hi, j, k, out, Beyond(out, q, n) + IfFree(j, q) + IfFree(k, r));
    TwoBlocks(s.L, s'.L, q, r, n, j, k);
  }

  lemma TopOneDone(s: Snap, s': Snap, q: int, out: set<int>)
    requires Inv(s, out) && TopRun(s, q) && s.top in s.L
    requires s' == s.(mem := s'.mem, L := TopOne(s.L, q, s.top), top := q, topsize := s.top + s.topsize - q)
    requires s.L[q].pin && Local(s.mem, s'.mem, q + 8, s.top + 16)
    requires Rd(s'.mem, q + 8) == HeadOf(Chunk(Top, s.top + s.topsize - q, true))
    ensures Inv(s', Beyond(out, q, s.top + s.topsize))
      && PayloadKept(s.mem, s'.mem, BlocksOutside(s.L, q, s.top + s.topsize))
    ensures Blocks(s'.L) == BlocksOutside(s.L, q, s.top + s.topsize)
    ensures SameOutside(s.L, s'.L, q, s.top + s.topsize)
    ensures forall b :: b in s'.L && q <= b <= s.top + s.topsize ==> b == q
    ensures q in s'.L && s'.L[q] == Chunk(Top, s.top + s.topsize - q, true)
  {
    hide *;
    var n := s.top + s.topsize;
    TopRunIs(s, q);
    InvParts(s, out);
    TopIs(s.mem, s.L, s.top, s.topsize);
    TopOneIs(s.L, q, s.top);
    BeyondIs(out, q, n, Top, q, Top, q);
    RefiledIs(s.L, s'.L, q, n, out, Beyond(out, q, n));
    TopOneStep(s, s', q, out, Beyond(out, q, n));
    OneBlocks(s.L, s'.L, q, n, Top);
    IfLiveIs(BlocksOutside(s.L, q, n), Top, q, n - q);
  }

  lemma IfLiveIs(B: map<int, int>, k: Kind, q: int, size: int)
    ensures IfLive(B, k, q, size) == if k.Live? then B[q := size] else B
  {
  }

  lemma TopTwoDone(s: Snap, s': Snap, q: int, r: int, out: set<int>)
    requires Inv(s, out) && TopRun(s, q) && s.top in s.L && q < r < s.top + s.topsize && r - q >= 32
      && (r - q) % 16 == 0
    requires s' == s.(mem := s'.mem, L := TopTwo(s.L, q, r, s.top), top := r, topsize := s.top + s.topsize - r)
    requires Local(s.mem, s'.mem, q + 8, s.top + s.topsize + 8)
    requires Rd(s'.mem, q + 8) == HeadOf(Chunk(Live, r - q, s.L[q].pin))
    requires Rd(s'.mem, r + 8) == HeadOf(Chunk(Top, s.top + s.topsize - r, true))
    ensures Inv(s', Beyond(out, q, s.top + s.topsize))
      && PayloadKept(s.mem, s'.mem, BlocksOutside(s.L, q, s.top + s.topsize))
    ensures Blocks(s'.L) == BlocksOutside(s.L, q, s.top + s.topsize)[q := r - q]
    ensures SameOutside(s.L, s'.L, q, s.top + s.topsize)
    ensures forall b :: b in s'.L && q <= b <= s.top + s.topsize ==> b == q || b == r
    ensures q in s'.L && s'.L[q] == Chunk(Live, r - q, s.L[q].pin) && r in s'.L
      && s'.L[r] == Chunk(Top, s.top + s.topsize - r, true)
  {
    hide *;
    var n := s.top + s.topsize;
    TopRunIs(s, q);
    InvParts(s, out);
    TopIs(s.mem, s.L, s.top, s.topsize);
    TopTwoIs(s.L, q, r, s.top);
    BeyondIs(out, q, n, Live, q, Top, r);
    RefiledIs(s.L, s'.L, q, n, out, Beyond(out, q, n));
    TopTwoStep(s, s', q, r, out, Beyond(out, q, n));
    TwoBlocks(s.L, s'.L, q, r, n, Live, Top);
    IfLiveIs(BlocksOutside(s.L, q, n), Live, q, r - q);
    IfLiveIs(IfLive(BlocksOutside(s.L, q, n), Live, q, r - q), Top, r, n - r);
  }

  /** The live blocks beyond [q, n), when what lies inside is known. */
  lemma OnlyLive(L: Layout, q: int, n: int, P: set<int>)
    requires forall c :: c in L && q <= c < n && L[c].kind.Live? ==> c in P
    requires forall c :: c in P ==> q <= c < n
    ensures BlocksOutside(L, q, n) == Blocks(L) - P
  {
  }

  lemma BlocksIs(L: Layout)
    ensures forall c :: c in Blocks(L) <==> c in L && L[c].kind.Live?
    ensures forall c :: c in Blocks(L) ==> Blocks(L)[c] == L[c].size
  {
  }

  /** Only what out says of free chunks matters. */
  lemma Reout(s: Snap, out: set<int>, out': set<int>)
    requires Inv(s, out) && forall p :: p in s.L && s.L[p].kind.Free? ==> (p in out <==> p in out')
    ensures Inv(s, out')
  {
    hide *;
    InvParts(s, out);
    InvParts(s, out');
    FiledIs(s.L, s.D, out);
    FiledIs(s.L, s.D, out');
  }
}
