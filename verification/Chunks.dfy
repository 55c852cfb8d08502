/** What the invariant says of single chunks and of runs of chunks. */
module Chunks {
  import opened Memory
  import opened Layouts
  import opened State
  import opened HeapSteps

  lemma NowIs(m: MallocState)
    ensures m.Now() == Snap(m.mem, m.smallmap, m.treemap, m.D, m.rings, m.trees, m.L, m.leastAddr, m.top, m.topsize,
                            m.segs, m.segBase, m.segSize, m.segNext)
  {
  }

  lemma SideIs(m: MallocState)
    ensures m.Side() == Outside(m.system, m.asked, m.segs, m.topsize, m.footprint, m.footprintLimit, m.noncontiguous)
  {
  }

  lemma ConsistentIs(m: MallocState, out: set<int>)
    ensures m.Consistent(out) <==> Inv(m.Now(), out) && m.footprint == TotalSize(m.segs)
                                   && m.footprint <= m.maxFootprint
  {
  }

  lemma ValidIs(m: MallocState)
    ensures m.Valid() <==> m.Consistent({m.dv}) && DvOK(m.L, m.dv, m.dvsize)
  {
  }

  lemma DvIs(L: Layout, dv: int, dvsize: int)
    ensures DvOK(L, dv, dvsize) <==> if dv == 0 then dvsize == 0
                                                     else dv in L && L[dv].kind.Free? && L[dv].size == dvsize
  {
  }

  lemma HeadOfIs(c: Chunk)
    ensures HeadOf(c) == c.size + (if c.kind.Live? || c.kind.Record? || c.kind.Fence? then 2 else 0)
      + (if c.pin then 1 else 0)
    ensures Cin(c.kind) <==> c.kind.Live? || c.kind.Record? || c.kind.Fence?
  {
  }

  lemma TagFacts(m: Mem, L: Layout, c: int)
    requires LayoutOK(m, L) && c in L
    ensures c >= 0x2000 && c % 16 == 0 && Rd(m, c + 8) == HeadOf(L[c])
    ensures L[c].kind.Live? || L[c].kind.Free? || L[c].kind.Record? ==>
      (L[c].size >= 32 && L[c].size % 16 == 0 && c + L[c].size in L && L[c + L[c].size].pin == Cin(L[c].kind))
    ensures L[c].kind.Free? ==> L[c].pin && Cin(L[c + L[c].size].kind) && Rd(m, c + L[c].size) == L[c].size
    ensures L[c].kind.Top? ==> L[c].pin
    ensures L[c].size >= 8 && L[c].size % 8 == 0 && (L[c].kind.Fence? ==> L[c].size == 8)
    ensures c + L[c].size <= 0x8000_0000_0000
    ensures !L[c].pin ==>
      (Rd(m, c) >= 32 && c - Rd(m, c) in L && L[c - Rd(m, c)].kind.Free? && L[c - Rd(m, c)].size == Rd(m, c))
  {
    assert At(m, L, c);
    if !L[c].pin { Previous(m, L, c); }
  }

  lemma SegFacts(s: Snap, c: int)
    requires SegsOK(s) && c in s.L
    ensures Within(s.segs, c, c + Reach(s.L[c]))
  {
    hide *;
    SegsOKIs(s);
    SegsUnfold(s.L, s.segs, s.top, s.topsize);
  }

  /** What a chunk of a consistent heap looks like. */
  lemma ChunkFacts(s: Snap, out: set<int>, c: int)
    requires Inv(s, out) && c in s.L
    ensures c >= 0x2000 && c % 16 == 0 && c >= s.least && Rd(s.mem, c + 8) == HeadOf(s.L[c])
    ensures s.L[c].kind.Live? || s.L[c].kind.Free? || s.L[c].kind.Record? ==>
      (s.L[c].size >= 32 && s.L[c].size % 16 == 0 && c + s.L[c].size in s.L
       && s.L[c + s.L[c].size].pin == Cin(s.L[c].kind)
       && Within(s.segs, c, c + s.L[c].size + 16))
    ensures s.L[c].kind.Free? ==> s.L[c].pin && Cin(s.L[c + s.L[c].size].kind)
                                  && Rd(s.mem, c + s.L[c].size) == s.L[c].size
    ensures s.L[c].kind.Free? ==> (c in s.D <==> c !in out)
    ensures c in s.D ==> s.L[c].kind.Free? && s.D[c] == s.L[c].size && c !in out
    ensures s.L[c].kind.Top? ==> c == s.top && s.topsize == s.L[c].size && s.L[c].pin
    ensures c == s.top <==> s.L[c].kind.Top?
    ensures !s.L[c].pin ==>
      (Rd(s.mem, c) >= 32 && c - Rd(s.mem, c) in s.L && s.L[c - Rd(s.mem, c)].kind.Free?
       && s.L[c - Rd(s.mem, c)].size == Rd(s.mem, c))
    ensures Within(s.segs, c, c + Reach(s.L[c])) && s.top != 0
    ensures s.L[c].size >= 8 && s.L[c].size % 8 == 0 && c + s.L[c].size <= 0x8000_0000_0000
    ensures s.L[c].kind.Fence? ==> s.L[c].size == 8
  {
    hide *;
    InvParts(s, out);
    TagFacts(s.mem, s.L, c);
    SegFacts(s, c);
    ReachTop(s.L[c]);
    FiledIs(s.L, s.D, out);
    TopOKIs(s.L, s.top, s.topsize);
  }

  lemma NotBetween(s: Snap, out: set<int>, c: int, d: int)
    requires Inv(s, out) && c in s.L && d in s.L && c < d
    ensures c + s.L[c].size <= d
  {
    assert At(s.mem, s.L, c);
  }

  /** A single chunk that is live, or free and out of the bins, is a run. */
  lemma RunOf1(s: Snap, out: set<int>, c: int)
    requires Inv(s, out) && c in s.L && (s.L[c].kind.Live? || (s.L[c].kind.Free? && c !in s.D))
    ensures Run(s, c, c + s.L[c].size)
    ensures forall d :: d in s.L && c <= d < c + s.L[c].size ==> d == c
  {
    hide *;
    ChunkFacts(s, out, c);
    forall d | d in s.L && c <= d < c + s.L[c].size ensures d == c {
      if c < d { NotBetween(s, out, c, d); }
    }
    InvParts(s, out);
    FiledIs(s.L, s.D, out);
    RunIs(s, c, c + s.L[c].size);
  }

  /** Two runs end to end make one. */
  lemma RunAppend(s: Snap, out: set<int>, q: int, p: int, n: int)
    requires Inv(s, out) && Run(s, q, p) && Run(s, p, n)
    ensures Run(s, q, n)
  {
    hide *;
    RunIs(s, q, p);
    RunIs(s, p, n);
    RunIs(s, q, n);
    InvParts(s, out);
    SegsUnfold(s.L, s.segs, s.top, s.topsize);
    SegsOKIs(s);
    Together(s.segs, q, p, n + 16);
  }

  lemma SegsOKIs(s: Snap)
    ensures SegsOK(s) <==> SegsTiled(s.L, s.segs, s.top, s.topsize) && HeadSeg(s.segs, s.segBase, s.segSize, s.segNext)
                           && RecordsOK(s.mem, s.L, s.segs)
  {
  }

  /** A run that ends at top, together with top. */
  lemma RunToTop(s: Snap, out: set<int>, q: int)
    requires Inv(s, out) && (q == s.top != 0 || (Run(s, q, s.top) && s.top != 0))
    ensures TopRun(s, q) && s.top in s.L && s.topsize >= 8 && s.top % 16 == 0 && s.topsize % 8 == 0
    ensures forall c :: c in s.L && c > s.top ==> c >= s.top + s.topsize + 80
    ensures s.top + s.topsize + 80 <= 0x8000_0000_0000
  {
    hide *;
    InvParts(s, out);
    TopIs(s.mem, s.L, s.top, s.topsize);
    ChunkFacts(s, out, s.top);
    ReachTop(s.L[s.top]);
    SegsOKIs(s);
    SegsUnfold(s.L, s.segs, s.top, s.topsize);
    if q != s.top {
      RunIs(s, q, s.top);
      Together(s.segs, q, s.top, s.top + s.topsize + 80);
      InFirst(s.segs, q, s.top, s.top + s.topsize + 80);
    }
    FiledIs(s.L, s.D, out);
    WithinLimit(s.segs, s.top, s.top + s.topsize + 80);
    forall p | p in s.D ensures p < q || p >= s.top + s.topsize {
      if p > s.top { assert p >= s.top + s.topsize + 80; }
    }
    TopRunIs(s, q);
  }

  lemma WithinLimit(segs: seq<Seg>, a: int, e: int)
    requires Within(segs, a, e) && forall k :: 0 <= k < |segs| ==> SegShape(segs[k])
    ensures e <= 0x8000_0000_0000
  {
    var k :| 0 <= k < |segs| && InSeg(segs[k], a, e);
    assert SegShape(segs[k]);
  }

  /** What shares a segment with top is in the first one. */
  lemma InFirst(segs: seq<Seg>, q: int, top: int, e: int)
    requires Separate(segs) && Within(segs, q, e) && q <= top && segs != []
    requires segs[0].base <= top && e == segs[0].base + segs[0].size && top < e
    ensures segs[0].base <= q
  {
    var k :| 0 <= k < |segs| && InSeg(segs[k], q, e);
    SameSeg(segs, 0, k, top);
  }

  lemma LocalIs(m: Mem, m': Mem, lo: int, hi: int)
    ensures Local(m, m', lo, hi) <==> forall w :: w < lo || w >= hi ==> Rd(m', w) == Rd(m, w)
  {
  }

  lemma RdIs(m: Mem, a: int, v: int, w: int)
    ensures Rd(m[a := v], w) == if w == a then v else Rd(m, w)
  {
  }

  lemma SameOutsideIs(L: Layout, L': Layout, q: int, n: int)
    ensures SameOutside(L, L', q, n) <==> forall c :: c < q || c > n ==>
                                                      (c in L <==> c in L') && (c in L ==> L'[c] == L[c])
  {
  }

  /** The designated victim outside a retiled interval stays good. */
  lemma DvElsewhere(L: Layout, L': Layout, q: int, n: int, d: int, ds: int)
    requires SameOutside(L, L', q, n) && DvOK(L, d, ds) && (d == 0 || d < q || d >= n)
    requires n in L ==> n in L' && L'[n].kind == L[n].kind && L'[n].size == L[n].size
    ensures DvOK(L', d, ds)
  {
  }

  /** The chunk that ends a run. */
  lemma RunEnd(s: Snap, out: set<int>, q: int, n: int)
    requires Inv(s, out) && Run(s, q, n)
    ensures q in s.L && n in s.L && q < n && q >= 0x2000 && q % 16 == 0 && n % 16 == 0 && n < 0x8000_0000_0000
    ensures Rd(s.mem, q + 8) == HeadOf(s.L[q]) && Rd(s.mem, n + 8) == HeadOf(s.L[n])
    ensures s.L[q].size % 8 == 0 && s.L[n].size % 8 == 0
    ensures forall c :: c in s.L && q <= c < n ==> s.L[c].kind.Live? || s.L[c].kind.Free?
    ensures s.L[n].kind.Free? ==> s.L[n].pin
    ensures s.L[q].kind.Free? ==> s.L[q].pin
    ensures forall p :: p in s.D ==> p < q || p >= n
  {
    hide *;
    RunIs(s, q, n);
    ChunkFacts(s, out, q);
    ChunkFacts(s, out, n);
  }
}
