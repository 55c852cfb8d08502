/** mallinfo: a walk over every chunk of every segment, and the bytes it accounts for. */
module Statistics {
  import opened Sequences
  import opened Memory
  import opened Sizes
  import opened Layouts
  import opened State
  import opened HeapSteps
  import opened Chunks
  import opened Runs
  import opened SegmentList
  import opened SystemMemory
  import opened Determined

  datatype Mallinfo = Mallinfo(arena: int, ordblks: int, hblkhd: int, usmblks: int, uordblks: int, fordblks: int,
                               keepcost: int)

  /** The bytes of the chunks cs; only of the free ones when free is set. */
  function Bytes(L: Layout, cs: seq<int>, free: bool): int
    requires forall c :: c in cs ==> c in L
  {
    if cs == [] then 0
    else
      var c := cs[|cs| - 1];
      assert c in cs;
      assert forall x :: x in cs[..|cs| - 1] ==> x in cs;
      Bytes(L, cs[..|cs| - 1], free) + if free && !L[c].kind.Free? then 0 else L[c].size
  }

  function FreeCount(L: Layout, cs: seq<int>): int
    requires forall c :: c in cs ==> c in L
  {
    if cs == [] then 0
    else
      var c := cs[|cs| - 1];
      assert c in cs;
      assert forall x :: x in cs[..|cs| - 1] ==> x in cs;
      FreeCount(L, cs[..|cs| - 1]) + if L[c].kind.Free? then 1 else 0
  }

  lemma OneMoreChunk(L: Layout, cs: seq<int>, c: int)
    requires (forall x :: x in cs ==> x in L) && c in L
    ensures forall x :: x in cs + [c] <==> x in cs || x == c
    ensures Bytes(L, cs + [c], false) == Bytes(L, cs, false) + L[c].size
    ensures Bytes(L, cs + [c], true) == Bytes(L, cs, true) + if L[c].kind.Free? then L[c].size else 0
    ensures FreeCount(L, cs + [c]) == FreeCount(L, cs) + if L[c].kind.Free? then 1 else 0
  {
    assert (cs + [c])[..|cs|] == cs;
  }

  /** What the walk counts: the chunks between the first of each segment and its top or fenceposts. */
  predicate Counted(L: Layout, c: int) {
    c in L && !L[c].kind.Top? && !L[c].kind.Fence?
  }

  lemma {:induction false} TotalParts(segs: seq<Seg>, k: nat)
    requires k < |segs|
    ensures TotalSize(segs[..k + 1]) == TotalSize(segs[..k]) + segs[k].size
    ensures TotalSize(segs[..0]) == 0
  {
    if k > 0 {
      assert segs[..k + 1][1..] == segs[1..][..k] && segs[..k][1..] == segs[1..][..k - 1];
      TotalParts(segs[1..], k - 1);
    } else {
      assert segs[..1][1..] == [];
    }
  }

  /** What the head of a chunk of segment k tells the walk, and where the next chunk is. */
  lemma StepOn(s: Snap, out: set<int>, k: int, q: int, n: int)
    requires Inv(s, out) && 0 <= k < |s.segs| && q in s.L && Inside(s.segs[k], q) && n == q + s.L[q].size
    ensures ChunkSize(Rd(s.mem, q + 8)) == s.L[q].size
    ensures Counted(s.L, q) ==> (IsInuse(Rd(s.mem, q + 8)) <==> !s.L[q].kind.Free?)
    ensures (q != s.top && Rd(s.mem, q + 8) != 11) <==> Counted(s.L, q)
    ensures Counted(s.L, q) ==> n in s.L && q < n && Inside(s.segs[k], n)
    ensures Counted(s.L, q) ==> forall c :: c in s.L && q < c ==> n <= c
    ensures s.L[q].kind.Top? ==> k == 0 && q == s.top
    ensures s.L[q].kind.Fence? ==> k > 0
    ensures q >= s.segs[k].base
  {
    hide *;
    InsideIs(s.segs[k], q);
    InsideIs(s.segs[k], n);
    CountedIs(s.L, q);
    ChunkFacts(s, out, q);
    HeadShows(s, out, q);
    HeadOfIs(s.L[q]);
    KindsAre(s.L[q], s.L[q]);
    if s.L[q].kind.Fence? { FenceOfSegment(s, out, k, q); }
    if s.L[q].kind.Top? { FirstHoldsTop(s, out, k); }
    if !s.L[q].kind.Top? && !s.L[q].kind.Fence? {
      var j := HomeOf(s.segs, q, n + 16);
      InvParts(s, out);
      SegsOKIs(s);
      SegsUnfold(s.L, s.segs, s.top, s.topsize);
      InSegIs(s.segs, j, q);
      InSegIs(s.segs, k, q);
      SameSeg(s.segs, j, k, q);
      forall c | c in s.L && q < c ensures n <= c { NotBetween(s, out, q, c); }
    }
  }

  lemma CountedIs(L: Layout, c: int)
    ensures Counted(L, c) <==> c in L && !L[c].kind.Top? && !L[c].kind.Fence?
  {
  }

  /** The walk so far: the chunks cs, each once, are those of the first k segments and of segment k below q. */
  ghost predicate Walked(L: Layout, segs: seq<Seg>, k: int, q: int, cs: seq<int>)
    requires 0 <= k <= |segs|
  {
    && Distinct(cs)
    && (forall c :: c in cs ==> Counted(L, c))
    && (forall c, j :: Counted(L, c) && 0 <= j < k && Inside(segs[j], c) ==> c in cs)
    && (forall c :: c in cs ==> (exists j :: 0 <= j < k && Inside(segs[j], c))
                                || (k < |segs| && Inside(segs[k], c) && c < q))
    && (k < |segs| ==> forall c :: Counted(L, c) && Inside(segs[k], c) && c < q ==> c in cs)
  }

  lemma WalkStarts(L: Layout, segs: seq<Seg>)
    ensures segs != [] ==> Walked(L, segs, 0, segs[0].base, [])
  {
  }

  lemma WalkStep(L: Layout, segs: seq<Seg>, k: int, q: int, n: int, cs: seq<int>)
    requires 0 <= k < |segs| && Walked(L, segs, k, q, cs) && Counted(L, q) && Inside(segs[k], q) && Separate(segs)
    requires q < n && forall c :: c in L && q < c ==> n <= c
    ensures Walked(L, segs, k, n, cs + [q])
  {
    var cs' := cs + [q];
    assert forall c :: c in cs' <==> c in cs || c == q;
    NotYet(L, segs, k, q, cs);
    forall c | c in cs' ensures (exists j :: 0 <= j < k && Inside(segs[j], c)) || (Inside(segs[k], c) && c < n) {
    }
  }

  lemma NotYet(L: Layout, segs: seq<Seg>, k: int, q: int, cs: seq<int>)
    requires 0 <= k < |segs| && Walked(L, segs, k, q, cs) && Inside(segs[k], q) && Separate(segs)
    ensures q !in cs
  {
    forall j | 0 <= j < k ensures !Inside(segs[j], q) { OneHome(segs, j, k, q); }
  }

  lemma OneHome(segs: seq<Seg>, j: int, k: int, c: int)
    requires 0 <= j < k < |segs| && Separate(segs) && Inside(segs[k], c)
    ensures !Inside(segs[j], c)
  {
  }

  lemma WalkNext(L: Layout, segs: seq<Seg>, k: int, q: int, cs: seq<int>)
    requires 0 <= k < |segs| && Walked(L, segs, k, q, cs)
    requires forall c :: Counted(L, c) && Inside(segs[k], c) ==> c < q
    ensures Walked(L, segs, k + 1, if k + 1 < |segs| then segs[k + 1].base else 0, cs)
  {
    forall c, j | Counted(L, c) && 0 <= j < k + 1 && Inside(segs[j], c) ensures c in cs { }
    forall c | c in cs ensures exists j :: 0 <= j < k + 1 && Inside(segs[j], c) {
      if j :| 0 <= j < k && Inside(segs[j], c) { assert Inside(segs[j], c); } else { assert Inside(segs[k], c); }
    }
  }

  /** The walk of a segment starts at its first chunk. */
  lemma SegmentStart(s: Snap, out: set<int>, k: int, cs: seq<int>)
    requires Inv(s, out) && 0 <= k < |s.segs| && Walked(s.L, s.segs, k, s.segs[k].base, cs)
    ensures AlignUp(s.segs[k].base) in s.L && Inside(s.segs[k], AlignUp(s.segs[k].base))
    ensures Walked(s.L, s.segs, k, AlignUp(s.segs[k].base), cs)
  {
    hide *;
    SegOf(s, out, k);
    HasSegments(s, out);
    AlignUpBounds(s.segs[k].base);
    InsideIs(s.segs[k], AlignUp(s.segs[k].base));
    forall c | Counted(s.L, c) && Inside(s.segs[k], c) ensures c >= AlignUp(s.segs[k].base) {
      CountedIs(s.L, c);
      InsideIs(s.segs[k], c);
      ChunkFacts(s, out, c);
      LeastAligned(s.segs[k].base, c);
    }
    WalkLater(s.L, s.segs, k, s.segs[k].base, AlignUp(s.segs[k].base), cs);
  }

  lemma WalkLater(L: Layout, segs: seq<Seg>, k: int, q: int, q': int, cs: seq<int>)
    requires 0 <= k < |segs| && Walked(L, segs, k, q, cs) && q <= q'
    requires forall c :: Counted(L, c) && Inside(segs[k], c) ==> c >= q'
    ensures Walked(L, segs, k, q', cs)
  {
  }

  /** Nothing is counted at or beyond top or a fencepost. */
  lemma SegmentEnd(s: Snap, out: set<int>, k: int, q: int)
    requires Inv(s, out) && 0 <= k < |s.segs| && q in s.L && Inside(s.segs[k], q) && !Counted(s.L, q)
    ensures forall c :: Counted(s.L, c) && Inside(s.segs[k], c) ==> c < q
    ensures k == 0 ==> q == s.top
  {
    hide *;
    CountedIs(s.L, q);
    InsideIs(s.segs[k], q);
    ChunkFacts(s, out, q);
    SegOf(s, out, k);
    HasSegments(s, out);
    if s.L[q].kind.Fence? { FenceOfSegment(s, out, k, q); }
    forall c | Counted(s.L, c) && Inside(s.segs[k], c) ensures c < q {
      CountedIs(s.L, c);
      InsideIs(s.segs[k], c);
      ChunkFacts(s, out, c);
      if s.L[q].kind.Top? && q < c {
        ReachAtLeast(s.L[c]);
        InInside(s, out, k, c);
        InThisSeg(s.segs, k, q, c + 16);
        NothingAboveTop(s, out, q, c);
      }
    }
  }

  lemma InInside(s: Snap, out: set<int>, k: int, c: int)
    requires Inv(s, out) && 0 <= k < |s.segs| && c in s.L && Inside(s.segs[k], c)
    ensures c + 16 <= s.segs[k].base + s.segs[k].size
  {
    hide *;
    InsideIs(s.segs[k], c);
    ChunkFacts(s, out, c);
    ReachAtLeast(s.L[c]);
    var j := HomeOf(s.segs, c, c + Reach(s.L[c]));
    InvParts(s, out);
    SegsOKIs(s);
    SegsUnfold(s.L, s.segs, s.top, s.topsize);
    InSegIs(s.segs, j, c);
    InSegIs(s.segs, k, c);
    SameSeg(s.segs, j, k, c);
  }

  /** What the walk of one segment adds: its chunks, each once, and no more bytes than lie between its base and q. */
  method WalkSegment(m: MallocState, k: int, base: int, size: int, ghost cs0: seq<int>)
    returns (sum: int, mfree: int, nfree: int, ghost q: int, ghost cs: seq<int>)
    requires m.Valid() && 0 <= k < |m.segs| && base == m.segs[k].base && size == m.segs[k].size
    requires Walked(m.L, m.segs, k, base, cs0) && forall c :: c in cs0 ==> c in m.L
    ensures Walked(m.L, m.segs, k + 1, if k + 1 < |m.segs| then m.segs[k + 1].base else 0, cs)
    ensures forall c :: c in cs ==> c in m.L
    ensures sum == Bytes(m.L, cs, false) - Bytes(m.L, cs0, false)
      && mfree == Bytes(m.L, cs, true) - Bytes(m.L, cs0, true)
    ensures nfree == FreeCount(m.L, cs) - FreeCount(m.L, cs0) && 0 <= mfree <= sum
    ensures sum <= size && (k == 0 ==> sum + m.topsize + 80 <= size)
  {
    hide *;
    ghost var s, out := m.Now(), {m.dv};
    NowIs(m);
    ValidIs(m);
    ConsistentIs(m, out);
    InvParts(s, out);
    SegsOKIs(s);
    SegsUnfold(m.L, m.segs, m.top, m.topsize);
    SegmentStart(s, out, k, cs0);
    AlignUpBounds(base);
    AlignOffsetIs(base);
    var p := base + AlignOffset(base + 16);
    sum, mfree, nfree, cs := 0, 0, 0, cs0;
    while base <= p < base + size && p != m.top && Rd(m.mem, p + 8) != 11
      invariant p in m.L && Inside(m.segs[k], p) && Walked(m.L, m.segs, k, p, cs) && forall c :: c in cs ==> c in m.L
      invariant sum == Bytes(m.L, cs, false) - Bytes(m.L, cs0, false)
        && mfree == Bytes(m.L, cs, true) - Bytes(m.L, cs0, true)
      invariant nfree == FreeCount(m.L, cs) - FreeCount(m.L, cs0)
      invariant 0 <= mfree <= sum <= p - base
      decreases base + size - p
    {
      ghost var n := p + m.L[p].size;
      StepOn(s, out, k, p, n);
      ChunkFacts(s, out, p);
      var sz := ChunkSize(Rd(m.mem, p + 8));
      sum := sum + sz;
      if !IsInuse(Rd(m.mem, p + 8)) {
        mfree := mfree + sz;
        nfree := nfree + 1;
      }
      OneMoreChunk(m.L, cs, p);
      WalkStep(m.L, m.segs, k, p, n, cs);
      cs := cs + [p];
      p := p + sz;
    }
    StepOn(s, out, k, p, p + m.L[p].size);
    InsideIs(m.segs[k], p);
    SegmentEnd(s, out, k, p);
    WalkNext(m.L, m.segs, k, p, cs);
    HasSegments(s, out);
    FirstHoldsTop(s, out, 0);
    q := p;
  }

  /** Every chunk that is counted is passed once. */
  ghost predicate EachOnce(L: Layout, cs: seq<int>) {
    && Distinct(cs) && (forall c :: c in cs ==> c in L)
    && (forall c :: c in L ==> (c in cs <==> !L[c].kind.Top? && !L[c].kind.Fence?))
  }

  lemma AllWalked(s: Snap, out: set<int>, cs: seq<int>)
    requires Inv(s, out) && Walked(s.L, s.segs, |s.segs|, 0, cs)
    ensures EachOnce(s.L, cs)
  {
    hide *;
    WalkedAll(s.L, s.segs, cs);
    forall c | c in s.L ensures c in cs <==> !s.L[c].kind.Top? && !s.L[c].kind.Fence? {
      CountedIs(s.L, c);
      ChunkFacts(s, out, c);
      ReachAtLeast(s.L[c]);
      var j := HomeOf(s.segs, c, c + Reach(s.L[c]));
      InsideIs(s.segs[j], c);
    }
    forall c | c in cs ensures c in s.L { CountedIs(s.L, c); }
    EachOnceIs(s.L, cs);
  }

  lemma EachOnceIs(L: Layout, cs: seq<int>)
    ensures EachOnce(L, cs) <==> (
      Distinct(cs) && (forall c :: c in cs ==> c in L)
      && (forall c :: c in L ==> (c in cs <==> !L[c].kind.Top? && !L[c].kind.Fence?)))
  {
  }

  lemma WalkedAll(L: Layout, segs: seq<Seg>, cs: seq<int>)
    requires Walked(L, segs, |segs|, 0, cs)
    ensures Distinct(cs) && (forall c :: c in cs ==> Counted(L, c))
    ensures forall c, j :: Counted(L, c) && 0 <= j < |segs| && Inside(segs[j], c) ==> c in cs
  {
  }

  /** internal_mallinfo: all zero before the first request, else what the walk over the segments finds. */
  method InternalMallinfo(m: MallocState) returns (nm: Mallinfo, ghost cs: seq<int>)
    requires m.Valid()
    ensures m.top == 0 ==> nm == Mallinfo(0, 0, 0, 0, 0, 0, 0)
    ensures m.top != 0 ==> EachOnce(m.L, cs) && nm.usmblks == m.maxFootprint && nm.keepcost == m.topsize
                           && nm.arena == m.topsize + 80 + Bytes(m.L, cs, false) <= m.footprint <= nm.usmblks
                           && nm.fordblks == m.topsize + 80 + Bytes(m.L, cs, true) <= nm.arena
                           && nm.ordblks == 1 + FreeCount(m.L, cs) && nm.uordblks + nm.fordblks == m.footprint
                           && nm.uordblks >= 0 && nm.hblkhd == m.footprint - nm.arena >= 0
  {
    nm, cs := Mallinfo(0, 0, 0, 0, 0, 0, 0), [];
    if m.top != 0 {
      nm, cs := WalkSegments(m);
    }
  }

  /**
   * The walk passes each chunk once; what is free and what is in use add up to the footprint, and what the walk finds,
   * with top and its foot, never exceeds it.
   */
  method WalkSegments(m: MallocState) returns (nm: Mallinfo, ghost cs: seq<int>)
    requires m.Valid() && m.top != 0
    ensures EachOnce(m.L, cs)
    ensures nm.arena == m.topsize + 80 + Bytes(m.L, cs, false) <= m.footprint <= nm.usmblks
    ensures nm.fordblks == m.topsize + 80 + Bytes(m.L, cs, true) <= nm.arena && nm.ordblks == 1 + FreeCount(m.L, cs)
    ensures nm.uordblks + nm.fordblks == m.footprint && nm.uordblks >= 0 && nm.hblkhd == m.footprint - nm.arena >= 0
    ensures nm.keepcost == m.topsize && nm.usmblks == m.maxFootprint
  {
    hide *;
    ghost var snap, out := m.Now(), {m.dv};
    NowIs(m);
    ValidIs(m);
    ConsistentIs(m, out);
    HasSegments(snap, out);
    WalkStarts(m.L, m.segs);
    EmptyBytes(m.L);
    TopFootIs();
    SpAtIs(m, 0);
    SegAtIs();
    var nfree := 1;
    var mfree := m.topsize + TOP_FOOT_SIZE;
    var sum := mfree;
    var s, k := SEG_AT, 0;
    cs := [];
    TotalParts(m.segs, 0);
    while s != 0
      invariant 0 <= k <= |m.segs| && s == SpAt(m.segs, k) && (s == 0 ==> k == |m.segs|) && (s != 0 ==> k < |m.segs|)
      invariant Walked(m.L, m.segs, k, if k < |m.segs| then m.segs[k].base else 0, cs)
        && forall c :: c in cs ==> c in m.L
      invariant sum == m.topsize + 80 + Bytes(m.L, cs, false) && mfree == m.topsize + 80 + Bytes(m.L, cs, true)
      invariant nfree == 1 + FreeCount(m.L, cs) && mfree <= sum
      invariant sum <= TotalSize(m.segs[..k]) + if k == 0 then m.topsize + 80 else 0
      decreases |m.segs| - k
    {
      NodeIs(m, out, k);
      var dsum, dfree, dn;
      ghost var q;
      dsum, dfree, dn, q, cs := WalkSegment(m, k, SegBase(m, s), SegSize(m, s), cs);
      sum, mfree, nfree := sum + dsum, mfree + dfree, nfree + dn;
      TotalParts(m.segs, k);
      s := SegNext(m, s);
      k := k + 1;
      if s == 0 { Exhausted(m, out, k); } else { Continues(m, k); }
    }
    assert m.segs[..|m.segs|] == m.segs;
    AllWalked(snap, out, cs);
    nm := Mallinfo(sum, nfree, m.footprint - sum, m.maxFootprint, m.footprint - mfree, mfree, m.topsize);
  }

  lemma EmptyBytes(L: Layout)
    ensures Bytes(L, [], false) == 0 && Bytes(L, [], true) == 0 && FreeCount(L, []) == 0
  {
  }
}
