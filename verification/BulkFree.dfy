/** bulk_free: a whole array of blocks is given back, neighbours joined first where the array has them side by side. */
module BulkFree {
  import opened Memory
  import opened Sizes
  import opened Layouts
  import opened State
  import opened HeapSteps
  import opened Chunks
  import opened Carve
  import opened Binning
  import opened Runs
  import opened Asking
  import opened Free
  import opened Determined

  /** No block occurs twice in the array. */
  ghost predicate NoRepeats(s: seq<int>) {
    forall i, j :: 0 <= i < j < |s| && s[i] != 0 ==> s[i] != s[j]
  }

  /** The blocks of the heap are K and those that s still names. */
  ghost predicate Remaining(B: map<int, int>, K: map<int, int>, s: seq<int>) {
    && NoRepeats(s)
    && (forall x :: x in s && x != 0 ==> x - 16 in B && x - 16 !in K)
    && (forall c :: c in B ==> c in K || c + 16 in s)
    && (forall c :: c in K ==> c in B && B[c] == K[c])
  }

  ghost function Without(B: map<int, int>, s: seq<int>): map<int, int> {
    map c | c in B && c + 16 !in s :: B[c]
  }

  lemma AtStart(B: map<int, int>, s: seq<int>)
    requires NoRepeats(s) && forall x :: x in s && x != 0 ==> x - 16 in B
    ensures Remaining(B, Without(B, s), s)
  {
  }

  lemma AtEnd(B: map<int, int>, K: map<int, int>)
    requires Remaining(B, K, [])
    ensures B == K
  {
    hide *;
    var none: seq<int> := [];
    RestIs(B, K, none);
    forall c ensures c in B <==> c in K {
      NotEmpty(none, c + 16);
    }
    assert forall c :: c in B.Keys ==> B[c] == K[c];
  }

  lemma NotEmpty(s: seq<int>, x: int)
    ensures x in s ==> |s| > 0
  {
  }

  lemma Rest(s: seq<int>)
    requires s != []
    ensures forall x :: x in s <==> x == s[0] || x in s[1..]
    ensures NoRepeats(s) ==> NoRepeats(s[1..]) && (s[0] != 0 ==> s[0] !in s[1..])
  {
    forall x | x in s ensures x == s[0] || x in s[1..] {
      var i :| 0 <= i < |s| && s[i] == x;
      if i > 0 { assert s[1..][i - 1] == x; }
    }
    if NoRepeats(s) {
      forall i, j | 0 <= i < j < |s[1..]| && s[1..][i] != 0 ensures s[1..][i] != s[1..][j] {
        assert s[i + 1] != s[j + 1];
      }
    }
  }

  lemma RestIs(B: map<int, int>, K: map<int, int>, s: seq<int>)
    ensures Remaining(B, K, s) <==>
      && NoRepeats(s)
      && (forall x :: x in s && x != 0 ==> x - 16 in B && x - 16 !in K)
      && (forall c :: c in B ==> c in K || c + 16 in s)
      && (forall c :: c in K ==> c in B && B[c] == K[c])
  {
  }

  /** The first named block is gone, or was no block. */
  lemma OneGone(B: map<int, int>, B': map<int, int>, K: map<int, int>, s: seq<int>)
    requires Remaining(B, K, s) && s != [] && B' == B - {s[0] - 16} && (s[0] == 0 ==> -16 !in B)
    ensures Remaining(B', K, s[1..])
  {
    hide *;
    Rest(s);
    RestIs(B, K, s);
    RestIs(B', K, s[1..]);
  }

  /** The first two named blocks became one, named by the second entry. */
  lemma Joined(B: map<int, int>, B': map<int, int>, K: map<int, int>, s: seq<int>, size: int)
    requires Remaining(B, K, s) && |s| >= 2 && s[0] != 0 && s[1] != 0
    requires B' == (B - {s[0] - 16, s[1] - 16})[s[0] - 16 := size]
    ensures Remaining(B', K, [s[0]] + s[2..])
  {
    hide *;
    var t := [s[0]] + s[2..];
    Rest(s);
    Rest(s[1..]);
    Rest(t);
    assert s[1..][1..] == s[2..] && t[1..] == s[2..];
    RestIs(B, K, s);
    RestIs(B', K, t);
    NoRepeatsCons(s[0], s[2..]);
  }

  lemma NoRepeatsCons(x: int, s: seq<int>)
    requires NoRepeats(s) && x !in s
    ensures NoRepeats([x] + s)
  {
  }

  /** Two adjacent blocks become one. */
  method JoinTwo(m: MallocState, p: int, psize: int, next: int)
    requires m.Valid() && p in m.L && m.L[p].kind.Live? && m.L[p].size == psize && next == p + psize
    requires next in m.L && m.L[next].kind.Live?
    modifies m`mem, m`L
    ensures m.Valid() && Blocks(m.L) == (Blocks(old(m.L)) - {p, next})[p := psize + old(m.L)[next].size]
    ensures PayloadKept(old(m.mem), m.mem, Blocks(old(m.L)) - {p, next})
    ensures p in m.L && m.L[p].kind.Live?
  {
    hide *;
    ghost var s0, out, L0 := m.Now(), {m.dv}, m.L;
    LiveFacts(m, p, next);
    LiveFacts(m, next, next + m.L[next].size);
    var newsize := ChunkSize(Rd(m.mem, next + 8)) + psize;
    ghost var n := p + newsize;
    NowIs(m);
    ValidIs(m);
    ConsistentIs(m, out);
    LooseIs(s0, p);
    LooseIs(s0, next);
    RunOf2(s0, out, p, next, n);
    BlocksIs(m.L);
    OnlyLive(m.L, p, n, {p, next});
    DvOutside(s0, out, m.dv, m.dvsize, p, n);
    BeyondSame(out, p, n);
    JoinRun(m, p, newsize, out);
    DvElsewhere(L0, m.L, p, n, m.dv, m.dvsize);
    ValidIs(m);
  }

  lemma NullIsNoBlock(m: MallocState)
    requires m.Valid()
    ensures -16 !in Blocks(m.L)
  {
    hide *;
    BlocksIs(m.L);
    if -16 in m.L { ValidIs(m); NowIs(m); ConsistentIs(m, {m.dv}); ChunkFacts(m.Now(), {m.dv}, -16); }
  }

  /** internal_bulk_free: exactly the blocks named in the array are gone, and the array is cleared. */
  method BulkFreeMem(m: MallocState, a: array<int>) returns (unfreed: nat)
    requires m.Valid() && NoRepeats(a[..]) && forall x :: x in a[..] && x != 0 ==> x - 16 in Blocks(m.L)
    modifies m, a
    ensures m.Valid() && Blocks(m.L) == Without(Blocks(old(m.L)), old(a[..]))
    ensures PayloadKept(old(m.mem), m.mem, Blocks(m.L))
    ensures unfreed == 0 && forall i :: 0 <= i < a.Length ==> a[i] == 0
    ensures m.footprint <= old(m.footprint) && m.segs == Trimmed(old(m.segs), old(m.footprint) - m.footprint)
    ensures m.maxFootprint == old(m.maxFootprint) && m.footprintLimit == old(m.footprintLimit)
    ensures var t := m.topsize + old(m.footprint) - m.footprint;
            if t > old(m.trimCheck)
            then GaveBack(old(m.Side()).(topsize := t), m.Side())
            else m.asked == old(m.asked) && m.footprint == old(m.footprint) && m.noncontiguous == old(m.noncontiguous)
  {
    hide *;
    SideIs(m);
    unfreed := 0;
    ghost var K, m0, f0 := Without(Blocks(m.L), a[..]), m.mem, m.footprint;
    AtStart(Blocks(m.L), a[..]);
    TrimmedIs(m.segs, 0);
    PayloadRefl(m.mem, K);
    var i := 0;
    assert a[0..] == a[..];
    while i < a.Length
      invariant 0 <= i <= a.Length && m.Valid() && Remaining(Blocks(m.L), K, a[i..])
      invariant PayloadKept(m0, m.mem, K) && m.footprint == f0 && m.segs == old(m.segs)
      invariant m.asked == old(m.asked) && m.noncontiguous == old(m.noncontiguous) && m.trimCheck == old(m.trimCheck)
      invariant m.maxFootprint == old(m.maxFootprint) && m.footprintLimit == old(m.footprintLimit)
      invariant forall j :: 0 <= j < i ==> a[j] == 0
    {
      FreeOne(m, a, i, K, m0);
      i := i + 1;
    }
    assert a[i..] == [];
    AtEnd(Blocks(m.L), K);
    if m.topsize > m.trimCheck {
      ghost var m1, c := m.mem, m.Side();
      SideIs(m);
      var ok := SysTrim(m, 0);
      SideIs(m);
      GaveBackIs(c, m.Side());
      PayloadThen(m0, m1, m.mem, K, K, K);
    }
  }

  /** The block and the next in the array, which is its neighbour, become one. */
  method JoinNext(m: MallocState, p: int, psize: int, next: int, ghost s: seq<int>, ghost K: map<int, int>,
                  ghost m0: Mem)
    requires m.Valid() && Remaining(Blocks(m.L), K, s) && PayloadKept(m0, m.mem, K)
    requires |s| >= 2 && s[0] == p + 16 != 0 && s[1] == next + 16 != 0
    requires p in m.L && m.L[p].kind.Live? && m.L[p].size == psize && next == p + psize
    modifies m`mem, m`L
    ensures m.Valid() && Remaining(Blocks(m.L), K, [s[0]] + s[2..]) && PayloadKept(m0, m.mem, K)
  {
    hide *;
    ghost var B, m1 := Blocks(m.L), m.mem;
    RestIs(B, K, s);
    BlocksIs(m.L);
    assert s[0] in s && s[1] in s;
    ghost var size := psize + m.L[next].size;
    JoinTwo(m, p, psize, next);
    Joined(B, Blocks(m.L), K, s, size);
    PayloadThen(m0, m1, m.mem, K, K, B - {p, next});
  }

  /** One turn of the loop. */
  method FreeOne(m: MallocState, a: array<int>, i: nat, ghost K: map<int, int>, ghost m0: Mem)
    requires i < a.Length && m.Valid() && Remaining(Blocks(m.L), K, a[i..]) && PayloadKept(m0, m.mem, K)
    modifies m`mem, m`smallmap, m`treemap, m`D, m`rings, m`trees, m`L, m`top, m`topsize, m`dv, m`dvsize, a
    ensures m.Valid() && Remaining(Blocks(m.L), K, a[i + 1..]) && PayloadKept(m0, m.mem, K)
    ensures a[i] == 0 && forall j :: 0 <= j < i ==> a[j] == old(a[j])
  {
    hide *;
    ghost var B, s, m1 := Blocks(m.L), a[i..], m.mem;
    RestIs(B, K, s);
    NullIsNoBlock(m);
    BlocksIs(m.L);
    assert s[0] == a[i] && s[0] in s && s[1..] == a[i + 1..];
    var mem := a[i];
    if mem != 0 {
      var p := mem - 16;
      LiveFacts(m, p, p + m.L[p].size);
      var psize := ChunkSize(Rd(m.mem, p + 8));
      a[i] := 0;
      if p >= m.leastAddr && IsInuse(Rd(m.mem, p + 8)) {
        var next := p + psize;
        if i + 1 != a.Length && a[i + 1] == next + 16 {
          assert s[1] == a[i + 1] && s[1] in s;
          a[i + 1] := mem;
          assert a[i + 1..] == [s[0]] + s[2..];
          JoinNext(m, p, psize, next, s, K, m0);
        } else {
          DisposeChunk(m, p, psize);
          assert a[i + 1..] == s[1..];
          OneGone(B, Blocks(m.L), K, s);
          PayloadThen(m0, m1, m.mem, K, K, Blocks(m.L));
        }
      } else {
        assert false;
      }
    } else {
      assert B - {s[0] - 16} == B;
      OneGone(B, B, K, s);
    }
  }

  // ---- the same by single calls ----

  lemma TrimmedTwice(segs: seq<Seg>, a: int, b: int)
    requires a >= 0 && b >= 0
    ensures Trimmed(Trimmed(segs, a), b) == Trimmed(segs, a + b)
  {
    if segs != [] && a > 0 && b > 0 {
      assert Trimmed(Trimmed(segs, a), b)[0] == Trimmed(segs, a + b)[0];
    }
  }

  /** The pointers, freed one at a time. */
  method FreeEach(m: MallocState, ptrs: seq<int>)
    requires m.Valid() && NoRepeats(ptrs) && forall x :: x in ptrs && x != 0 ==> x - 16 in Blocks(m.L)
    modifies m
    ensures m.Valid() && Blocks(m.L) == Without(Blocks(old(m.L)), ptrs) && PayloadKept(old(m.mem), m.mem, Blocks(m.L))
    ensures m.footprint <= old(m.footprint) && m.segs == Trimmed(old(m.segs), old(m.footprint) - m.footprint)
  {
    hide *;
    ghost var K, m0, f0, segs0 := Without(Blocks(m.L), ptrs), m.mem, m.footprint, m.segs;
    AtStart(Blocks(m.L), ptrs);
    PayloadRefl(m.mem, K);
    TrimmedIs(m.segs, 0);
    var i := 0;
    assert ptrs[0..] == ptrs;
    while i < |ptrs|
      invariant 0 <= i <= |ptrs| && m.Valid() && Remaining(Blocks(m.L), K, ptrs[i..]) && PayloadKept(m0, m.mem, K)
      invariant m.footprint <= f0 && m.segs == Trimmed(segs0, f0 - m.footprint)
    {
      ghost var f1 := m.footprint;
      assert ptrs[i..][0] == ptrs[i] && ptrs[i..][1..] == ptrs[i + 1..];
      FreeNext(m, ptrs[i], ptrs[i..], K, m0);
      TrimmedTwice(segs0, f0 - f1, f1 - m.footprint);
      i := i + 1;
    }
    assert ptrs[i..] == [];
    AtEnd(Blocks(m.L), K);
  }

  /** The first of the pointers that are left is freed. */
  method FreeNext(m: MallocState, mem: int, ghost s: seq<int>, ghost K: map<int, int>, ghost m0: Mem)
    requires m.Valid() && s != [] && s[0] == mem && Remaining(Blocks(m.L), K, s) && PayloadKept(m0, m.mem, K)
    modifies m
    ensures m.Valid() && Remaining(Blocks(m.L), K, s[1..]) && PayloadKept(m0, m.mem, K)
    ensures m.footprint <= old(m.footprint) && m.segs == Trimmed(old(m.segs), old(m.footprint) - m.footprint)
  {
    hide *;
    ghost var B, m1 := Blocks(m.L), m.mem;
    RestIs(B, K, s);
    NullIsNoBlock(m);
    assert s[0] in s;
    FreeMem(m, mem);
    if mem == 0 { assert B - {s[0] - 16} == B; }
    OneGone(B, Blocks(m.L), K, s);
    RestIs(Blocks(m.L), K, s[1..]);
    PayloadThen(m0, m1, m.mem, K, K, Blocks(m.L));
  }

  lemma SameWithout(B: map<int, int>, s: seq<int>, t: seq<int>)
    requires forall x :: x in s <==> x in t
    ensures Without(B, s) == Without(B, t)
  {
  }

  lemma TrimmedAlike(segs: seq<Seg>, a: int, b: int)
    ensures AlikeSegs(Trimmed(segs, a), Trimmed(segs, b))
    ensures segs != [] ==> Trimmed(segs, a) != [] && Trimmed(segs, b) != []
    ensures segs != [] ==> Trimmed(segs, a)[0].size - Trimmed(segs, b)[0].size == b - a
  {
  }

  /**
   * Two heaps with the same blocks and segments. In one the array is freed in bulk, in the other its pointers one at a
   * time, in any order. The chunks are then the same, but for the end of top, which is where the system left it.
   */
  method BulkIsOneByOne(m: MallocState, m': MallocState, a: array<int>, ptrs: seq<int>)
    requires m != m' && m.Valid() && m'.Valid() && Blocks(m.L) == Blocks(m'.L) && m.segs == m'.segs
    requires NoRepeats(a[..]) && forall x :: x in a[..] && x != 0 ==> x - 16 in Blocks(m.L)
    requires NoRepeats(ptrs) && forall x :: x in ptrs <==> x in a[..]
    modifies m, m', a
    ensures m.Valid() && m'.Valid() && m.top == m'.top && SameButTop(m.L, m'.L, m.top)
    ensures m'.topsize - m.topsize == m'.footprint - m.footprint
    ensures m.footprint == m'.footprint ==> m.L == m'.L && m.topsize == m'.topsize
  {
    hide *;
    ghost var segs, B, names := m.segs, Blocks(m.L), a[..];
    ValidIs(m);
    NowIs(m);
    ConsistentIs(m, {m.dv});
    ghost var f := m.footprint;
    ValidIs(m');
    NowIs(m');
    ConsistentIs(m', {m'.dv});
    assert m'.footprint == f;
    SameWithout(B, names, ptrs);
    var unfreed := BulkFreeMem(m, a);
    FreeEach(m', ptrs);
    TrimmedAlike(segs, f - m.footprint, f - m'.footprint);
    ValidIs(m);
    NowIs(m);
    ConsistentIs(m, {m.dv});
    ValidIs(m');
    NowIs(m');
    ConsistentIs(m', {m'.dv});
    LiveBlocksDetermineHeap(m.Now(), {m.dv}, m'.Now(), {m'.dv});
    if segs == [] { TrimmedEmpty(f - m.footprint); TrimmedEmpty(f - m'.footprint); TotalEmpty(); }
  }

  lemma TrimmedEmpty(r: int)
    ensures Trimmed([], r) == []
  {
  }

  lemma TotalEmpty()
    ensures TotalSize([]) == 0
  {
  }
}
