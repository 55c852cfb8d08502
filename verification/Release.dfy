/** What becomes of a chunk that is given back: the ways it merges with the chunk after it. */
module Release {
  import opened Memory
  import opened Layouts
  import opened State
  import opened HeapSteps
  import opened Chunks
  import opened Carve
  import opened Binning
  import opened Runs

  /** The live chunk b is on its way back; p is b itself, or the free chunk before it, already out of its bin. */
  ghost predicate Pending(m: MallocState, p: int, b: int, next: int)
    reads m
  {
    && m.Consistent({m.dv} + {p}) && DvOK(m.L, m.dv, m.dvsize)
    && b in m.L && m.L[b].kind.Live? && next == b + m.L[b].size
    && p in m.L && m.L[p].pin
    && (b != p ==> m.L[p].kind.Free? && b == p + m.L[p].size)
  }

  lemma PendingIs(m: MallocState, p: int, b: int, next: int)
    ensures Pending(m, p, b, next) <==>
      && m.Consistent({m.dv} + {p}) && DvOK(m.L, m.dv, m.dvsize)
      && b in m.L && m.L[b].kind.Live? && next == b + m.L[b].size
      && p in m.L && m.L[p].pin
      && (b != p ==> m.L[p].kind.Free? && b == p + m.L[p].size)
  {
  }

  /** What is known of the run from p to next. */
  lemma PendingFacts(m: MallocState, p: int, b: int, next: int)
    requires Pending(m, p, b, next)
    ensures Inv(m.Now(), {m.dv} + {p}) && Run(m.Now(), p, next) && next in m.L && m.L[next].pin && p > 0
    ensures next - p >= 32 && (next - p) % 16 == 0 && p <= b < next
    ensures BlocksOutside(m.L, p, next) == Blocks(m.L) - {b} && b in Blocks(m.L)
    ensures forall c :: c in m.L && p <= c < next ==> c == p || c == b
    ensures m.dv == p || m.dv < p || m.dv >= next
    ensures Cin(m.L[next].kind) || m.L[next].kind.Free? || m.L[next].kind.Top?
  {
    hide *;
    PendingIs(m, p, b, next);
    ConsistentIs(m, {m.dv} + {p});
    NowIs(m);
    var s := m.Now();
    ChunkFacts(s, {m.dv} + {p}, b);
    ChunkFacts(s, {m.dv} + {p}, p);
    HeadShows(s, {m.dv} + {p}, next);
    HeadOfIs(m.L[b]);
    LooseIs(s, b);
    LooseIs(s, p);
    if p == b { RunOf1(s, {m.dv} + {p}, b); } else { RunOf2(s, {m.dv} + {p}, p, b, next); }
    BlocksIs(m.L);
    OnlyLive(m.L, p, next, {b});
    DvIs(m.L, m.dv, m.dvsize);
  }

  /** The run joins top. */
  method IntoTop(m: MallocState, p: int, psize: int, ghost b: int)
    requires Pending(m, p, b, p + psize) && p + psize == m.top
    modifies m`mem, m`L, m`top, m`topsize, m`dv, m`dvsize
    ensures m.Valid() && Blocks(m.L) == Blocks(old(m.L)) - {b} && PayloadKept(old(m.mem), m.mem, Blocks(m.L))
    ensures m.top == p && m.topsize == old(m.topsize) + psize && m.dv == if old(m.dv) == p then 0 else old(m.dv)
    ensures forall c :: c in old(m.L) && c < p ==> c in m.L && m.L[c] == old(m.L)[c]
  {
    hide *;
    PendingFacts(m, p, b, p + psize);
    PendingIs(m, p, b, p + psize);
    NowIs(m);
    DvIs(m.L, m.dv, m.dvsize);
    TopAlone(m.Now(), {m.dv} + {p});
    ghost var n := m.top;
    ghost var out := if p == m.dv then {} else {m.dv};
    BeyondPair(m.dv, p, p, n);
    JoinTop(m, p, psize, {m.dv} + {p});
    ConsistentIs(m, out);
    NowIs(m);
    if p == m.dv {
      m.dv := 0;
      m.dvsize := 0;
      DvIs(m.L, 0, 0);
    }
    NowIs(m);
    NoZero(m.Now(), out);
    Reout(m.Now(), out, {m.dv});
    ConsistentIs(m, {m.dv});
    ValidIs(m);
  }

  /** The run and the designated victim after it become the victim. */
  method IntoDv(m: MallocState, p: int, psize: int, ghost b: int)
    requires Pending(m, p, b, p + psize) && p + psize == m.dv
    modifies m`mem, m`L, m`dv, m`dvsize
    ensures m.dv == p && m.dvsize == old(m.dvsize) + psize && old(m.dvsize) > 0
    ensures m.Valid() && Blocks(m.L) == Blocks(old(m.L)) - {b} && PayloadKept(old(m.mem), m.mem, Blocks(m.L))
    ensures forall c :: c in old(m.L) && c < p ==> c in m.L && m.L[c] == old(m.L)[c]
  {
    hide *;
    ghost var s0, out := m.Now(), {m.dv} + {p};
    PendingFacts(m, p, b, p + psize);
    PendingIs(m, p, b, p + psize);
    NowIs(m);
    DvPositive(s0, out, m.dv, m.dvsize);
    AndNext(s0, out, p, b, m.dv, m.dv + m.dvsize);
    ConsistentIs(m, out);
    BeyondPair(m.dv, p, p, m.dv + m.dvsize);
    var dsize := m.dvsize + psize;
    m.dvsize := dsize;
    m.dv := p;
    NowIs(m);
    ConsistentIs(m, out);
    FreeRunFooted(m, p, dsize, out);
    NowIs(m);
    assert {} + {p} == {p};
    DvIs(m.L, m.dv, m.dvsize);
    SameOutsideIs(s0.L, m.L, p, p + dsize);
    ValidIs(m);
  }

  /** The run together with the unbinned free chunk x after it, which ends at n. */
  lemma AndNext(s: Snap, out: set<int>, p: int, b: int, x: int, n: int)
    requires Inv(s, out) && Run(s, p, x) && x in s.L && s.L[x].kind.Free? && x in out && n == x + s.L[x].size
      && p <= b < x
    requires forall c :: c in s.L && p <= c < x ==> c == p || c == b
    requires BlocksOutside(s.L, p, x) == Blocks(s.L) - {b} && (x - p) % 16 == 0 && p < x
    ensures Run(s, p, n) && n in s.L && !s.L[n].pin && Cin(s.L[n].kind) && n - p >= 32 && (n - p) % 16 == 0
    ensures BlocksOutside(s.L, p, n) == Blocks(s.L) - {b}
    ensures forall c :: c in s.L && p <= c < n ==> c == p || c == b || c == x
  {
    hide *;
    ChunkFacts(s, out, x);
    HeadOfIs(s.L[x]);
    RunOf1(s, out, x);
    RunAppend(s, out, p, x, n);
    BlocksIs(s.L);
    BlocksOutsideIs(s.L, p, x);
    BlocksOutsideIs(s.L, p, n);
    assert x !in Blocks(s.L);
    SameOutsideBlocks(s.L, p, x, n);
  }

  lemma SameOutsideBlocks(L: Layout, p: int, x: int, n: int)
    requires x <= n && forall c :: c in Blocks(L) ==> c < x || c >= n
    ensures BlocksOutside(L, p, n) == BlocksOutside(L, p, x) || p > x
  {
  }

  /** After the run and what it merges with became the free chunk p: p stays the victim or goes to its bin. */
  method Settle(m: MallocState, p: int, size: int, ghost n: int, ghost L0: Layout, ghost m0: Mem)
    requires m.Consistent((if m.dv == p then {} else {m.dv}) + {p}) && n == p + size && p > 0
    requires SameOutside(L0, m.L, p, n) && p in m.L && m.L[p] == Chunk(Free, size, true)
    requires n in L0 ==> n in m.L && m.L[n].kind == L0[n].kind && m.L[n].size == L0[n].size
    requires m.dv != p ==> DvOK(L0, m.dv, m.dvsize) && (m.dv == 0 || m.dv < p || m.dv >= n)
    requires PayloadKept(m0, m.mem, Blocks(m.L))
    modifies m`mem, m`smallmap, m`treemap, m`D, m`rings, m`trees, m`dvsize
    ensures m.Valid() && PayloadKept(m0, m.mem, Blocks(m.L))
  {
    hide *;
    ghost var m1 := m.mem;
    if p == m.dv {
      assert {} + {p} == {p};
      NowIs(m);
      ConsistentIs(m, {p});
      m.dvsize := size;
      NowIs(m);
      ConsistentIs(m, {p});
      DvIs(m.L, m.dv, m.dvsize);
    } else {
      DvElsewhere(L0, m.L, p, n, m.dv, m.dvsize);
      InsertChunk(m, p, size, {m.dv} + {p});
      assert {m.dv} + {p} - {p} == {m.dv};
      PayloadThen(m0, m1, m.mem, Blocks(m.L), Blocks(m.L), Blocks(m.L));
    }
    ValidIs(m);
  }

  /** The run and the binned free chunk after it become one free chunk. */
  method IntoNext(m: MallocState, p: int, psize0: int, nsize: int, clear: bool, ghost b: int)
    requires Pending(m, p, b, p + psize0) && p + psize0 in m.L && m.L[p + psize0].kind.Free? && p + psize0 != m.dv
    requires nsize == m.L[p + psize0].size
    modifies m`mem, m`smallmap, m`treemap, m`D, m`rings, m`trees, m`L, m`dvsize
    ensures m.Valid() && Blocks(m.L) == Blocks(old(m.L)) - {b} && PayloadKept(old(m.mem), m.mem, Blocks(m.L))
    ensures forall c :: c in old(m.L) && c < p ==> c in m.L && m.L[c] == old(m.L)[c]
  {
    hide *;
    var next := p + psize0;
    var psize := psize0 + nsize;
    ghost var s0, out := m.Now(), {m.dv} + {p};
    ghost var L0, m0 := m.L, m.mem;
    PendingFacts(m, p, b, next);
    PendingIs(m, p, b, next);
    NowIs(m);
    ChunkFacts(s0, out, next);
    UnlinkChunk(m, next, nsize, out);
    NowIs(m);
    ConsistentIs(m, out + {next});
    BinnedApart(s0, m.Now(), p, next, next);
    AndNext(m.Now(), out + {next}, p, b, next, p + psize);
    HeadOfIs(m.L[p + psize]);
    BeyondThree(m.dv, p, next, p, p + psize);
    DvBeyond(s0, out, m.dv, m.dvsize, p, b, next, p + psize);
    ghost var m1 := m.mem;
    if clear {
      FreeRun(m, p, psize, p + psize, out + {next});
    } else {
      FreeRunFooted(m, p, psize, out + {next});
    }
    PayloadThen(m0, m1, m.mem, Blocks(m.L), Blocks(L0), Blocks(m.L));
    SameOutsideIs(L0, m.L, p, p + psize);
    Settle(m, p, psize, p + psize, L0, m0);
  }

  /** A run stays one when bins lose chunks outside it. */
  lemma BinnedApart(s: Snap, s': Snap, p: int, x: int, y: int)
    requires Run(s, p, x) && s' == s.(mem := s'.mem, smallmap := s'.smallmap, treemap := s'.treemap, D := s.D - {y},
                                      rings := s'.rings, trees := s'.trees)
    ensures Run(s', p, x)
  {
  }

  lemma DvBeyond(s: Snap, out: set<int>, dv: int, dvsize: int, p: int, b: int, next: int, n: int)
    requires Inv(s, out) && DvOK(s.L, dv, dvsize) && next != dv && n > next > p > 0
    requires b in s.L && s.L[b].kind.Live? && forall c :: c in s.L && p <= c < n ==> c == p || c == b || c == next
    ensures dv == p || dv < p || dv >= n
  {
    hide *;
    DvIs(s.L, dv, dvsize);
  }

  /** The run becomes a free chunk before a chunk in use. */
  method Alone(m: MallocState, p: int, psize: int, next: int, ghost b: int)
    requires Pending(m, p, b, next) && next == p + psize && next in m.L && Cin(m.L[next].kind)
    modifies m`mem, m`smallmap, m`treemap, m`D, m`rings, m`trees, m`L, m`dvsize
    ensures m.Valid() && Blocks(m.L) == Blocks(old(m.L)) - {b} && PayloadKept(old(m.mem), m.mem, Blocks(m.L))
    ensures forall c :: c in old(m.L) && c < p ==> c in m.L && m.L[c] == old(m.L)[c]
  {
    hide *;
    ghost var L0, m0 := m.L, m.mem;
    PendingFacts(m, p, b, next);
    PendingIs(m, p, b, next);
    BeyondPair(m.dv, p, p, next);
    FreeRun(m, p, psize, next, {m.dv} + {p});
    SameOutsideIs(L0, m.L, p, next);
    Settle(m, p, psize, next, L0, m0);
  }
}
