/** How chunks are cut, joined and released: the head and foot macros applied to whole runs of chunks. */
module Carve {
  import opened Words
  import opened Memory
  import opened Sizes
  import opened Layouts
  import opened Retile
  import opened State
  import opened HeapSteps
  import opened Chunks

  // ---- the macros on heads and feet ----

  /** set_inuse */
  method SetInuse(m: MallocState, p: int, s: int)
    modifies m`mem
    ensures m.mem == var m1 := old(m.mem)[p + 8 := Rd(old(m.mem), p + 8) % 2 + s + 2];
      m1[p + s + 8 := SetPinuse(Rd(m1, p + s + 8))]
  {
    m.mem := m.mem[p + 8 := Rd(m.mem, p + 8) % 2 + s + 2];
    m.mem := m.mem[p + s + 8 := SetPinuse(Rd(m.mem, p + s + 8))];
  }

  /** set_inuse_and_pinuse */
  method SetInuseAndPinuse(m: MallocState, p: int, s: int)
    modifies m`mem
    ensures m.mem == var m1 := old(m.mem)[p + 8 := s + 3]; m1[p + s + 8 := SetPinuse(Rd(m1, p + s + 8))]
  {
    m.mem := m.mem[p + 8 := s + 3];
    m.mem := m.mem[p + s + 8 := SetPinuse(Rd(m.mem, p + s + 8))];
  }

  /** set_size_and_pinuse_of_inuse_chunk */
  method SetInuseHead(m: MallocState, p: int, s: int)
    modifies m`mem
    ensures m.mem == old(m.mem)[p + 8 := s + 3]
  {
    m.mem := m.mem[p + 8 := s + 3];
  }

  /** set_size_and_pinuse_of_free_chunk */
  method SetFreeHead(m: MallocState, p: int, s: int)
    modifies m`mem
    ensures m.mem == old(m.mem)[p + 8 := s + 1][p + s := s]
  {
    m.mem := m.mem[p + 8 := s + 1];
    m.mem := m.mem[p + s := s];
  }

  /** clear_pinuse */
  method ClearPinuseOf(m: MallocState, n: int)
    modifies m`mem
    ensures m.mem == old(m.mem)[n + 8 := ClearPinuse(Rd(old(m.mem), n + 8))]
  {
    m.mem := m.mem[n + 8 := ClearPinuse(Rd(m.mem, n + 8))];
  }

  /** set_free_with_pinuse */
  method SetFreeWithPinuse(m: MallocState, p: int, s: int, n: int)
    modifies m`mem
    ensures m.mem == old(m.mem)[n + 8 := ClearPinuse(Rd(old(m.mem), n + 8))][p + 8 := s + 1][p + s := s]
  {
    ClearPinuseOf(m, n);
    SetFreeHead(m, p, s);
  }

  lemma SetPinuseIs(h: int)
    ensures SetPinuse(h) == h + 1 - h % 2 && ClearPinuse(h) == h - h % 2
    ensures SetPinuse(h) % 2 == 1
  {
  }

  // ---- one chunk out of a run ----

  /** The run from p, of s bytes, becomes one chunk in use. */
  method JoinRun(m: MallocState, p: int, s: int, ghost out: set<int>)
    requires m.Consistent(out) && Run(m.Now(), p, p + s) && s >= 32 && s % 16 == 0
    modifies m`mem, m`L
    ensures m.Consistent(Beyond(out, p, p + s))
    ensures Blocks(m.L) == BlocksOutside(old(m.L), p, p + s)[p := s]
    ensures PayloadKept(old(m.mem), m.mem, BlocksOutside(old(m.L), p, p + s))
    ensures forall w :: p + 16 <= w < p + s + 8 ==> Rd(m.mem, w) == Rd(old(m.mem), w)
    ensures SameOutside(old(m.L), m.L, p, p + s) && p in m.L && m.L[p] == Chunk(Live, s, old(m.L)[p].pin)
    ensures p + s in m.L && m.L[p + s] == old(m.L)[p + s].(pin := true)
  {
    hide *;
    ghost var s0 := m.Now();
    NowIs(m);
    ConsistentIs(m, out);
    RunEnd(s0, out, p, p + s);
    SetPinuseIs(Rd(m.mem, p + s + 8));
    SetInuse(m, p, s);
    m.L := One(m.L, p, p + s, Live);
    NowIs(m);
    JoinHeads(s0, m.mem, p, s, Live);
    ghost var hi := if s0.L[p + s].kind.Free? then p + s else p + s + 16;
    LocalIs(s0.mem, m.mem, p + 8, hi);
    PieceIs(s0.L, p, p + s, s, Live);
    OneDone(s0, m.Now(), p, p + s, hi, Live, out);
    BeyondSum(out, p, p + s, Live, p);
    IfLiveIs(BlocksOutside(s0.L, p, p + s), Live, p, s);
    HeadOfIs(Chunk(Live, s, true));
    ConsistentIs(m, Beyond(out, p, p + s));
  }

  lemma JoinHeads(s0: Snap, m': Mem, p: int, s: int, k: Kind)
    requires p in s0.L && p + s in s0.L && k.Live? && s0.L[p].size % 8 == 0 && s0.L[p + s].size % 8 == 0 && s >= 32
    requires Rd(s0.mem, p + 8) == HeadOf(s0.L[p]) && Rd(s0.mem, p + s + 8) == HeadOf(s0.L[p + s])
    requires m' == var m1 := s0.mem[p + 8 := Rd(s0.mem, p + 8) % 2 + s + 2];
      m1[p + s + 8 := SetPinuse(Rd(m1, p + s + 8))]
    ensures Rd(m', p + 8) == HeadOf(Chunk(k, s, s0.L[p].pin))
    ensures Rd(m', p + s + 8) == HeadOf(s0.L[p + s].(pin := Cin(k)))
    ensures forall w :: w != p + 8 && w != p + s + 8 ==> Rd(m', w) == Rd(s0.mem, w)
    ensures s0.L[p + s].pin ==> Rd(m', p + s + 8) == Rd(s0.mem, p + s + 8)
  {
    hide *;
    HeadOfIs(s0.L[p]);
    HeadOfIs(s0.L[p + s]);
    HeadOfIs(s0.L[p + s].(pin := true));
    HeadOfIs(Chunk(k, s, s0.L[p].pin));
    JoinWords(s0.mem, m', p, s);
    OddEven(s0.L[p].size, s0.L[p].pin, Rd(s0.mem, p + 8));
    OddEven(s0.L[p + s].size, s0.L[p + s].pin, Rd(s0.mem, p + s + 8));
  }

  lemma JoinWords(m: Mem, m': Mem, p: int, s: int)
    requires s >= 32
    requires m' == var m1 := m[p + 8 := Rd(m, p + 8) % 2 + s + 2]; m1[p + s + 8 := SetPinuse(Rd(m1, p + s + 8))]
    ensures Rd(m', p + 8) == Rd(m, p + 8) % 2 + s + 2
    ensures Rd(m', p + s + 8) == Rd(m, p + s + 8) + 1 - Rd(m, p + s + 8) % 2
    ensures forall w :: w != p + 8 && w != p + s + 8 ==> Rd(m', w) == Rd(m, w)
  {
    hide SetPinuse;
    SetPinuseIs(Rd(m, p + s + 8));
  }

  /** A free chunk that is out of the bins goes to the user whole. */
  method TakeWhole(m: MallocState, p: int, s: int, ghost out: set<int>)
    requires m.Consistent(out) && p in m.L && m.L[p].kind.Free? && m.L[p].size == s && p in out
    modifies m`mem, m`L
    ensures m.Consistent(Beyond(out, p, p + s))
    ensures Blocks(m.L) == Blocks(old(m.L))[p := s] && p !in Blocks(old(m.L))
    ensures PayloadKept(old(m.mem), m.mem, Blocks(old(m.L)))
    ensures SameOutside(old(m.L), m.L, p, p + s) && p in m.L && m.L[p] == Chunk(Live, s, true)
    ensures forall d, ds :: d != p && DvOK(old(m.L), d, ds) ==> DvOK(m.L, d, ds)
  {
    hide *;
    ghost var s0 := m.Now();
    NowIs(m);
    ConsistentIs(m, out);
    FreeAlone(s0, out, p, p + s);
    RunEnd(s0, out, p, p + s);
    SetInuseAndPinuse(m, p, s);
    m.L := One(m.L, p, p + s, Live);
    NowIs(m);
    TakeHeads(s0, m.mem, p, s, Live);
    LocalIs(s0.mem, m.mem, p + 8, p + s + 16);
    PieceIs(s0.L, p, p + s, s, Live);
    OneDone(s0, m.Now(), p, p + s, p + s + 16, Live, out);
    BeyondSum(out, p, p + s, Live, p);
    IfLiveIs(BlocksOutside(s0.L, p, p + s), Live, p, s);
    HeadOfIs(Chunk(Live, s, true));
    AllDvElsewhere(s0.L, m.L, p, p + s);
    ConsistentIs(m, Beyond(out, p, p + s));
  }

  /** An unbinned free chunk is a run without live blocks, and the only chunk of it. */
  lemma FreeAlone(s: Snap, out: set<int>, p: int, n: int)
    requires Inv(s, out) && p in s.L && s.L[p].kind.Free? && p in out && n == p + s.L[p].size
    ensures n in s.L && Run(s, p, n) && s.L[p].size >= 32 && s.L[p].size % 16 == 0 && !s.L[n].pin && !s.L[n].kind.Free?
      && s.L[p].pin
            && BlocksOutside(s.L, p, n) == Blocks(s.L) && p !in Blocks(s.L)
            && (forall d :: d in s.L && p <= d < n ==> d == p)
  {
    hide *;
    ChunkFacts(s, out, p);
    RunOf1(s, out, p);
    RunIs(s, p, n);
    HeadOfIs(s.L[n]);
    HeadOfIs(s.L[p]);
    BlocksIs(s.L);
    OnlyLive(s.L, p, n, {});
    assert Blocks(s.L) - {} == Blocks(s.L);
  }

  lemma AllDvElsewhere(L: Layout, L': Layout, p: int, n: int)
    requires SameOutside(L, L', p, n) && p < n && n in L && n in L' && L'[n].kind == L[n].kind
      && L'[n].size == L[n].size
    requires forall d :: d in L && p <= d < n ==> d == p
    ensures forall d, ds :: d != p && DvOK(L, d, ds) ==> DvOK(L', d, ds)
  {
    hide *;
    forall d, ds | d != p && DvOK(L, d, ds) ensures DvOK(L', d, ds) {
      DvIs(L, d, ds);
      DvElsewhere(L, L', p, n, d, ds);
    }
  }

  lemma TakeHeads(s0: Snap, m': Mem, p: int, s: int, k: Kind)
    requires p in s0.L && p + s in s0.L && k.Live? && s0.L[p].pin && s0.L[p + s].size % 8 == 0 && s >= 32
    requires Rd(s0.mem, p + s + 8) == HeadOf(s0.L[p + s])
    requires m' == var m1 := s0.mem[p + 8 := s + 3]; m1[p + s + 8 := SetPinuse(Rd(m1, p + s + 8))]
    ensures Rd(m', p + 8) == HeadOf(Chunk(k, s, s0.L[p].pin))
    ensures Rd(m', p + s + 8) == HeadOf(s0.L[p + s].(pin := Cin(k)))
    ensures forall w :: w != p + 8 && w != p + s + 8 ==> Rd(m', w) == Rd(s0.mem, w)
  {
  }

  /** The first nb bytes of an unbinned free chunk go to the user; the rest stays free and unbinned. */
  method TakePart(m: MallocState, p: int, nb: int, rsize: int, ghost out: set<int>)
    requires m.Consistent(out) && p in m.L && m.L[p].kind.Free? && m.L[p].size == nb + rsize && p in out
    requires nb >= 32 && rsize >= 32 && nb % 16 == 0
    modifies m`mem, m`L
    ensures m.Consistent(Beyond(out, p, p + nb + rsize) + {p + nb})
    ensures Blocks(m.L) == Blocks(old(m.L))[p := nb] && p !in Blocks(old(m.L))
    ensures PayloadKept(old(m.mem), m.mem, Blocks(old(m.L)))
    ensures SameOutside(old(m.L), m.L, p, p + nb + rsize) && p in m.L && m.L[p] == Chunk(Live, nb, true)
    ensures p + nb in m.L && m.L[p + nb] == Chunk(Free, rsize, true)
    ensures forall d, ds :: d != p && DvOK(old(m.L), d, ds) ==> DvOK(m.L, d, ds)
  {
    hide *;
    ghost var s0 := m.Now();
    ghost var n := p + nb + rsize;
    NowIs(m);
    ConsistentIs(m, out);
    FreeAlone(s0, out, p, n);
    RunEnd(s0, out, p, n);
    EndInUse(s0, out, n);
    HeadOfIs(s0.L[n]);
    SetInuseHead(m, p, nb);
    SetFreeHead(m, p + nb, rsize);
    m.L := Two(m.L, p, p + nb, n, Live, Free);
    NowIs(m);
    PartHeads(s0, m.mem, p, nb, n, Live, Free);
    LocalIs(s0.mem, m.mem, p + 8, n + 16);
    PieceIs(s0.L, p, n, rsize, Free);
    TwoDone(s0, m.Now(), p, p + nb, n, n + 16, Live, Free, out);
    BeyondSum(out, p, n, Free, p + nb);
    IfLiveIs(BlocksOutside(s0.L, p, n), Live, p, nb);
    IfLiveIs(Blocks(s0.L)[p := nb], Free, p + nb, rsize);
    HeadOfIs(Chunk(Live, nb, true));
    AllDvElsewhere(s0.L, m.L, p, n);
    ConsistentIs(m, Beyond(out, p, n) + {p + nb});
  }

  lemma PartHeads(s0: Snap, m': Mem, p: int, nb: int, n: int, j: Kind, k: Kind)
    requires p in s0.L && n in s0.L && j.Live? && k.Free? && s0.L[p].pin && !s0.L[n].pin && nb >= 32 && n - p - nb >= 32
    requires Rd(s0.mem, n + 8) == HeadOf(s0.L[n])
    requires m' == s0.mem[p + 8 := nb + 3][p + nb + 8 := n - p - nb + 1][n := n - p - nb]
    ensures Rd(m', p + 8) == HeadOf(Chunk(j, nb, s0.L[p].pin))
    ensures Rd(m', p + nb + 8) == HeadOf(Chunk(k, n - p - nb, Cin(j)))
    ensures Rd(m', n + 8) == HeadOf(s0.L[n].(pin := Cin(k))) && Rd(m', n) == n - p - nb
    ensures forall w :: w != p + 8 && w != p + nb + 8 && w != n ==> Rd(m', w) == Rd(s0.mem, w)
  {
  }

  // ---- cutting and growing chunks in use ----

  /** The run from p is cut in two chunks in use, of nb and rsize bytes. */
  method SplitRun(m: MallocState, p: int, nb: int, rsize: int, ghost out: set<int>)
    requires m.Consistent(out) && Run(m.Now(), p, p + nb + rsize)
    requires nb >= 32 && nb % 16 == 0 && rsize >= 32 && rsize % 16 == 0
    modifies m`mem, m`L
    ensures m.Consistent(Beyond(out, p, p + nb + rsize))
    ensures Blocks(m.L) == BlocksOutside(old(m.L), p, p + nb + rsize)[p := nb][p + nb := rsize]
    ensures PayloadKept(old(m.mem), m.mem, BlocksOutside(old(m.L), p, p + nb + rsize))
    ensures forall w :: p + 16 <= w < p + nb + rsize + 8 && w != p + nb + 8 ==> Rd(m.mem, w) == Rd(old(m.mem), w)
    ensures SameOutside(old(m.L), m.L, p, p + nb + rsize) && p in m.L && m.L[p] == Chunk(Live, nb, old(m.L)[p].pin)
    ensures p + nb in m.L && m.L[p + nb] == Chunk(Live, rsize, true)
    ensures p + nb + rsize in m.L && m.L[p + nb + rsize] == old(m.L)[p + nb + rsize].(pin := true)
  {
    hide *;
    ghost var s0 := m.Now();
    ghost var n := p + nb + rsize;
    NowIs(m);
    ConsistentIs(m, out);
    RunEnd(s0, out, p, n);
    SetInuse(m, p, nb);
    SetInuse(m, p + nb, rsize);
    SplitHeads(s0, m.mem, p, nb, n, Live, Live);
    m.L := Two(m.L, p, p + nb, n, Live, Live);
    NowIs(m);
    SplitDone(s0, m.Now(), p, nb, n, out);
    ConsistentIs(m, Beyond(out, p, n));
  }

  lemma SplitDone(s0: Snap, s': Snap, p: int, nb: int, n: int, out: set<int>)
    requires Inv(s0, out) && Run(s0, p, n) && nb >= 32 && nb % 16 == 0 && n - p - nb >= 32 && (n - p - nb) % 16 == 0
    requires p in s0.L && n in s0.L && s' == s0.(mem := s'.mem, L := Two(s0.L, p, p + nb, n, Live, Live))
    requires Rd(s'.mem, p + 8) == HeadOf(Chunk(Live, nb, s0.L[p].pin))
    requires Rd(s'.mem, p + nb + 8) == HeadOf(Chunk(Live, n - p - nb, Cin(Live)))
    requires Rd(s'.mem, n + 8) == HeadOf(s0.L[n].(pin := Cin(Live)))
    requires forall w :: w != p + 8 && w != p + nb + 8 && w != n + 8 ==> Rd(s'.mem, w) == Rd(s0.mem, w)
    requires s0.L[n].pin ==> Rd(s'.mem, n + 8) == Rd(s0.mem, n + 8)
    ensures Inv(s', Beyond(out, p, n)) && PayloadKept(s0.mem, s'.mem, BlocksOutside(s0.L, p, n))
    ensures Blocks(s'.L) == BlocksOutside(s0.L, p, n)[p := nb][p + nb := n - p - nb]
    ensures SameOutside(s0.L, s'.L, p, n) && p in s'.L && s'.L[p] == Chunk(Live, nb, s0.L[p].pin)
    ensures p + nb in s'.L && s'.L[p + nb] == Chunk(Live, n - p - nb, true)
    ensures n in s'.L && s'.L[n] == s0.L[n].(pin := true)
  {
    hide *;
    RunEnd(s0, out, p, n);
    var hi := if s0.L[n].kind.Free? then n else n + 16;
    LocalIs(s0.mem, s'.mem, p + 8, hi);
    PieceIs(s0.L, p, n, n - p - nb, Live);
    TwoDone(s0, s', p, p + nb, n, hi, Live, Live, out);
    BeyondSum(out, p, n, Live, p + nb);
    IfLiveIs(BlocksOutside(s0.L, p, n), Live, p, nb);
    IfLiveIs(BlocksOutside(s0.L, p, n)[p := nb], Live, p + nb, n - p - nb);
    HeadOfIs(Chunk(Live, nb, true));
  }

  lemma SplitHeads(s0: Snap, m': Mem, p: int, nb: int, n: int, j: Kind, k: Kind)
    requires p in s0.L && n in s0.L && j.Live? && k.Live? && nb >= 32 && n - p - nb >= 32
    requires Rd(s0.mem, p + 8) == HeadOf(s0.L[p]) && Rd(s0.mem, n + 8) == HeadOf(s0.L[n])
    requires s0.L[p].size % 8 == 0 && s0.L[n].size % 8 == 0
    requires m' == (
      var m1 := s0.mem[p + 8 := Rd(s0.mem, p + 8) % 2 + nb + 2];
      var m2 := m1[p + nb + 8 := SetPinuse(Rd(m1, p + nb + 8))];
      var m3 := m2[p + nb + 8 := Rd(m2, p + nb + 8) % 2 + (n - p - nb) + 2];
      m3[p + nb + (n - p - nb) + 8 := SetPinuse(Rd(m3, p + nb + (n - p - nb) + 8))])
    ensures Rd(m', p + 8) == HeadOf(Chunk(j, nb, s0.L[p].pin))
    ensures Rd(m', p + nb + 8) == HeadOf(Chunk(k, n - p - nb, Cin(j)))
    ensures Rd(m', n + 8) == HeadOf(s0.L[n].(pin := Cin(k)))
    ensures forall w :: w != p + 8 && w != p + nb + 8 && w != n + 8 ==> Rd(m', w) == Rd(s0.mem, w)
    ensures s0.L[n].pin ==> Rd(m', n + 8) == Rd(s0.mem, n + 8)
  {
    hide *;
    HeadOfIs(s0.L[p]);
    HeadOfIs(s0.L[n]);
    HeadOfIs(s0.L[n].(pin := true));
    HeadOfIs(Chunk(j, nb, s0.L[p].pin));
    HeadOfIs(Chunk(k, n - p - nb, true));
    SplitWords(s0.mem, m', p, p + nb, n);
    OddEven(s0.L[p].size, s0.L[p].pin, Rd(s0.mem, p + 8));
    OddEven(s0.L[n].size, s0.L[n].pin, Rd(s0.mem, n + 8));
  }

  /** As SplitRun, the second piece being marked before the first. */
  method SplitLead(m: MallocState, p: int, lead: int, rsize: int, ghost out: set<int>)
    requires m.Consistent(out) && Run(m.Now(), p, p + lead + rsize)
    requires lead >= 32 && lead % 16 == 0 && rsize >= 32 && rsize % 16 == 0
    modifies m`mem, m`L
    ensures m.Consistent(Beyond(out, p, p + lead + rsize))
    ensures Blocks(m.L) == BlocksOutside(old(m.L), p, p + lead + rsize)[p := lead][p + lead := rsize]
    ensures PayloadKept(old(m.mem), m.mem, BlocksOutside(old(m.L), p, p + lead + rsize))
    ensures SameOutside(old(m.L), m.L, p, p + lead + rsize) && p in m.L && m.L[p] == Chunk(Live, lead, old(m.L)[p].pin)
    ensures p + lead in m.L && m.L[p + lead] == Chunk(Live, rsize, true)
    ensures p + lead + rsize in m.L && m.L[p + lead + rsize] == old(m.L)[p + lead + rsize].(pin := true)
  {
    hide *;
    ghost var s0 := m.Now();
    ghost var n := p + lead + rsize;
    NowIs(m);
    ConsistentIs(m, out);
    RunEnd(s0, out, p, n);
    SetInuse(m, p + lead, rsize);
    SetInuse(m, p, lead);
    LeadHeads(s0, m.mem, p, lead, n, Live, Live);
    m.L := Two(m.L, p, p + lead, n, Live, Live);
    NowIs(m);
    SplitDone(s0, m.Now(), p, lead, n, out);
    ConsistentIs(m, Beyond(out, p, n));
  }

  lemma LeadHeads(s0: Snap, m': Mem, p: int, nb: int, n: int, j: Kind, k: Kind)
    requires p in s0.L && n in s0.L && j.Live? && k.Live? && nb >= 32 && n - p - nb >= 32 && (n - p - nb) % 16 == 0
    requires Rd(s0.mem, p + 8) == HeadOf(s0.L[p]) && Rd(s0.mem, n + 8) == HeadOf(s0.L[n])
    requires s0.L[p].size % 8 == 0 && s0.L[n].size % 8 == 0
    requires m' == (
      var m1 := s0.mem[p + nb + 8 := Rd(s0.mem, p + nb + 8) % 2 + (n - p - nb) + 2];
      var m2 := m1[p + nb + (n - p - nb) + 8 := SetPinuse(Rd(m1, p + nb + (n - p - nb) + 8))];
      var m3 := m2[p + 8 := Rd(m2, p + 8) % 2 + nb + 2];
      m3[p + nb + 8 := SetPinuse(Rd(m3, p + nb + 8))])
    ensures Rd(m', p + 8) == HeadOf(Chunk(j, nb, s0.L[p].pin))
    ensures Rd(m', p + nb + 8) == HeadOf(Chunk(k, n - p - nb, Cin(j)))
    ensures Rd(m', n + 8) == HeadOf(s0.L[n].(pin := Cin(k)))
    ensures forall w :: w != p + 8 && w != p + nb + 8 && w != n + 8 ==> Rd(m', w) == Rd(s0.mem, w)
    ensures s0.L[n].pin ==> Rd(m', n + 8) == Rd(s0.mem, n + 8)
  {
    hide *;
    HeadOfIs(s0.L[p]);
    HeadOfIs(s0.L[n]);
    HeadOfIs(s0.L[n].(pin := true));
    HeadOfIs(Chunk(j, nb, s0.L[p].pin));
    HeadOfIs(Chunk(k, n - p - nb, true));
    LeadWords(s0.mem, m', p, p + nb, n);
    OddEven(s0.L[p].size, s0.L[p].pin, Rd(s0.mem, p + 8));
    OddEven(s0.L[n].size, s0.L[n].pin, Rd(s0.mem, n + 8));
  }

  lemma LeadWords(m: Mem, m': Mem, p: int, r: int, n: int)
    requires p + 32 <= r && r + 32 <= n && (n - r) % 16 == 0
    requires m' == (
      var m1 := m[r + 8 := Rd(m, r + 8) % 2 + (n - r) + 2];
      var m2 := m1[n + 8 := SetPinuse(Rd(m1, n + 8))];
      var m3 := m2[p + 8 := Rd(m2, p + 8) % 2 + (r - p) + 2];
      m3[r + 8 := SetPinuse(Rd(m3, r + 8))])
    ensures Rd(m', p + 8) == Rd(m, p + 8) % 2 + (r - p) + 2
    ensures Rd(m', r + 8) == n - r + 3
    ensures Rd(m', n + 8) == Rd(m, n + 8) + 1 - Rd(m, n + 8) % 2
    ensures forall w :: w != p + 8 && w != r + 8 && w != n + 8 ==> Rd(m', w) == Rd(m, w)
  {
    hide SetPinuse;
    var h := Rd(m, r + 8) % 2 + (n - r) + 2;
    SetPinuseIs(h);
    SetPinuseIs(Rd(m, n + 8));
    BitKept(Rd(m, r + 8) % 2, n - r);
  }

  lemma BitKept(b: int, s: int)
    requires 0 <= b < 2 && s % 16 == 0
    ensures (b + s + 2) % 2 == b
  {
    var k := s / 16;
    DivUnique(b + s + 2, 2, 8 * k + 1, b);
  }

  lemma OddEven(size: int, pin: bool, h: int)
    requires size % 8 == 0 && (h == size + (if pin then 1 else 0) || h == size + 2 + (if pin then 1 else 0))
    ensures h % 2 == if pin then 1 else 0
  {
    var k := size / 8;
    assert size == 8 * k;
    DivUnique(h, 2, h / 2, h % 2);
    assert h / 2 == 4 * k || h / 2 == 4 * k + 1;
  }

  lemma SplitWords(m: Mem, m': Mem, p: int, r: int, n: int)
    requires p + 32 <= r && r + 32 <= n
    requires m' == (
      var m1 := m[p + 8 := Rd(m, p + 8) % 2 + (r - p) + 2];
      var m2 := m1[r + 8 := SetPinuse(Rd(m1, r + 8))];
      var m3 := m2[r + 8 := Rd(m2, r + 8) % 2 + (n - r) + 2];
      m3[n + 8 := SetPinuse(Rd(m3, n + 8))])
    ensures Rd(m', p + 8) == Rd(m, p + 8) % 2 + (r - p) + 2
    ensures Rd(m', r + 8) == n - r + 3
    ensures Rd(m', n + 8) == Rd(m, n + 8) + 1 - Rd(m, n + 8) % 2
    ensures forall w :: w != p + 8 && w != r + 8 && w != n + 8 ==> Rd(m', w) == Rd(m, w)
  {
    hide SetPinuse;
    SetPinuseIs(Rd(m, r + 8));
    SetPinuseIs(Rd(m, n + 8));
  }

  /** A chunk in use grows to nb bytes into the unbinned free chunk after it, whose last rsize bytes stay free. */
  method GrowPart(m: MallocState, p: int, nb: int, rsize: int, ghost out: set<int>)
    requires m.Consistent(out) && Run(m.Now(), p, p + nb + rsize) && !m.L[p + nb + rsize].pin
      && !m.L[p + nb + rsize].kind.Free?
    requires nb >= 32 && nb % 16 == 0 && rsize >= 32 && rsize % 16 == 0
    modifies m`mem, m`L
    ensures m.Consistent(Beyond(out, p, p + nb + rsize) + {p + nb})
    ensures Blocks(m.L) == BlocksOutside(old(m.L), p, p + nb + rsize)[p := nb]
    ensures PayloadKept(old(m.mem), m.mem, BlocksOutside(old(m.L), p, p + nb + rsize))
    ensures forall w :: p + 16 <= w < p + nb + 8 ==> Rd(m.mem, w) == Rd(old(m.mem), w)
    ensures SameOutside(old(m.L), m.L, p, p + nb + rsize) && p in m.L && m.L[p] == Chunk(Live, nb, old(m.L)[p].pin)
    ensures p + nb in m.L && m.L[p + nb] == Chunk(Free, rsize, true)
  {
    hide *;
    ghost var s0 := m.Now();
    var n := p + nb + rsize;
    NowIs(m);
    ConsistentIs(m, out);
    RunEnd(s0, out, p, n);
    EndInUse(s0, out, n);
    SetInuse(m, p, nb);
    SetFreeHead(m, p + nb, rsize);
    ClearPinuseOf(m, n);
    m.L := Two(m.L, p, p + nb, n, Live, Free);
    NowIs(m);
    GrowHeads(s0, m.mem, p, nb, n, Live, Free);
    LocalIs(s0.mem, m.mem, p + 8, n + 16);
    PieceIs(s0.L, p, n, rsize, Free);
    TwoDone(s0, m.Now(), p, p + nb, n, n + 16, Live, Free, out);
    BeyondSum(out, p, n, Free, p + nb);
    IfLiveIs(BlocksOutside(s0.L, p, n), Live, p, nb);
    IfLiveIs(BlocksOutside(s0.L, p, n)[p := nb], Free, p + nb, rsize);
    HeadOfIs(Chunk(Live, nb, true));
    ConsistentIs(m, Beyond(out, p, n) + {p + nb});
  }

  /** A chunk that reports a free predecessor is itself neither free nor top. */
  lemma EndInUse(s: Snap, out: set<int>, n: int)
    requires Inv(s, out) && n in s.L && !s.L[n].pin
    ensures Cin(s.L[n].kind) && !s.L[n].kind.Free? && !s.L[n].kind.Top?
  {
    hide *;
    ChunkFacts(s, out, n);
    HeadOfIs(s.L[n]);
  }

  lemma GrowHeads(s0: Snap, m': Mem, p: int, nb: int, n: int, j: Kind, k: Kind)
    requires p in s0.L && n in s0.L && j.Live? && k.Free? && nb >= 32 && n - p - nb >= 32
    requires Rd(s0.mem, p + 8) == HeadOf(s0.L[p]) && Rd(s0.mem, n + 8) == HeadOf(s0.L[n]) && !s0.L[n].pin
    requires s0.L[p].size % 8 == 0 && s0.L[n].size % 8 == 0
    requires m' == (
      var m1 := s0.mem[p + 8 := Rd(s0.mem, p + 8) % 2 + nb + 2];
      var m2 := m1[p + nb + 8 := SetPinuse(Rd(m1, p + nb
                                              + 8))][p + nb + 8 := n - p - nb + 1][p + nb + (n - p - nb) := n - p - nb];
      m2[n + 8 := ClearPinuse(Rd(m2, n + 8))])
    ensures Rd(m', p + 8) == HeadOf(Chunk(j, nb, s0.L[p].pin))
    ensures Rd(m', p + nb + 8) == HeadOf(Chunk(k, n - p - nb, Cin(j)))
    ensures Rd(m', n + 8) == HeadOf(s0.L[n].(pin := Cin(k))) && Rd(m', n) == n - p - nb
    ensures forall w :: w != p + 8 && w != p + nb + 8 && w != n && w != n + 8 ==> Rd(m', w) == Rd(s0.mem, w)
  {
    hide *;
    HeadOfIs(s0.L[p]);
    HeadOfIs(s0.L[n]);
    HeadOfIs(s0.L[n].(pin := false));
    HeadOfIs(Chunk(j, nb, s0.L[p].pin));
    HeadOfIs(Chunk(k, n - p - nb, true));
    GrowWords(s0.mem, m', p, p + nb, n);
    OddEven(s0.L[p].size, s0.L[p].pin, Rd(s0.mem, p + 8));
    OddEven(s0.L[n].size, s0.L[n].pin, Rd(s0.mem, n + 8));
  }

  lemma GrowWords(m: Mem, m': Mem, p: int, r: int, n: int)
    requires p + 32 <= r && r + 32 <= n
    requires m' == (
      var m1 := m[p + 8 := Rd(m, p + 8) % 2 + (r - p) + 2];
      var m2 := m1[r + 8 := SetPinuse(Rd(m1, r + 8))][r + 8 := n - r + 1][n := n - r];
      m2[n + 8 := ClearPinuse(Rd(m2, n + 8))])
    ensures Rd(m', p + 8) == Rd(m, p + 8) % 2 + (r - p) + 2
    ensures Rd(m', r + 8) == n - r + 1 && Rd(m', n) == n - r
    ensures Rd(m', n + 8) == Rd(m, n + 8) - Rd(m, n + 8) % 2
    ensures forall w :: w != p + 8 && w != r + 8 && w != n && w != n + 8 ==> Rd(m', w) == Rd(m, w)
  {
    hide SetPinuse, ClearPinuse;
    SetPinuseIs(Rd(m, n + 8));
  }

  // ---- releasing a run ----

  /** The run from p, of s bytes and ending before a chunk in use, becomes one free chunk; its last chunk was in use. */
  method FreeRun(m: MallocState, p: int, s: int, n: int, ghost out: set<int>)
    requires m.Consistent(out) && n == p + s && Run(m.Now(), p, n) && m.L[p].pin && Cin(m.L[n].kind) && s >= 32
      && s % 16 == 0
    modifies m`mem, m`L
    ensures m.Consistent(Beyond(out, p, n) + {p})
    ensures Blocks(m.L) == BlocksOutside(old(m.L), p, n)
    ensures PayloadKept(old(m.mem), m.mem, BlocksOutside(old(m.L), p, n))
    ensures SameOutside(old(m.L), m.L, p, n) && p in m.L && m.L[p] == Chunk(Free, s, true)
    ensures n in m.L && m.L[n] == old(m.L)[n].(pin := false)
  {
    hide *;
    ghost var s0 := m.Now();
    NowIs(m);
    ConsistentIs(m, out);
    RunEnd(s0, out, p, n);
    HeadOfIs(s0.L[n]);
    SetFreeWithPinuse(m, p, s, n);
    m.L := One(m.L, p, n, Free);
    NowIs(m);
    FreeHeads(s0, m.mem, p, n, Free);
    FreeRunDone(s0, m.Now(), p, n, out);
    ConsistentIs(m, Beyond(out, p, n) + {p});
  }

  /** As FreeRun, where the last chunk of the run was already free, so that the chunk after it already says so. */
  method FreeRunFooted(m: MallocState, p: int, s: int, ghost out: set<int>)
    requires m.Consistent(out) && Run(m.Now(), p, p + s) && m.L[p].pin && !m.L[p + s].pin && s >= 32 && s % 16 == 0
    modifies m`mem, m`L
    ensures m.Consistent(Beyond(out, p, p + s) + {p})
    ensures Blocks(m.L) == BlocksOutside(old(m.L), p, p + s)
    ensures PayloadKept(old(m.mem), m.mem, BlocksOutside(old(m.L), p, p + s))
    ensures SameOutside(old(m.L), m.L, p, p + s) && p in m.L && m.L[p] == Chunk(Free, s, true)
    ensures p + s in m.L && m.L[p + s] == old(m.L)[p + s]
  {
    hide *;
    ghost var s0 := m.Now();
    NowIs(m);
    ConsistentIs(m, out);
    RunEnd(s0, out, p, p + s);
    EndInUse(s0, out, p + s);
    SetFreeHead(m, p, s);
    m.L := One(m.L, p, p + s, Free);
    NowIs(m);
    FootedHeads(s0, m.mem, p, p + s, Free);
    FreeRunDone(s0, m.Now(), p, p + s, out);
    ConsistentIs(m, Beyond(out, p, p + s) + {p});
  }

  lemma FreeRunDone(s0: Snap, s': Snap, p: int, n: int, out: set<int>)
    requires Inv(s0, out) && Run(s0, p, n) && s0.L[p].pin && Cin(s0.L[n].kind) && n - p >= 32 && (n - p) % 16 == 0
    requires s' == s0.(mem := s'.mem, L := One(s0.L, p, n, Free))
    requires Rd(s'.mem, p + 8) == HeadOf(Chunk(Free, n - p, s0.L[p].pin))
    requires Rd(s'.mem, n + 8) == HeadOf(s0.L[n].(pin := Cin(Free))) && Rd(s'.mem, n) == n - p
    requires forall w :: w != p + 8 && w != n && w != n + 8 ==> Rd(s'.mem, w) == Rd(s0.mem, w)
    ensures Inv(s', Beyond(out, p, n) + {p}) && Blocks(s'.L) == BlocksOutside(s0.L, p, n)
    ensures PayloadKept(s0.mem, s'.mem, BlocksOutside(s0.L, p, n))
    ensures SameOutside(s0.L, s'.L, p, n) && p in s'.L && s'.L[p] == Chunk(Free, n - p, true)
    ensures n in s'.L && s'.L[n] == s0.L[n].(pin := false)
  {
    hide *;
    RunEnd(s0, out, p, n);
    LocalIs(s0.mem, s'.mem, p + 8, n + 16);
    PieceIs(s0.L, p, n, n - p, Free);
    HeadOfIs(s0.L[n]);
    OneDone(s0, s', p, n, n + 16, Free, out);
    BeyondSum(out, p, n, Free, p);
    IfLiveIs(BlocksOutside(s0.L, p, n), Free, p, n - p);
    HeadOfIs(Chunk(Free, n - p, true));
  }

  lemma FreeHeads(s0: Snap, m': Mem, p: int, n: int, k: Kind)
    requires p in s0.L && n in s0.L && k.Free? && n - p >= 32 && s0.L[p].pin && s0.L[n].size % 8 == 0
    requires Rd(s0.mem, n + 8) == HeadOf(s0.L[n])
    requires m' == s0.mem[n + 8 := ClearPinuse(Rd(s0.mem, n + 8))][p + 8 := n - p + 1][p + (n - p) := n - p]
    ensures Rd(m', p + 8) == HeadOf(Chunk(k, n - p, s0.L[p].pin))
    ensures Rd(m', n + 8) == HeadOf(s0.L[n].(pin := Cin(k))) && Rd(m', n) == n - p
    ensures forall w :: w != p + 8 && w != n && w != n + 8 ==> Rd(m', w) == Rd(s0.mem, w)
  {
  }

  lemma FootedHeads(s0: Snap, m': Mem, p: int, n: int, k: Kind)
    requires p in s0.L && n in s0.L && k.Free? && n - p >= 32 && s0.L[p].pin && !s0.L[n].pin
    requires Rd(s0.mem, n + 8) == HeadOf(s0.L[n])
    requires m' == s0.mem[p + 8 := n - p + 1][p + (n - p) := n - p]
    ensures Rd(m', p + 8) == HeadOf(Chunk(k, n - p, s0.L[p].pin))
    ensures Rd(m', n + 8) == HeadOf(s0.L[n].(pin := Cin(k))) && Rd(m', n) == n - p
    ensures forall w :: w != p + 8 && w != n && w != n + 8 ==> Rd(m', w) == Rd(s0.mem, w)
  {
  }

  // ---- top ----

  /** The first nb bytes of top go to the user. */
  method TakeTop(m: MallocState, nb: int, ghost out: set<int>)
    requires m.Consistent(out) && m.top != 0 && nb >= 32 && nb % 16 == 0 && nb < m.topsize
    modifies m`mem, m`L, m`top, m`topsize
    ensures m.Consistent(out)
    ensures Blocks(m.L) == Blocks(old(m.L))[old(m.top) := nb] && old(m.top) !in Blocks(old(m.L))
    ensures PayloadKept(old(m.mem), m.mem, Blocks(old(m.L)))
    ensures m.top == old(m.top) + nb && m.topsize == old(m.topsize) - nb
    ensures old(m.top) in m.L && m.L[old(m.top)] == Chunk(Live, nb, true)
    ensures forall d, ds :: DvOK(old(m.L), d, ds) ==> DvOK(m.L, d, ds)
  {
    hide *;
    ghost var s0 := m.Now();
    NowIs(m);
    ConsistentIs(m, out);
    RunToTop(s0, out, m.top);
    var rsize := m.topsize - nb;
    m.topsize := rsize;
    var p := m.top;
    var r := p + nb;
    m.top := r;
    m.mem := m.mem[r + 8 := rsize + 1];
    SetInuseHead(m, p, nb);
    TopAlone(s0, out);
    m.L := TopTwo(m.L, p, r, p);
    NowIs(m);
    TopHeads(s0, m.mem, p, r, rsize, Live, Top);
    LocalIs(s0.mem, m.mem, p + 8, p + s0.topsize + 8);
    TopTwoDone(s0, m.Now(), p, r, out);
    BeyondIs(out, p, p + s0.topsize, Live, p, Live, p);
    Reout(m.Now(), Beyond(out, p, p + s0.topsize), out);
    NoDvInTop(s0, out, m.L, p);
    ConsistentIs(m, out);
  }

  /** Top has no chunk inside, and no live block. */
  lemma TopAlone(s: Snap, out: set<int>)
    requires Inv(s, out) && s.top != 0
    ensures s.top in s.L && s.L[s.top] == Chunk(Top, s.topsize, true) && s.top >= 0x2000 && s.topsize >= 8
    ensures BlocksOutside(s.L, s.top, s.top + s.topsize) == Blocks(s.L) && s.top !in Blocks(s.L)
    ensures forall c :: c in s.L && s.top <= c < s.top + s.topsize ==> c == s.top
    ensures s.top + s.topsize !in s.L
  {
    hide *;
    InvParts(s, out);
    TopIs(s.mem, s.L, s.top, s.topsize);
    ChunkFacts(s, out, s.top);
    BlocksIs(s.L);
    OnlyLive(s.L, s.top, s.top + s.topsize, {});
    assert Blocks(s.L) - {} == Blocks(s.L);
  }

  lemma NoDvInTop(s: Snap, out: set<int>, L': Layout, q: int)
    requires Inv(s, out) && s.top != 0 && SameOutside(s.L, L', q, s.top + s.topsize) && q == s.top
    ensures forall d, ds :: DvOK(s.L, d, ds) ==> DvOK(L', d, ds)
  {
    hide *;
    TopAlone(s, out);
    forall d, ds | DvOK(s.L, d, ds) ensures DvOK(L', d, ds) {
      DvIs(s.L, d, ds);
      DvElsewhere(s.L, L', q, s.top + s.topsize, d, ds);
    }
  }

  lemma TopHeads(s0: Snap, m': Mem, p: int, r: int, rsize: int, j: Kind, k: Kind)
    requires p in s0.L && s0.L[p].pin && j.Live? && k.Top? && p + 32 <= r
    requires m' == s0.mem[r + 8 := rsize + 1][p + 8 := r - p + 3]
    ensures Rd(m', p + 8) == HeadOf(Chunk(j, r - p, s0.L[p].pin))
    ensures Rd(m', r + 8) == HeadOf(Chunk(k, rsize, true))
    ensures forall w :: w != p + 8 && w != r + 8 ==> Rd(m', w) == Rd(s0.mem, w)
  {
  }

  /** A chunk in use that borders top grows to nb bytes into it. */
  method GrowIntoTop(m: MallocState, p: int, nb: int, ghost out: set<int>)
    requires m.Consistent(out) && p in m.L && m.L[p].kind.Live? && p + m.L[p].size == m.top
    requires m.L[p].size < nb < m.L[p].size + m.topsize && nb % 16 == 0
    modifies m`mem, m`L, m`top, m`topsize
    ensures m.Consistent(out)
    ensures Blocks(m.L) == Blocks(old(m.L))[p := nb] && p in Blocks(old(m.L))
    ensures PayloadKept(old(m.mem), m.mem, Blocks(old(m.L)))
    ensures p in m.L && m.L[p] == Chunk(Live, nb, old(m.L)[p].pin)
    ensures forall d, ds :: DvOK(old(m.L), d, ds) ==> DvOK(m.L, d, ds)
  {
    hide *;
    ghost var s0 := m.Now();
    NowIs(m);
    ConsistentIs(m, out);
    ghost var oldsize := m.L[p].size;
    BesideTop(s0, out, p);
    var newsize := ChunkSize(Rd(m.mem, p + 8)) + m.topsize;
    var newtopsize := newsize - nb;
    var newtop := p + nb;
    SetInuse(m, p, nb);
    m.mem := m.mem[newtop + 8 := newtopsize + 1];
    m.top := newtop;
    m.topsize := newtopsize;
    m.L := TopTwo(m.L, p, newtop, s0.top);
    NowIs(m);
    GrowTopHeads(s0, m.mem, p, newtop, newtopsize, Live, Top);
    LocalIs(s0.mem, m.mem, p + 8, s0.top + s0.topsize + 8);
    TopTwoDone(s0, m.Now(), p, newtop, out);
    BeyondIs(out, p, s0.top + s0.topsize, Live, p, Live, p);
    OutBesideTop(s0, out, m.L, p);
    Reout(m.Now(), Beyond(out, p, s0.top + s0.topsize), out);
    ConsistentIs(m, out);
    ghost var B, n := Blocks(s0.L), s0.top + s0.topsize;
    assert (B - {p})[p := nb] == B[p := nb];
    GrownPayload(s0, m.mem, p, newtop);
  }

  /** A chunk in use just below top. */
  lemma BesideTop(s: Snap, out: set<int>, p: int)
    requires Inv(s, out) && p in s.L && s.L[p].kind.Live? && p + s.L[p].size == s.top
    ensures TopRun(s, p) && s.top in s.L && s.L[s.top] == Chunk(Top, s.topsize, true) && s.top + s.topsize !in s.L
    ensures Rd(s.mem, p + 8) == HeadOf(s.L[p]) && s.L[p].size >= 32 && s.L[p].size % 16 == 0
    ensures ChunkSize(Rd(s.mem, p + 8)) == s.L[p].size && Rd(s.mem, p + 8) % 2 == if s.L[p].pin then 1 else 0
    ensures BlocksOutside(s.L, p, s.top + s.topsize) == Blocks(s.L) - {p} && p in Blocks(s.L)
      && Blocks(s.L)[p] == s.L[p].size
    ensures forall c :: c in s.L && p <= c < s.top + s.topsize ==> c == p || c == s.top
    ensures s.topsize >= 8 && s.topsize % 8 == 0 && p >= 0x2000
  {
    hide *;
    ChunkFacts(s, out, p);
    ChunkFacts(s, out, s.top);
    RunOf1(s, out, p);
    RunToTop(s, out, p);
    TopAlone(s, out);
    LiveHead(s.L[p]);
    BlocksIs(s.L);
    OnlyLive(s.L, p, s.top + s.topsize, {p});
  }

  lemma LiveHead(c: Chunk)
    requires c.size % 8 == 0
    ensures ChunkSize(HeadOf(c)) == c.size && HeadOf(c) % 2 == (if c.pin then 1 else 0)
    ensures Cinuse(HeadOf(c)) == Cin(c.kind) && Pinuse(HeadOf(c)) == c.pin
    ensures IsInuse(HeadOf(c)) == (Cin(c.kind) || !c.pin)
  {
    hide *;
    HeadOfWord(c);
    HeadDecodes(c.size, Cin(c.kind), c.pin);
    PinuseIs(HeadOf(c));
  }

  lemma HeadOfWord(c: Chunk)
    ensures HeadOf(c) == HeadWord(c.size, Cin(c.kind), c.pin)
  {
  }

  lemma PinuseIs(h: int)
    ensures Pinuse(h) <==> h % 2 == 1
  {
  }

  lemma OutBesideTop(s: Snap, out: set<int>, L': Layout, p: int)
    requires Inv(s, out) && p in s.L && s.L[p].kind.Live? && p + s.L[p].size == s.top
    requires SameOutside(s.L, L', p, s.top + s.topsize)
    requires forall b :: b in L' && p <= b <= s.top + s.topsize ==> !L'[b].kind.Free?
    ensures forall c :: c in L' && L'[c].kind.Free? ==> (c in out <==> c in Beyond(out, p, s.top + s.topsize))
    ensures forall d, ds :: DvOK(s.L, d, ds) ==> DvOK(L', d, ds)
  {
    hide *;
    BesideTop(s, out, p);
    BeyondIs(out, p, s.top + s.topsize, Live, p, Live, p);
    forall d, ds | DvOK(s.L, d, ds) ensures DvOK(L', d, ds) {
      DvIs(s.L, d, ds);
      DvElsewhere(s.L, L', p, s.top + s.topsize, d, ds);
    }
  }

  lemma GrowTopHeads(s0: Snap, m': Mem, p: int, r: int, rsize: int, j: Kind, k: Kind)
    requires p in s0.L && j.Live? && k.Top? && p + 32 <= r && Rd(s0.mem, p + 8) % 2 == if s0.L[p].pin then 1 else 0
    requires m' == (
      var m1 := s0.mem[p + 8 := Rd(s0.mem, p + 8) % 2 + (r - p) + 2];
      m1[p + (r - p) + 8 := SetPinuse(Rd(m1, p + (r - p) + 8))][r + 8 := rsize + 1])
    ensures Rd(m', p + 8) == HeadOf(Chunk(j, r - p, s0.L[p].pin))
    ensures Rd(m', r + 8) == HeadOf(Chunk(k, rsize, true))
    ensures forall w :: w != p + 8 && w != r + 8 ==> Rd(m', w) == Rd(s0.mem, w)
  {
    hide SetPinuse;
  }

  lemma GrownPayload(s: Snap, m': Mem, p: int, r: int)
    requires p in Blocks(s.L) && p + Blocks(s.L)[p] < r
    requires PayloadKept(s.mem, m', Blocks(s.L) - {p})
    requires forall w :: w != p + 8 && w != r + 8 ==> Rd(m', w) == Rd(s.mem, w)
    ensures PayloadKept(s.mem, m', Blocks(s.L))
  {
    forall c, w | c in Blocks(s.L) && c + 16 <= w < c + Blocks(s.L)[c] + 8 ensures Rd(m', w) == Rd(s.mem, w) {
      if c != p { assert c in Blocks(s.L) - {p} && (Blocks(s.L) - {p})[c] == Blocks(s.L)[c]; }
    }
  }

  /** A run that ends at top joins it. */
  method JoinTop(m: MallocState, p: int, psize: int, ghost out: set<int>)
    requires m.Consistent(out) && m.top != 0 && Run(m.Now(), p, m.top) && psize == m.top - p && m.L[p].pin
    modifies m`mem, m`L, m`top, m`topsize
    ensures m.Consistent(Beyond(out, p, old(m.top)))
    ensures Blocks(m.L) == BlocksOutside(old(m.L), p, old(m.top))
    ensures PayloadKept(old(m.mem), m.mem, BlocksOutside(old(m.L), p, old(m.top)))
    ensures m.top == p && m.topsize == old(m.topsize) + psize
    ensures forall d, ds :: (d < p || d >= old(m.top)) && DvOK(old(m.L), d, ds) ==> DvOK(m.L, d, ds)
    ensures forall c :: c in old(m.L) && c < p ==> c in m.L && m.L[c] == old(m.L)[c]
  {
    hide *;
    ghost var s0 := m.Now();
    ghost var n := s0.top + s0.topsize;
    NowIs(m);
    ConsistentIs(m, out);
    RunEnd(s0, out, p, s0.top);
    RunToTop(s0, out, p);
    TopAlone(s0, out);
    m.topsize := m.topsize + psize;
    m.top := p;
    m.mem := m.mem[p + 8 := m.topsize + 1];
    m.L := TopOne(m.L, p, s0.top);
    NowIs(m);
    RdIs(s0.mem, p + 8, m.topsize + 1, p + 8);
    HeadOfIs(Chunk(Top, m.topsize, true));
    LocalWrite(s0.mem, p + 8, m.topsize + 1, p + 8, s0.top + 16);
    TopOneDone(s0, m.Now(), p, out);
    BeyondIs(out, p, n, Live, p, Live, p);
    BeyondIs(out, p, s0.top, Live, p, Live, p);
    Reout(m.Now(), Beyond(out, p, n), Beyond(out, p, s0.top));
    ConsistentIs(m, Beyond(out, p, s0.top));
    WithTop(s0, out, p);
    SameOutsideIs(s0.L, m.L, p, n);
    forall d, ds | (d < p || d >= s0.top) && DvOK(s0.L, d, ds) ensures DvOK(m.L, d, ds) {
      DvIs(s0.L, d, ds);
      DvElsewhere(s0.L, m.L, p, n, d, ds);
    }
  }

  lemma LocalWrite(m: Mem, a: int, v: int, lo: int, hi: int)
    requires lo <= a < hi
    ensures Local(m, m[a := v], lo, hi)
  {
  }

  /** Top adds no live block to a run, and no other free chunk starts in it. */
  lemma WithTop(s: Snap, out: set<int>, p: int)
    requires Inv(s, out) && s.top != 0 && p <= s.top
    ensures BlocksOutside(s.L, p, s.top + s.topsize) == BlocksOutside(s.L, p, s.top)
  {
    hide *;
    TopAlone(s, out);
    BlocksIs(s.L);
    BlocksOutsideIs(s.L, p, s.top + s.topsize);
    BlocksOutsideIs(s.L, p, s.top);
  }
}
