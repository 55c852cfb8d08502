/** realloc: in place where the chunk or what follows it allows, else a new chunk, a copy, and the old one freed. */
module Realloc {
  import opened Words
  import opened Memory
  import opened Sizes
  import opened Layouts
  import opened State
  import opened HeapSteps
  import opened Chunks
  import opened Carve
  import opened Binning
  import opened Runs
  import opened SystemMemory
  import opened Allocate
  import opened Free
  import opened Payload
  import opened Calloc

  /** The blocks B, of p no more than the first size bytes: what a resizing must keep. */
  function Upto(B: map<int, int>, p: int, size: int): map<int, int> {
    if p in B && size < B[p] then B[p := size] else B
  }

  lemma UptoIs(B: map<int, int>, p: int, size: int)
    ensures Upto(B, p, size) == if p in B && size < B[p] then B[p := size] else B
  {
  }

  /** The block p has room for nb bytes afterwards, every other block is as it was, and nothing kept was overwritten. */
  ghost predicate Resized(L: Layout, L': Layout, m: Mem, m': Mem, p: int, nb: int) {
    && p in L' && L'[p].kind.Live? && nb <= L'[p].size < nb + 32
    && Blocks(L') == Blocks(L)[p := L'[p].size]
    && PayloadKept(m, m', Upto(Blocks(L), p, L'[p].size))
  }

  lemma ResizedIs(L: Layout, L': Layout, m: Mem, m': Mem, p: int, nb: int)
    ensures Resized(L, L', m, m', p, nb) <==>
      && p in L' && L'[p].kind.Live? && nb <= L'[p].size < nb + 32
      && Blocks(L') == Blocks(L)[p := L'[p].size]
      && PayloadKept(m, m', Upto(Blocks(L), p, L'[p].size))
  {
  }

  /** The payloads of the other blocks and the words of p up to size + 8 make up what must be kept. */
  lemma KeptUpto(m: Mem, m': Mem, B: map<int, int>, p: int, size: int)
    requires p in B && PayloadKept(m, m', B - {p})
    requires forall w :: p + 16 <= w < p + size + 8 && w < p + B[p] + 8 ==> Rd(m', w) == Rd(m, w)
    ensures PayloadKept(m, m', Upto(B, p, size))
  {
    var U := Upto(B, p, size);
    forall c, w | c in U && c + 16 <= w < c + U[c] + 8 ensures Rd(m', w) == Rd(m, w) {
      if c != p { assert c in B - {p} && (B - {p})[c] == U[c]; }
    }
  }

  lemma KeptThen(m0: Mem, m1: Mem, m2: Mem, B: map<int, int>, B2: map<int, int>, p: int, size: int)
    requires p in B && PayloadKept(m0, m1, Upto(B, p, size)) && PayloadKept(m1, m2, B2)
    requires B2 == B[p := size]
    ensures PayloadKept(m0, m2, Upto(B, p, size))
  {
    var U := Upto(B, p, size);
    forall c, w | c in U && c + 16 <= w < c + U[c] + 8 ensures Rd(m2, w) == Rd(m0, w) {
      assert c in B2 && U[c] <= B2[c];
    }
  }

  /** The chunk after p is free and out of its bin: together they are a run with the one live block p. */
  lemma WithNext(m: MallocState, p: int, x: int, n: int, out: set<int>)
    requires m.Consistent(out) && p in m.L && m.L[p].kind.Live? && x == p + m.L[p].size
    requires x in m.L && m.L[x].kind.Free? && n == x + m.L[x].size && x in out
    ensures Run(m.Now(), p, n) && n in m.L && !m.L[n].pin && !m.L[n].kind.Free?
    ensures BlocksOutside(m.L, p, n) == Blocks(m.L) - {p} && p in Blocks(m.L)
    ensures Blocks(m.L)[p] == m.L[p].size
    ensures forall c :: c in m.L && p <= c < n ==> c == p || c == x
    ensures (n - p) % 16 == 0 && n - p >= 64 && p > 0
  {
    hide *;
    NowIs(m);
    ConsistentIs(m, out);
    var s := m.Now();
    ChunkFacts(s, out, p);
    ChunkFacts(s, out, x);
    HeadOfIs(m.L[x]);
    LooseIs(s, p);
    LooseIs(s, x);
    RunOf2(s, out, p, x, n);
    EndInUse(s, out, n);
    BlocksIs(m.L);
    OnlyLive(m.L, p, n, {p});
    SumOfMultiples(m.L[p].size, m.L[x].size, 16);
  }

  /** p alone as a run. */
  lemma JustP(m: MallocState, p: int, n: int, out: set<int>)
    requires m.Consistent(out) && p in m.L && m.L[p].kind.Live? && n == p + m.L[p].size
    ensures Run(m.Now(), p, n) && BlocksOutside(m.L, p, n) == Blocks(m.L) - {p} && p in Blocks(m.L)
    ensures Blocks(m.L)[p] == m.L[p].size && n in m.L && m.L[n].pin
    ensures forall c :: c in m.L && p <= c < n ==> c == p
    ensures p > 0 && m.L[p].size >= 32 && m.L[p].size % 16 == 0
  {
    hide *;
    NowIs(m);
    ConsistentIs(m, out);
    ChunkFacts(m.Now(), out, p);
    HeadOfIs(m.L[p]);
    RunOf1(m.Now(), out, p);
    BlocksIs(m.L);
    OnlyLive(m.L, p, n, {p});
  }

  /** Cut the run from p in two, keep the first nb bytes, and dispose of the rest. */
  method KeepFirst(m: MallocState, p: int, nb: int, rsize: int, ghost out: set<int>)
    requires m.Consistent(out) && DvOK(m.L, m.dv, m.dvsize) && Run(m.Now(), p, p + nb + rsize)
    requires p > 0 && nb >= 32 && nb % 16 == 0 && rsize >= 32 && rsize % 16 == 0
    requires p in Blocks(m.L) && BlocksOutside(m.L, p, p + nb + rsize) == Blocks(m.L) - {p}
    requires m.dv < p || m.dv >= p + nb + rsize
    requires Beyond(out, p, p + nb + rsize) == {m.dv}
    modifies m`mem, m`smallmap, m`treemap, m`D, m`rings, m`trees, m`L, m`top, m`topsize, m`dv, m`dvsize
    ensures m.Valid() && Resized(old(m.L), m.L, old(m.mem), m.mem, p, nb)
    ensures Blocks(m.L) == Blocks(old(m.L))[p := nb] && p in m.L && m.L[p].size == nb
  {
    hide *;
    ghost var L0, m0, B := m.L, m.mem, Blocks(m.L);
    ghost var n := p + nb + rsize;
    NotInside(m.L, p, n, p + nb);
    SplitRun(m, p, nb, rsize, out);
    ghost var m1, L1 := m.mem, m.L;
    DvElsewhere(L0, m.L, p, n, m.dv, m.dvsize);
    ValidIs(m);
    var r := p + nb;
    DisposeChunk(m, r, rsize);
    BlocksIs(m.L);
    assert Blocks(m.L) == B[p := nb] by { DropSecond(B, p, nb, r, rsize); }
    assert p in Blocks(m.L) && Blocks(m.L)[p] == nb;
    KeptUpto(m0, m1, B, p, nb);
    KeptThen(m0, m1, m.mem, B, Blocks(m.L), p, nb);
    ResizedIs(L0, m.L, m0, m.mem, p, nb);
  }

  lemma NotInside(L: Layout, p: int, n: int, r: int)
    requires p < r < n && BlocksOutside(L, p, n) == Blocks(L) - {p}
    ensures r !in Blocks(L)
  {
    var B := Blocks(L) - {p};
    assert r in B ==> r in BlocksOutside(L, p, n);
  }

  lemma DropSecond(B: map<int, int>, p: int, nb: int, r: int, rsize: int)
    requires p in B && r !in B && p != r
    ensures (B - {p})[p := nb][r := rsize] - {r} == B[p := nb]
  {
  }

  lemma PutBack(B: map<int, int>, p: int, nb: int)
    requires p in B
    ensures (B - {p})[p := nb] == B[p := nb]
  {
  }

  /** The whole run from p becomes the chunk. */
  method KeepAll(m: MallocState, p: int, newsize: int, nb: int, ghost out: set<int>)
    requires m.Consistent(out) && Run(m.Now(), p, p + newsize)
    requires p in Blocks(m.L) && Blocks(m.L)[p] <= newsize && 32 <= nb <= newsize < nb + 32 && newsize % 16 == 0
    requires BlocksOutside(m.L, p, p + newsize) == Blocks(m.L) - {p}
    modifies m`mem, m`L
    ensures m.Consistent(Beyond(out, p, p + newsize)) && Resized(old(m.L), m.L, old(m.mem), m.mem, p, nb)
    ensures forall d, ds :: (d == 0 || d < p || d >= p + newsize) && DvOK(old(m.L), d, ds) ==> DvOK(m.L, d, ds)
    ensures Blocks(m.L) == Blocks(old(m.L))[p := newsize] && p in m.L && m.L[p].size == newsize
  {
    hide *;
    ghost var L0, m0, B := m.L, m.mem, Blocks(m.L);
    JoinRun(m, p, newsize, out);
    PutBack(B, p, newsize);
    KeptUpto(m0, m.mem, B, p, newsize);
    ResizedIs(L0, m.L, m0, m.mem, p, nb);
    forall d, ds | (d == 0 || d < p || d >= p + newsize) && DvOK(L0, d, ds) ensures DvOK(m.L, d, ds) {
      DvElsewhere(L0, m.L, p, p + newsize, d, ds);
    }
  }

  /** Extend into the designated victim after p, all of it or part. */
  method GrowIntoDv(m: MallocState, p: int, oldsize: int, nb: int) returns (ok: bool)
    requires m.Valid() && p in m.L && m.L[p].kind.Live? && m.L[p].size == oldsize < nb && nb % 16 == 0
      && m.dv == p + oldsize
    modifies m`mem, m`L, m`dv, m`dvsize
    ensures m.Valid() && (ok ==> Resized(old(m.L), m.L, old(m.mem), m.mem, p, nb))
    ensures ok ==> p in m.L && m.L[p].size == Fitted(oldsize + old(m.dvsize), nb)
    ensures ok ==> if oldsize + old(m.dvsize) - nb < 32 then m.dv == 0 && m.dvsize == 0
                   else m.dv == p + nb && m.dvsize == oldsize + old(m.dvsize) - nb
    ensures ok <==> oldsize + old(m.dvsize) >= nb
    ensures !ok ==> m.L == old(m.L) && m.mem == old(m.mem) && m.topsize == old(m.topsize)
  {
    hide *;
    ValidIs(m);
    JustP(m, p, p + oldsize, {m.dv});
    DvIs(m.L, m.dv, m.dvsize);
    var dvs := m.dvsize;
    FittedIs(oldsize + dvs, nb);
    ok := oldsize + dvs >= nb;
    if ok {
      ghost var L0, m0, B := m.L, m.mem, Blocks(m.L);
      ghost var n := m.dv + dvs;
      WithNext(m, p, m.dv, n, {m.dv});
      BeyondOne(m.dv, p, n);
      var dsize := oldsize + dvs - nb;
      if dsize >= 32 {
        var r := p + nb;
        GrowPart(m, p, nb, dsize, {m.dv});
        NowIs(m);
        ConsistentIs(m, {} + {r});
        m.dvsize := dsize;
        m.dv := r;
        NowIs(m);
        assert {} + {r} == {r};
        ConsistentIs(m, {r});
        DvIs(m.L, r, dsize);
        PutBack(B, p, nb);
        KeptUpto(m0, m.mem, B, p, nb);
        ResizedIs(L0, m.L, m0, m.mem, p, nb);
      } else {
        var newsize := oldsize + dvs;
        KeepAll(m, p, newsize, nb, {m.dv});
        NowIs(m);
        ConsistentIs(m, {});
        NoZero(m.Now(), {});
        Reout(m.Now(), {}, {0});
        m.dvsize := 0;
        m.dv := 0;
        NowIs(m);
        ConsistentIs(m, {0});
        DvIs(m.L, 0, 0);
      }
    }
    ValidIs(m);
  }

  /** Extend into the free chunk after p. */
  method GrowIntoFree(m: MallocState, p: int, oldsize: int, nb: int, next: int) returns (ok: bool)
    requires m.Valid() && p in m.L && m.L[p].kind.Live? && m.L[p].size == oldsize < nb && nb % 16 == 0
      && next == p + oldsize
    requires next in m.L && m.L[next].kind.Free? && next != m.dv
    modifies m`mem, m`smallmap, m`treemap, m`D, m`rings, m`trees, m`L, m`top, m`topsize, m`dv, m`dvsize
    ensures m.Valid() && (ok ==> Resized(old(m.L), m.L, old(m.mem), m.mem, p, nb))
    ensures ok ==> p in m.L && m.L[p].size == Fitted(oldsize + old(m.L)[next].size, nb)
    ensures ok <==> oldsize + old(m.L)[next].size >= nb
    ensures !ok ==> m.L == old(m.L) && m.mem == old(m.mem) && m.topsize == old(m.topsize)
  {
    hide *;
    ValidIs(m);
    NowIs(m);
    ConsistentIs(m, {m.dv});
    JustP(m, p, next, {m.dv});
    HeadShows(m.Now(), {m.dv}, next);
    ChunkFacts(m.Now(), {m.dv}, next);
    var nextsize := ChunkSize(Rd(m.mem, next + 8));
    FittedIs(oldsize + nextsize, nb);
    ok := oldsize + nextsize >= nb;
    if ok {
      ghost var L0, m0, B := m.L, m.mem, Blocks(m.L);
      ghost var n := next + nextsize;
      var rsize := oldsize + nextsize - nb;
      UnlinkChunk(m, next, nextsize, {m.dv});
      ghost var m1 := m.mem;
      WithNext(m, p, next, n, {m.dv} + {next});
      FreeAside(m, {m.dv} + {next}, p, next, n);
      BeyondPair(m.dv, next, p, n);
      if rsize < 32 {
        var newsize := oldsize + nextsize;
        KeepAll(m, p, newsize, nb, {m.dv} + {next});
        ResizedIs(L0, m.L, m1, m.mem, p, nb);
        BlocksIs(m.L);
        assert p in Blocks(m.L) && Blocks(m.L)[p] == newsize;
        UptoGrown(B, p, newsize);
        PayloadThen(m0, m1, m.mem, B, B, B);
        ResizedIs(L0, m.L, m0, m.mem, p, nb);
      } else {
        KeepFirst(m, p, nb, rsize, {m.dv} + {next});
        ResizedIs(L0, m.L, m1, m.mem, p, nb);
        UptoGrown(B, p, nb);
        assert p in Blocks(m.L) && Blocks(m.L)[p] == nb;
        BlocksIs(m.L);
        PayloadThen(m0, m1, m.mem, B, B, B);
        ResizedIs(L0, m.L, m0, m.mem, p, nb);
      }
    }
    ValidIs(m);
  }

  lemma UptoGrown(B: map<int, int>, p: int, size: int)
    requires p in B && size >= B[p]
    ensures Upto(B, p, size) == B
  {
  }

  lemma FreeAside(m: MallocState, out: set<int>, p: int, next: int, n: int)
    requires m.Consistent(out) && DvOK(m.L, m.dv, m.dvsize) && m.dv != next && p > 0
    requires p in m.L && m.L[p].kind.Live? && forall c :: c in m.L && p <= c < n ==> c == p || c == next
    ensures m.dv < p || m.dv >= n
  {
    hide *;
    DvIs(m.L, m.dv, m.dvsize);
  }

  /** Already big enough: what exceeds the request by a chunk or more is split off and disposed of. */
  method ShrinkTo(m: MallocState, p: int, oldsize: int, nb: int)
    requires m.Valid() && p in m.L && m.L[p].kind.Live? && m.L[p].size == oldsize && 32 <= nb <= oldsize && nb % 16 == 0
    modifies m`mem, m`smallmap, m`treemap, m`D, m`rings, m`trees, m`L, m`top, m`topsize, m`dv, m`dvsize
    ensures m.Valid() && Resized(old(m.L), m.L, old(m.mem), m.mem, p, nb)
    ensures p in m.L && m.L[p].size == Fitted(oldsize, nb)
  {
    hide *;
    ValidIs(m);
    JustP(m, p, p + oldsize, {m.dv});
    var rsize := oldsize - nb;
    FittedIs(oldsize, nb);
    if rsize >= 32 {
      NowIs(m);
      ConsistentIs(m, {m.dv});
      DvOutside(m.Now(), {m.dv}, m.dv, m.dvsize, p, p + oldsize);
      BeyondSame({m.dv}, p, p + oldsize);
      KeepFirst(m, p, nb, rsize, {m.dv});
    } else {
      UptoGrown(Blocks(m.L), p, oldsize);
      PayloadRefl(m.mem, Blocks(m.L));
      assert Blocks(m.L)[p := oldsize] == Blocks(m.L);
      ResizedIs(m.L, m.L, m.mem, m.mem, p, nb);
    }
  }

  /** What follows the block p is free and large enough, with it, for nb bytes; of top something must remain. */
  predicate RoomAfter(L: Layout, p: int, nb: int)
    requires p in L
  {
    var next := p + L[p].size;
    next in L && ((L[next].kind.Top? && L[p].size + L[next].size > nb)
                  || (L[next].kind.Free? && L[p].size + L[next].size >= nb))
  }

  /** The size of a block that stays where it is: exactly nb, or all there is when the rest would be too small. */
  function NewSize(L: Layout, p: int, nb: int): int
    requires p in L
  {
    var next := p + L[p].size;
    if nb <= L[p].size || next !in L then Fitted(L[p].size, nb)
    else if L[next].kind.Top? then nb
    else Fitted(L[p].size + L[next].size, nb)
  }

  predicate ResizedExactly(L: Layout, L': Layout, p: int, nb: int) {
    p in L && p in L' && L'[p].size == NewSize(L, p, nb)
  }

  lemma ResizedExactlyIs(L: Layout, L': Layout, p: int, nb: int)
    ensures ResizedExactly(L, L', p, nb) <==> p in L && p in L' && L'[p].size == NewSize(L, p, nb)
  {
  }

  lemma NewSizeIs(L: Layout, p: int, nb: int)
    requires p in L && p + L[p].size in L
    ensures var c := L[p + L[p].size];
            NewSize(L, p, nb) == if nb <= L[p].size then Fitted(L[p].size, nb) else if c.kind.Top? then nb
                                 else Fitted(L[p].size + c.size, nb)
  {
  }

  /** The block p is large enough for nb bytes or can grow where it is. */
  predicate StaysPut(L: Layout, p: int, nb: int) {
    p in L && (nb <= L[p].size || RoomAfter(L, p, nb))
  }

  lemma StaysPutIs(L: Layout, p: int, nb: int)
    requires p in L
    ensures StaysPut(L, p, nb) <==> nb <= L[p].size || RoomAfter(L, p, nb)
  {
  }

  lemma RoomAfterIs(L: Layout, p: int, nb: int)
    requires p in L && p + L[p].size in L
    ensures var c := L[p + L[p].size];
            RoomAfter(L, p, nb) <==> (c.kind.Top? && L[p].size + c.size > nb)
                                     || (c.kind.Free? && L[p].size + c.size >= nb)
    ensures Cin(L[p + L[p].size].kind) ==> !RoomAfter(L, p, nb)
  {
  }

  /**
   * try_realloc_chunk: the same chunk with room for nb bytes; null, and nothing changed, exactly when there is no such
   * room.
   */
  method TryReallocChunk(m: MallocState, p: int, nb: int) returns (newp: int)
    requires m.Valid() && p in m.L && m.L[p].kind.Live? && nb >= 32 && nb % 16 == 0
    modifies m`mem, m`smallmap, m`treemap, m`D, m`rings, m`trees, m`L, m`top, m`topsize, m`dv, m`dvsize
    ensures m.Valid()
    ensures newp == 0 ==> m.L == old(m.L) && m.mem == old(m.mem) && m.topsize == old(m.topsize)
    ensures newp != 0 ==> newp == p && Resized(old(m.L), m.L, old(m.mem), m.mem, p, nb)
    ensures newp == 0 <==> nb > old(m.L)[p].size && !RoomAfter(old(m.L), p, nb)
    ensures newp != 0 ==> ResizedExactly(old(m.L), m.L, p, nb)
  {
    hide *;
    newp := 0;
    var oldsize := ChunkSize(Rd(m.mem, p + 8));
    ghost var n0 := p + m.L[p].size;
    LiveFacts(m, p, n0);
    var next := p + oldsize;
    NowIs(m);
    ConsistentIs(m, {m.dv});
    HeadShows(m.Now(), {m.dv}, next);
    NextFacts(m, p, next);
    RoomAfterIs(m.L, p, nb);
    ghost var L0 := m.L;
    NewSizeIs(L0, p, nb);
    if p >= m.leastAddr && IsInuse(Rd(m.mem, p + 8)) && p < next && Pinuse(Rd(m.mem, next + 8)) {
      if oldsize >= nb {
        ShrinkTo(m, p, oldsize, nb);
        newp := p;
      } else if next == m.top {
        if oldsize + m.topsize > nb {
          ghost var m0 := m.mem;
          GrowIntoTop(m, p, nb, {m.dv});
          UptoGrown(Blocks(L0), p, nb);
          ResizedIs(L0, m.L, m0, m.mem, p, nb);
          ValidIs(m);
          newp := p;
        }
      } else if next == m.dv {
        var ok := GrowIntoDv(m, p, oldsize, nb);
        if ok { newp := p; }
      } else if !Cinuse(Rd(m.mem, next + 8)) {
        ChunkFacts(m.Now(), {m.dv}, next);
        var ok := GrowIntoFree(m, p, oldsize, nb, next);
        if ok { newp := p; }
      }
    } else {
      assert false;
    }
    ResizedExactlyIs(L0, m.L, p, nb);
  }

  /** What follows a live block, seen through the fields of the state. */
  lemma NextFacts(m: MallocState, p: int, next: int)
    requires m.Valid() && p in m.L && m.L[p].kind.Live? && next == p + m.L[p].size
    ensures p > 0 && m.L[p].size >= 32
    ensures next in m.L && (m.L[next].kind.Top? <==> next == m.top) && (next == m.top ==> m.L[next].size == m.topsize)
    ensures next == m.dv ==> m.L[next].kind.Free? && m.L[next].size == m.dvsize
    ensures Cinuse(Rd(m.mem, next + 8)) <==> Cin(m.L[next].kind)
    ensures !Cin(m.L[next].kind) ==> m.L[next].kind.Free? || m.L[next].kind.Top?
  {
    hide *;
    ValidIs(m);
    NowIs(m);
    ConsistentIs(m, {m.dv});
    ChunkFacts(m.Now(), {m.dv}, p);
    HeadShows(m.Now(), {m.dv}, next);
    HeadOfIs(m.L[next]);
    InvParts(m.Now(), {m.dv});
    TopOKIs(m.L, m.top, m.topsize);
    DvIs(m.L, m.dv, m.dvsize);
    if next == m.top { TopIs(m.mem, m.L, m.top, m.topsize); }
  }

  // ---- realloc ----

  /** The bytes of a block that its caller may use and has asked to keep. */
  function Kept(oldsize: int, bytes: U64): nat {
    if oldsize - 8 < bytes then (if oldsize >= 8 then oldsize - 8 else 0) else bytes
  }

  lemma KeptIs(oldsize: int, bytes: U64)
    requires oldsize >= 32
    ensures Kept(oldsize, bytes) == (if oldsize - 8 < bytes then oldsize - 8 else bytes)
  {
  }

  lemma BytesFromWords(m: Mem, a: int, m': Mem, b: int, n: nat)
    requires forall w :: a <= w < a + n ==> Rd(m', w + (b - a)) == Rd(m, w)
    ensures SameBytes(m, a, m', b, n)
  {
    forall k {:trigger Word(a, k)} | 0 <= k < n / 8 ensures Rd(m', Word(b, k)) == Rd(m, Word(a, k)) {
      assert Rd(m', Word(a, k) + (b - a)) == Rd(m, Word(a, k));
    }
    if n % 8 != 0 { assert Rd(m', Word(a, n / 8) + (b - a)) == Rd(m, Word(a, n / 8)); }
  }

  /** Bytes survive on both sides of a copy when the words around it do. */
  lemma BytesThrough(m0: Mem, m1: Mem, a: int, m2: Mem, m3: Mem, b: int, n: nat)
    requires SameBytes(m1, a, m2, b, n)
    requires forall w :: a <= w < a + n ==> Rd(m1, w) == Rd(m0, w)
    requires forall w :: b <= w < b + n ==> Rd(m3, w) == Rd(m2, w)
    ensures SameBytes(m0, a, m3, b, n)
  {
    forall k {:trigger Word(a, k)} | 0 <= k < n / 8 ensures Rd(m3, Word(b, k)) == Rd(m0, Word(a, k)) {
      assert Rd(m2, Word(b, k)) == Rd(m1, Word(a, k));
    }
  }

  lemma PayloadOf(m: Mem, m': Mem, B: map<int, int>, c: int)
    requires PayloadKept(m, m', B) && c in B
    ensures forall w :: c + 16 <= w < c + B[c] + 8 ==> Rd(m', w) == Rd(m, w)
  {
  }

  /** Copy to the new block what the old one held, then free the old one. */
  method MoveAndFree(m: MallocState, p: int, mem: int, bytes: U64, ghost L0: Layout, ghost m0: Mem)
    requires m.Valid() && p in Blocks(L0) && mem != 0 && Served(L0, m.L, mem, ChunkRequest(bytes))
      && PayloadKept(m0, m.mem, Blocks(L0))
    modifies m
    ensures m.Valid() && mem - 16 != p && mem - 16 in m.L
    ensures ChunkRequest(bytes) <= m.L[mem - 16].size < ChunkRequest(bytes) + 32
    ensures Blocks(m.L) == (Blocks(L0) - {p})[mem - 16 := m.L[mem - 16].size] && mem - 16 !in Blocks(L0)
    ensures PayloadKept(m0, m.mem, Blocks(L0) - {p})
    ensures SameBytes(m0, p + 16, m.mem, mem, Kept(Blocks(L0)[p], bytes))
  {
    hide *;
    var c := mem - 16;
    ServedIs(L0, m.L, mem, ChunkRequest(bytes));
    ServedRoom(m, L0, mem, bytes);
    BlocksIs(m.L);
    ghost var s1, B1, size := m.Now(), Blocks(m.L), m.L[c].size;
    ghost var L1, m1 := m.L, m.mem;
    assert p in B1 && B1[p] == Blocks(L0)[p];
    LiveFacts(m, p, p + m.L[p].size);
    NowIs(m);
    ValidIs(m);
    ConsistentIs(m, {m.dv});
    TwoBlocksApart(s1, {m.dv}, p, c);
    var oc := ChunkSize(Rd(m.mem, p + 8)) - CHUNK_OVERHEAD;
    OverheadIs();
    var n: nat := if oc < bytes then oc else bytes;
    KeptIs(Blocks(L0)[p], bytes);
    CopyBytes(m, mem, p + 16, n);
    ghost var m2 := m.mem;
    NowIs(m);
    BlockWrites(m, s1, c, mem, mem + n);
    PayloadOf(m0, m1, Blocks(L0), p);
    FreeMem(m, p + 16);
    BlocksIs(m.L);
    assert c in Blocks(m.L) && Blocks(m.L)[c] == size;
    PayloadOf(m2, m.mem, Blocks(m.L), c);
    BytesThrough(m0, m1, p + 16, m2, m.mem, mem, n);
    MovedBlocks(Blocks(L0), p, c, size);
    PayloadThen(m0, m1, m2, Blocks(L0) - {p}, Blocks(L0), B1 - {c});
    PayloadThen(m0, m2, m.mem, Blocks(L0) - {p}, Blocks(L0) - {p}, Blocks(m.L));
  }

  lemma OverheadIs()
    ensures CHUNK_OVERHEAD == 8
  {
  }

  lemma MovedBlocks(B: map<int, int>, p: int, c: int, size: int)
    requires p in B && c !in B
    ensures B[c := size] - {p} == (B - {p})[c := size]
  {
  }

  lemma TwoBlocksApart(s: Snap, out: set<int>, p: int, c: int)
    requires Inv(s, out) && p in s.L && c in s.L && p != c
    ensures p + s.L[p].size <= c || c + s.L[c].size <= p
  {
    hide *;
    if p < c { NotBetween(s, out, p, c); } else { NotBetween(s, out, c, p); }
  }

  /**
   * The block p became q, at the old place or a new one: it fits the request, the old contents are there as far as both
   * reach, and all other blocks are as they were.
   */
  ghost predicate Reallocated(L: Layout, L': Layout, m: Mem, m': Mem, p: int, q: int, bytes: U64) {
    && p in Blocks(L) && q in L' && (p == q || q !in Blocks(L))
    && Blocks(L') == (Blocks(L) - {p})[q := L'[q].size]
    && Request2Size(bytes) <= L'[q].size < Request2Size(bytes) + 32
    && PayloadKept(m, m', Blocks(L) - {p})
    && SameBytes(m, p + 16, m', q + 16, Kept(Blocks(L)[p], bytes))
  }

  lemma ReallocatedIs(L: Layout, L': Layout, m: Mem, m': Mem, p: int, q: int, bytes: U64)
    ensures Reallocated(L, L', m, m', p, q, bytes) <==>
      && p in Blocks(L) && q in L' && (p == q || q !in Blocks(L))
      && Blocks(L') == (Blocks(L) - {p})[q := L'[q].size]
      && Request2Size(bytes) <= L'[q].size < Request2Size(bytes) + 32
      && PayloadKept(m, m', Blocks(L) - {p})
      && SameBytes(m, p + 16, m', q + 16, Kept(Blocks(L)[p], bytes))
  {
  }

  /**
   * dlrealloc. On null the old block is live and unchanged, and the request was too large, or neither the block, with
   * what follows it, nor anything free in the heap could serve it. Otherwise the result is a block that fits the
   * request, at the old place whenever there is room, with the old contents as far as both reach, and all other blocks
   * are as they were.
   */
  method ReallocMem(m: MallocState, oldmem: int, bytes: U64) returns (mem: int)
    requires m.Valid() && (oldmem != 0 ==> oldmem - 16 in Blocks(m.L))
    modifies m
    ensures m.Valid()
    ensures mem == 0 ==> Blocks(m.L) == Blocks(old(m.L)) && PayloadKept(old(m.mem), m.mem, Blocks(m.L))
    ensures oldmem == 0 ==> Served(old(m.L), m.L, mem, ChunkRequest(bytes))
                            && PayloadKept(old(m.mem), m.mem, Blocks(old(m.L)))
    ensures oldmem != 0 && mem != 0 ==> Reallocated(old(m.L), m.L, old(m.mem), m.mem, oldmem - 16, mem - 16, bytes)
    ensures bytes >= 0xFFFF_FFFF_FFFF_FF80 ==> mem == 0
    ensures oldmem == 0 ==> (mem == 0 <==> Denied(old(m.L), old(m.Side()), ChunkRequest(bytes)))
    ensures oldmem != 0 && bytes < 0xFFFF_FFFF_FFFF_FF80 ==>
      (mem == 0 <==> !StaysPut(old(m.L), oldmem - 16, ChunkRequest(bytes))
                     && Denied(old(m.L), old(m.Side()), ChunkRequest(bytes)))
    ensures oldmem != 0 && bytes < 0xFFFF_FFFF_FFFF_FF80 ==>
      (mem == oldmem <==> StaysPut(old(m.L), oldmem - 16, ChunkRequest(bytes)))
    ensures oldmem != 0 && mem == oldmem ==> ResizedExactly(old(m.L), m.L, oldmem - 16, ChunkRequest(bytes))
  {
    hide *;
    ghost var L0, m0, B := m.L, m.mem, Blocks(m.L);
    mem := 0;
    PayloadRefl(m.mem, B);
    if oldmem == 0 {
      mem := Malloc(m, bytes);
      if mem == 0 { ServedSameLive(L0, m.L, mem, ChunkRequest(bytes)); }
    } else if bytes < 0xFFFF_FFFF_FFFF_FF80 {
      var nb := Request2Size(bytes);
      RequestIs(bytes);
      ChunkRequestIs(bytes);
      var oldp := oldmem - 16;
      BlocksIs(m.L);
      LiveFacts(m, oldp, oldp + m.L[oldp].size);
      StaysPutIs(m.L, oldp, nb);
      SideIs(m);
      var newp := TryReallocChunk(m, oldp, nb);
      SideIs(m);
      if newp != 0 {
        mem := newp + 16;
        InPlace(L0, m.L, m0, m.mem, oldp, bytes);
        ReallocatedIs(L0, m.L, m0, m.mem, oldp, oldp, bytes);
      } else {
        mem := Malloc(m, bytes);
        if mem != 0 {
          MoveAndFree(m, oldp, mem, bytes, L0, m0);
          ReallocatedIs(L0, m.L, m0, m.mem, oldp, mem - 16, bytes);
        } else {
          ServedSameLive(L0, m.L, mem, ChunkRequest(bytes));
        }
      }
    }
  }

  lemma RequestIs(bytes: U64)
    requires bytes < 0xFFFF_FFFF_FFFF_FF80
    ensures Request2Size(bytes) == ChunkRequest(bytes) && Request2Size(bytes) >= bytes + 8
  {
    Request2SizeFits(bytes);
  }

  lemma InPlace(L: Layout, L': Layout, m: Mem, m': Mem, p: int, bytes: U64)
    requires bytes < 0xFFFF_FFFF_FFFF_FF80 && p in Blocks(L) && Blocks(L)[p] >= 8
    requires Resized(L, L', m, m', p, Request2Size(bytes))
    ensures p in L' && Blocks(L') == (Blocks(L) - {p})[p := L'[p].size] && PayloadKept(m, m', Blocks(L) - {p})
    ensures SameBytes(m, p + 16, m', p + 16, Kept(Blocks(L)[p], bytes))
    ensures Request2Size(bytes) <= L'[p].size < Request2Size(bytes) + 32
  {
    hide *;
    ResizedIs(L, L', m, m', p, Request2Size(bytes));
    RequestIs(bytes);
    var B := Blocks(L);
    var U := Upto(B, p, L'[p].size);
    UptoIs(B, p, L'[p].size);
    PutBack(B, p, L'[p].size);
    PayloadThen(m, m, m', B - {p}, B - {p}, U) by { PayloadRefl(m, B - {p}); }
    PayloadOf(m, m', U, p);
    KeptAtMost(B[p], bytes);
    BytesFromWords(m, p + 16, m', p + 16, Kept(B[p], bytes));
  }

  lemma KeptAtMost(oldsize: int, bytes: U64)
    requires oldsize >= 8
    ensures Kept(oldsize, bytes) <= oldsize - 8 && Kept(oldsize, bytes) <= bytes
  {
  }
}
