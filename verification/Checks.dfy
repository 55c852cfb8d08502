/** The assertions that the allocator makes about itself when it is compiled for debugging follow from the invariant. */
module Checks {
  import opened Words
  import opened Memory
  import opened Sizes
  import opened BinMaps
  import opened Rings
  import opened Tries
  import opened TrieLinks
  import opened Layouts
  import opened Bins
  import opened State
  import opened HeapSteps
  import opened Chunks
  import opened Binning
  import opened Runs
  import opened Segments
  import opened SegmentList
  import opened FreeLists
  import opened TreeLists
  import opened Free
  import BinOps
  import TrieUnlink
  import Determined
  import Retile
  import TI = TreeIndex

  /** do_check_inuse_chunk, for blocks and segment records; direct-mmapped chunks are not in this build. */
  lemma CheckInuseChunk(m: MallocState, p: int, next: int)
    requires m.Valid() && p in m.L && (m.L[p].kind.Live? || m.L[p].kind.Record?)
      && next == p + ChunkSize(Rd(m.mem, p + 8))
    ensures (p + 16) % 16 == 0 && p >= m.leastAddr
    ensures IsInuse(Rd(m.mem, p + 8)) && !IsMmapped(Rd(m.mem, p + 8)) && Pinuse(Rd(m.mem, next + 8))
    ensures !Pinuse(Rd(m.mem, p + 8)) ==> (var prev := p - Rd(m.mem, p);
                                           prev + ChunkSize(Rd(m.mem, prev + 8)) == p && !IsInuse(Rd(m.mem, prev + 8)))
  {
    hide *;
    ValidIs(m);
    NowIs(m);
    ConsistentIs(m, {m.dv});
    var s, out := m.Now(), {m.dv};
    ChunkFacts(s, out, p);
    HeadShows(s, out, p);
    HeadShows(s, out, p + m.L[p].size);
    HeadOfIs(m.L[p]);
    InuseKind(m.L[p].kind);
    NotMmapped(Rd(m.mem, p + 8));
    if !m.L[p].pin {
      var prev := p - Rd(m.mem, p);
      ChunkFacts(s, out, prev);
      HeadShows(s, out, prev);
      HeadOfIs(m.L[prev]);
    }
  }

  lemma InuseKind(k: Kind)
    ensures k.Live? || k.Record? ==> Cin(k)
    ensures k.Free? ==> !Cin(k)
  {
  }

  /** do_check_free_chunk: of the designated victim less is asserted of the links, which it does not have. */
  lemma CheckFreeChunk(m: MallocState, p: int, next: int)
    requires m.Valid() && p in m.L && m.L[p].kind.Free? && next == p + ChunkSize(Rd(m.mem, p + 8))
    ensures (p + 16) % 16 == 0 && p >= m.leastAddr && p != m.top
    ensures !IsInuse(Rd(m.mem, p + 8)) && !IsMmapped(Rd(m.mem, p + 8)) && !Pinuse(Rd(m.mem, next + 8))
      && Pinuse(Rd(m.mem, p + 8))
    ensures ChunkSize(Rd(m.mem, p + 8)) >= 32 && ChunkSize(Rd(m.mem, p + 8)) % 16 == 0
      && Rd(m.mem, next) == ChunkSize(Rd(m.mem, p + 8))
    ensures IsInuse(Rd(m.mem, next + 8))
    ensures p != m.dv ==> Rd(m.mem, Rd(m.mem, p + 16) + 24) == p && Rd(m.mem, Rd(m.mem, p + 24) + 16) == p
    ensures p == m.dv ==> ChunkSize(Rd(m.mem, p + 8)) == m.dvsize && p !in m.D
  {
    hide *;
    ValidIs(m);
    NowIs(m);
    ConsistentIs(m, {m.dv});
    var s, out := m.Now(), {m.dv};
    BinsOf(m, out);
    ChunkFacts(s, out, p);
    HeadShows(s, out, p);
    ChunkFacts(s, out, p + m.L[p].size);
    HeadShows(s, out, p + m.L[p].size);
    HeadOfIs(m.L[p]);
    HeadOfIs(m.L[p + m.L[p].size]);
    NotMapped(Rd(m.mem, p + 8));
    DvIs(m.L, m.dv, m.dvsize);
    if p != m.dv { LinksAgree(m, p); }
  }

  /** The neighbours that a binned chunk names name it. */
  lemma LinksAgree(m: MallocState, p: int)
    requires m.Valid() && p in m.D
    ensures Rd(m.mem, Rd(m.mem, p + 16) + 24) == p && Rd(m.mem, Rd(m.mem, p + 24) + 16) == p
  {
    hide *;
    ValidIs(m);
    BinsOf(m, {m.dv});
    BinsValidIs(m);
    BinnedSize(m.mem, m.smallmap, m.treemap, m.D, m.rings, m.trees, p);
    if m.D[p] < 256 {
      var k := BeforeUnlinkSmall(m.mem, m.smallmap, m.treemap, m.D, m.rings, m.trees, m.leastAddr, p, m.D[p] / 8);
    } else {
      var q := BeforeUnlinkLarge(m.mem, m.smallmap, m.treemap, m.D, m.rings, m.trees, p, TI.Index(m.D[p]));
      RepParts(m.mem, q.t, q.par, TI.Index(m.D[p]));
      TrieUnlink.NodeOKIs(m.mem, q.t, q.par, TI.Index(m.D[p]));
      InItsChain(m.mem, Chain(q.t), q.t.s, TI.Index(m.D[p]), p);
    }
  }

  /** What do_check_malloc_state asserts of the designated victim. */
  lemma CheckVictim(m: MallocState)
    requires m.Valid() && m.dvsize != 0
    ensures (m.dv + 16) % 16 == 0 && m.dv >= m.leastAddr && ChunkSize(Rd(m.mem, m.dv + 8)) == m.dvsize >= 32
    ensures m.dv !in m.D
  {
    hide *;
    ValidIs(m);
    NowIs(m);
    ConsistentIs(m, {m.dv});
    DvIs(m.L, m.dv, m.dvsize);
    ChunkFacts(m.Now(), {m.dv}, m.dv);
    HeadShows(m.Now(), {m.dv}, m.dv);
    CheckFreeChunk(m, m.dv, m.dv + m.dvsize);
  }

  // ---- the trees ----

  /** What do_check_tree asserts of each chunk u of a chain of chunks of size S in bin idx. */
  predicate ChainAsserts(m: Mem, u: int, S: int, idx: int) {
    && (u + 16) % 16 == 0 && Rd(m, u + 56) == idx && ChunkSize(Rd(m, u + 8)) == S
    && !IsInuse(Rd(m, u + 8)) && !Pinuse(Rd(m, u + S + 8))
    && Rd(m, Rd(m, u + 16) + 24) == u && Rd(m, Rd(m, u + 24) + 16) == u
  }

  /** And of the one chunk of the chain that has a parent. */
  predicate HeadAsserts(m: Mem, u: int) {
    var par, l, r := Rd(m, u + 48), Rd(m, u + 32), Rd(m, u + 40);
    && par != 0 && par != u && (Rd(m, par + 32) == u || Rd(m, par + 40) == u || Rd(m, par) == u)
    && (l != 0 ==> Rd(m, l + 48) == u && l != u)
    && (r != 0 ==> Rd(m, r + 48) == u && r != u)
    && (l != 0 && r != 0 ==> ChunkSize(Rd(m, l + 8)) < ChunkSize(Rd(m, r + 8)))
  }

  /** do_check_tree: the chain of the root, and the trees that its child words name. */
  ghost predicate TreeAsserts(m: Mem, t: Tree, idx: nat)
    decreases t
  {
    t.Node? ==>
      var S := ChunkSize(Rd(m, t.a + 8));
      && 256 <= S < 0x1_0000_0000_0000_0000 && TI.Index(S) == idx && TI.MinSize(idx) <= S
      && (idx < 31 ==> S < TI.MinSize(idx + 1))
      && (forall u :: u in Chain(t) ==> ChainAsserts(m, u, S, idx))
      && (forall u :: u in Chain(t) && Rd(m, u + 48) == 0 ==> Rd(m, u + 32) == 0 && Rd(m, u + 40) == 0)
      && (forall u :: u in Chain(t) && Rd(m, u + 48) != 0 <==> u == t.a) && HeadAsserts(m, t.a)
      && Rd(m, t.a + 32) == Root(t.l) && TreeAsserts(m, t.l, idx)
      && Rd(m, t.a + 40) == Root(t.r) && TreeAsserts(m, t.r, idx)
  }

  /** What is known of a binned large chunk from its boundary tags and its bin. */
  ghost predicate LargeFacts(m: Mem, D: map<int, int>, idx: int) {
    forall x :: x in D ==>
      x % 16 == 0 && x >= HEAP_FLOOR && 256 <= D[x] < 0x1_0000_0000_0000_0000 && D[x] % 16 == 0
      && !Pinuse(Rd(m, x + D[x] + 8))
  }

  lemma ChainHolds(m: Mem, t: Tree, par: int, idx: nat, D: map<int, int>)
    requires t.Node? && NodeOK(m, t, par, idx) && LargeFacts(m, D, idx)
    requires forall x :: x in Chain(t) ==> x in D && D[x] == t.s
    ensures forall u :: u in Chain(t) ==> ChainAsserts(m, u, t.s, idx)
    ensures forall u :: u in Chain(t) && u != t.a ==> Unhooked(m, u)
  {
    hide Ring, Unhooked;
    var C := Chain(t);
    forall u | u in C ensures ChainAsserts(m, u, t.s, idx) {
      var k :| 0 <= k < |C| && C[k] == u;
      assert Tagged(m, C[k], t.s, idx);
      InItsChain(m, C, t.s, idx, u);
      TagBits(t.s);
    }
    forall u | u in C && u != t.a ensures Unhooked(m, u) {
      var k :| 0 <= k < |C| && C[k] == u;
      assert k > 0;
    }
  }

  lemma TagBits(s: int)
    requires s % 16 == 0
    ensures ChunkSize(s + 1) == s && !IsInuse(s + 1)
  {
    var q := s / 16;
    DivUnique(s + 1, 8, 2 * q, 1);
    DivUnique(s + 1, 4, 4 * q, 1);
  }

  /** A child of t, seen through its words in memory. */
  lemma ChildRoot(m: Mem, t: Tree, c: Tree, idx: nat, D: map<int, int>)
    requires t.Node? && Rep(m, c, t.a, idx) && Holds(c, D) && LargeFacts(m, D, idx)
    ensures Root(c) != 0 <==> c.Node?
    ensures c.Node? ==> Root(c) == c.a && c.a in Members(c) && Rd(m, c.a + 48) == t.a
                        && ChunkSize(Rd(m, c.a + 8)) == c.s
  {
    hide *;
    RootIs(c);
    if c.Node? {
      RepParts(m, c, t.a, idx);
      RootIsMember(c);
      HoldsParts(c, D);
      LargeFactsAt(m, D, idx, c.a);
      TagBits(c.s);
    }
  }

  lemma RootIs(t: Tree)
    ensures Root(t) == if t.Leaf? then 0 else t.a
  {
  }

  lemma HoldsParts(t: Tree, D: map<int, int>)
    requires t.Node? && Holds(t, D)
    ensures forall x :: x in Chain(t) ==> x in D && D[x] == t.s
    ensures t.a in Chain(t) && Holds(t.l, D) && Holds(t.r, D)
  {
    assert Chain(t)[0] == t.a;
  }

  lemma LargeFactsAt(m: Mem, D: map<int, int>, idx: int, x: int)
    requires LargeFacts(m, D, idx) && x in D
    ensures x % 16 == 0 && x >= 0x2000 && 256 <= D[x] < 0x1_0000_0000_0000_0000 && D[x] % 16 == 0
    ensures !Pinuse(Rd(m, x + D[x] + 8))
  {
  }

  lemma UnhookedIs(m: Mem, u: int)
    ensures Unhooked(m, u) <==> Rd(m, u + 32) == 0 && Rd(m, u + 40) == 0 && Rd(m, u + 48) == 0
  {
  }

  lemma HeadHolds(m: Mem, t: Tree, par: int, idx: nat, lo: int, w: nat, D: map<int, int>)
    requires t.Node? && Rep(m, t, par, idx) && Shape(t, lo, w) && Holds(t, D) && LargeFacts(m, D, idx)
    requires par > 0 && par !in Members(t)
    requires Rd(m, par + 32) == t.a || Rd(m, par + 40) == t.a || Rd(m, par) == t.a
    ensures HeadAsserts(m, t.a)
  {
    hide *;
    NodeFacts(t, lo, w, D);
    RepParts(m, t, par, idx);
    ChildRoot(m, t, t.l, idx, D);
    ChildRoot(m, t, t.r, idx, D);
    if t.l.Node? && t.r.Node? {
      NodeFacts(t.l, lo, w - 1, D);
      NodeFacts(t.r, lo + Pow2(w - 1), w - 1, D);
    }
    HeadAssertsIs(m, t.a);
  }

  lemma HeadAssertsIs(m: Mem, u: int)
    ensures HeadAsserts(m, u) <==>
      var par, l, r := Rd(m, u + 48), Rd(m, u + 32), Rd(m, u + 40);
      && par != 0 && par != u && (Rd(m, par + 32) == u || Rd(m, par + 40) == u || Rd(m, par) == u)
      && (l != 0 ==> Rd(m, l + 48) == u && l != u)
      && (r != 0 ==> Rd(m, r + 48) == u && r != u)
      && (l != 0 && r != 0 ==> ChunkSize(Rd(m, l + 8)) < ChunkSize(Rd(m, r + 8)))
  {
  }

  lemma BinCount()
    ensures TI.NTREEBINS == 32
  {
  }

  lemma TreeAssertsNode(m: Mem, t: Tree, idx: nat)
    requires t.Node? && ChunkSize(Rd(m, t.a + 8)) == t.s && 256 <= t.s < 0x1_0000_0000_0000_0000 && TI.Index(t.s) == idx
    requires TI.MinSize(idx) <= t.s && (idx < 31 ==> t.s < TI.MinSize(idx + 1)) && t.a in Chain(t)
    requires forall u :: u in Chain(t) ==> ChainAsserts(m, u, t.s, idx)
    requires forall u :: u in Chain(t) && u != t.a ==> Rd(m, u + 48) == 0 && Rd(m, u + 32) == 0 && Rd(m, u + 40) == 0
    requires Rd(m, t.a + 48) != 0 && HeadAsserts(m, t.a)
    requires Rd(m, t.a + 32) == Root(t.l) && TreeAsserts(m, t.l, idx)
    requires Rd(m, t.a + 40) == Root(t.r) && TreeAsserts(m, t.r, idx)
    ensures TreeAsserts(m, t, idx)
  {
    hide ChainAsserts, HeadAsserts, TI.Index, TI.MinSize, Chain, ChunkSize;
  }

  lemma LeafAsserts(m: Mem, t: Tree, idx: nat)
    requires t.Leaf?
    ensures TreeAsserts(m, t, idx)
  {
  }

  /** The assertions follow for every tree that memory holds, given the word that leads to it. */
  lemma {:induction false} TreeChecks(m: Mem, t: Tree, par: int, idx: nat, lo: int, w: nat, D: map<int, int>)
    requires Rep(m, t, par, idx) && Shape(t, lo, w) && Holds(t, D) && LargeFacts(m, D, idx) && idx < 32
    requires forall x :: x in Members(t) ==> x in D && 0 <= D[x] < 0x1_0000_0000_0000_0000 && TI.Index(D[x]) == idx
    requires par > 0 && par !in Members(t)
    requires t.Node? ==> Rd(m, par + 32) == t.a || Rd(m, par + 40) == t.a || Rd(m, par) == t.a
    ensures TreeAsserts(m, t, idx)
    decreases t
  {
    hide *;
    if t.Leaf? {
      LeafAsserts(m, t, idx);
    } else {
      NodeFacts(t, lo, w, D);
      RepParts(m, t, par, idx);
      HoldsParts(t, D);
      RootIsMember(t);
      ChainHolds(m, t, par, idx, D);
      LargeFactsAt(m, D, idx, t.a);
      TI.IndexBounds(t.s);
      BinCount();
      forall u | u in Chain(t) && u != t.a ensures Rd(m, u + 48) == 0 && Rd(m, u + 32) == 0 && Rd(m, u + 40) == 0 {
        UnhookedIs(m, u);
      }
      TagBits(t.s);
      HeadHolds(m, t, par, idx, lo, w, D);
      RootIs(t.l);
      RootIs(t.r);
      LeafShape(t.l);
      LeafShape(t.r);
      var w' := if w > 0 then w - 1 else 0;
      TreeChecks(m, t.l, t.a, idx, lo, w', D);
      TreeChecks(m, t.r, t.a, idx, if w > 0 then lo + Pow2(w') else lo, w', D);
      TreeAssertsNode(m, t, idx);
    }
  }

  lemma LeafShape(t: Tree)
    ensures t.Leaf? ==> forall lo: int, w: nat :: Shape(t, lo, w)
  {
  }

  /** do_check_treebin: the tree of every bin passes. */
  lemma CheckTree(m: MallocState, i: nat)
    requires m.Valid() && i < 32
    ensures |m.trees| == 32 && Rd(m.mem, TreeBinAt(i)) == Root(m.trees[i]) && TreeAsserts(m.mem, m.trees[i], i)
  {
    hide *;
    ValidIs(m);
    NowIs(m);
    ConsistentIs(m, {m.dv});
    BinsOf(m, {m.dv});
    BinsValidIs(m);
    BinsParts(m.mem, m.smallmap, m.treemap, m.D, m.rings, m.trees);
    BinContents(m.mem, m.smallmap, m.treemap, m.D, m.rings, m.trees);
    var D, t := Large(m.D), m.trees[i];
    BinOps.TreeBinParts(m.mem, m.treemap, i, t, m.D);
    forall x | x in D ensures x in m.D && m.D[x] == D[x] >= 256 { LargeHas(m.D, x); }
    forall x | x in D ensures x % 16 == 0 && x >= 0x2000 && 256 <= D[x] < 0x1_0000_0000_0000_0000 && D[x] % 16 == 0
      && !Pinuse(Rd(m.mem, x + D[x] + 8))
    {
      BinnedSize(m.mem, m.smallmap, m.treemap, m.D, m.rings, m.trees, x);
      CheckBinned(m, x);
    }
    LargeFactsWhole(m.mem, D, i);
    forall x | x in Members(t) ensures x in D && 0 <= D[x] < 0x1_0000_0000_0000_0000 && TI.Index(D[x]) == i
        && x >= 0x2000 {
      InBinMeans(m.D, x, i);
      LargeHas(m.D, x);
    }
    TreeBinPlace(i);
    RootIs(t);
    TreeChecks(m.mem, t, TreeBinAt(i), i, TI.BinLo(i), TI.BinWidth(i), D);
  }

  lemma LargeHas(D: map<int, int>, x: int)
    ensures x in Large(D) <==> x in D && D[x] >= 256
    ensures x in Large(D) ==> Large(D)[x] == D[x]
  {
  }

  lemma LargeFactsWhole(m: Mem, D: map<int, int>, idx: int)
    requires forall x :: x in D ==>
      x % 16 == 0 && x >= 0x2000 && 256 <= D[x] < 0x1_0000_0000_0000_0000 && D[x] % 16 == 0
      && !Pinuse(Rd(m, x + D[x] + 8))
    ensures LargeFacts(m, D, idx)
  {
  }

  lemma TreeBinPlace(i: nat)
    requires i < 32
    ensures 0 < TreeBinAt(i) < 0x2000
  {
  }

  lemma CheckBinned(m: MallocState, x: int)
    requires m.Valid() && x in m.D
    ensures x % 16 == 0 && x >= 0x2000 && m.D[x] % 16 == 0 && !Pinuse(Rd(m.mem, x + m.D[x] + 8))
  {
    hide *;
    ValidIs(m);
    NowIs(m);
    ConsistentIs(m, {m.dv});
    BinsOf(m, {m.dv});
    ChunkFacts(m.Now(), {m.dv}, x);
    HeadShows(m.Now(), {m.dv}, x + m.L[x].size);
    HeadOfIs(m.L[x]);
    HeadOfIs(m.L[x + m.L[x].size]);
  }

  lemma NotMapped(h: int)
    requires Pinuse(h)
    ensures !IsMmapped(h)
  {
  }

  /** Every member of a chain is between the neighbours its fd and bk name. */
  lemma InItsChain(m: Mem, C: seq<int>, s: int, idx: int, p: int)
    requires ChainOK(m, C, s, idx) && p in C
    ensures Rd(m, Rd(m, p + 16) + 24) == p && Rd(m, Rd(m, p + 24) + 16) == p
  {
    var k :| 0 <= k < |C| && C[k] == p;
    var prev := if k == 0 then |C| - 1 else k - 1;
    assert Linked(m, C[k], C[Nxt(|C|, k)]);
    assert Linked(m, C[prev], C[Nxt(|C|, prev)]);
  }

  /** do_check_top_chunk */
  lemma CheckTopChunk(m: MallocState)
    requires m.Valid() && m.top != 0
    ensures m.segs != [] && m.segs[0].base <= m.top < m.segs[0].base + m.segs[0].size
    ensures ChunkSize(Rd(m.mem, m.top + 8)) == m.topsize > 0 && (m.top + 16) % 16 == 0 && m.top >= m.leastAddr
    ensures m.topsize == m.segs[0].base + m.segs[0].size - m.top - 80
    ensures Pinuse(Rd(m.mem, m.top + 8)) && !Pinuse(Rd(m.mem, m.top + m.topsize + 8)) && m.top !in m.D
  {
    hide *;
    ValidIs(m);
    NowIs(m);
    ConsistentIs(m, {m.dv});
    var s, out := m.Now(), {m.dv};
    HasSegments(s, out);
    FirstHoldsTop(s, out, 0);
    InvParts(s, out);
    TopIs(m.mem, m.L, m.top, m.topsize);
    HeadShows(s, out, m.top);
    ChunkFacts(s, out, m.top);
    Retile.AfterTop(m.mem, m.L, m.top, m.top);
    TopFoot();
  }

  lemma TopFoot()
    ensures TOP_FOOT_SIZE == 80 && !Pinuse(80)
  {
  }

  /** Where a chunk is kept: small bin i, treebin i, or the designated victim. */
  datatype Place = SmallBin(i: int) | TreeBin(i: int) | Victim

  ghost predicate KeptIn(m: MallocState, c: int, place: Place)
    reads m
  {
    match place
    case SmallBin(i) => 0 <= i < |m.rings| && c in m.rings[i]
    case TreeBin(i) => 0 <= i < |m.trees| && c in Members(m.trees[i])
    case Victim => c == m.dv && m.dv != 0
  }

  lemma KeptInIs(m: MallocState, c: int, place: Place)
    ensures KeptIn(m, c, place) <==> match place
      case SmallBin(i) => 0 <= i < |m.rings| && c in m.rings[i]
      case TreeBin(i) => 0 <= i < |m.trees| && c in Members(m.trees[i])
      case Victim => c == m.dv && m.dv != 0
  {
  }

  /** What the bins hold: each binned chunk in the one bin of its size, and nothing else. */
  lemma BinContents(m: Mem, smallmap: U32, treemap: U32, D: map<int, int>, rings: seq<seq<int>>, trees: seq<Tree>)
    requires BinsOK(m, smallmap, treemap, D, rings, trees)
    ensures |rings| == 32 && |trees| == 32
    ensures forall i, c :: 0 <= i < 32 ==> (c in rings[i] <==> c in D && D[c] < 256 && D[c] == 8 * i)
    ensures forall i, c :: 0 <= i < 32 ==> (c in Members(trees[i]) <==> InBin(D, c, i))
  {
    hide *;
    BinsParts(m, smallmap, treemap, D, rings, trees);
    forall i, c | 0 <= i < 32 ensures c in rings[i] <==> c in D && D[c] < 256 && D[c] == 8 * i {
      if c in D { BinnedSize(m, smallmap, treemap, D, rings, trees, c); }
      RingHolds(m, smallmap, i, rings[i], D, c);
      CompleteAt(rings, trees, D, c);
    }
    forall i, c | 0 <= i < 32 ensures c in Members(trees[i]) <==> InBin(D, c, i) {
      InBinMeans(D, c, i);
      if c in D { BinnedSize(m, smallmap, treemap, D, rings, trees, c); }
      TreeHolds(m, treemap, i, trees[i], D, c);
      CompleteAt(rings, trees, D, c);
    }
  }

  lemma InBinMeans(D: map<int, int>, c: int, i: int)
    ensures InBin(D, c, i) <==> c in D && 256 <= D[c] <= 0xFFFF_FFFF_FFFF_FFFF && TI.Index(D[c]) == i
  {
  }

  /** A chunk is in the treebin of its size and in no other. */
  lemma OneTreeBin(D: map<int, int>, c: int)
    requires c in D && D[c] <= 0xFFFF_FFFF_FFFF_FFFF
    ensures forall i :: InBin(D, c, i) <==> D[c] >= 256 && i == TI.Index(D[c])
    ensures D[c] >= 256 ==> 0 <= TI.Index(D[c]) < 32
  {
    if D[c] >= 256 { TI.IndexBounds(D[c]); }
  }

  lemma NoTreeBin(D: map<int, int>, c: int)
    requires c !in D
    ensures forall i :: !InBin(D, c, i)
  {
  }

  lemma RingHolds(m: Mem, map0: U32, i: int, r: seq<int>, D: map<int, int>, c: int)
    requires 0 <= i < 32 && SmallBinOK(m, map0, i, r, D)
    ensures c in r ==> c in D && D[c] == 8 * i
  {
  }

  lemma TreeHolds(m: Mem, map0: U32, i: int, t: Tree, D: map<int, int>, c: int)
    requires 0 <= i < 32 && TreeBinOK(m, map0, i, t, D)
    ensures c in Members(t) ==> c in D && 256 <= D[c] <= 0xFFFF_FFFF_FFFF_FFFF && TI.Index(D[c]) == i
  {
    if c in Members(t) { assert InBin(D, c, i); }
  }

  lemma CompleteAt(rings: seq<seq<int>>, trees: seq<Tree>, D: map<int, int>, c: int)
    requires Complete(rings, trees, D) && (c in D ==> 0 <= D[c] <= 0xFFFF_FFFF_FFFF_FFFF && D[c] % 16 == 0)
    ensures |rings| == 32 && |trees| == 32
    ensures c in D && D[c] < 256 ==> D[c] == 8 * (D[c] / 8) && 0 <= D[c] / 8 < 32 && c in rings[D[c] / 8]
    ensures c in D && D[c] >= 256 ==> TI.Index(D[c]) < 32 && c in Members(trees[TI.Index(D[c])])
  {
  }

  /** A free chunk is kept in exactly one place; chunks in use, and top, in none. */
  lemma KeptInOnePlace(m: MallocState, c: int) returns (place: Place)
    requires m.Valid() && c in m.L
    ensures m.L[c].kind.Free? ==> KeptIn(m, c, place) && forall other :: KeptIn(m, c, other) ==> other == place
    ensures !m.L[c].kind.Free? ==> forall other :: !KeptIn(m, c, other)
  {
    hide *;
    ValidIs(m);
    NowIs(m);
    ConsistentIs(m, {m.dv});
    BinsOf(m, {m.dv});
    BinsValidIs(m);
    ChunkFacts(m.Now(), {m.dv}, c);
    DvIs(m.L, m.dv, m.dvsize);
    BinContents(m.mem, m.smallmap, m.treemap, m.D, m.rings, m.trees);
    if c in m.D { BinnedSize(m.mem, m.smallmap, m.treemap, m.D, m.rings, m.trees, c); }
    forall other ensures KeptIn(m, c, other) <==> match other
      case SmallBin(i) => 0 <= i < 32 && c in m.D && m.D[c] < 256 && m.D[c] == 8 * i
      case TreeBin(i) => 0 <= i < 32 && InBin(m.D, c, i)
      case Victim => c == m.dv && m.dv != 0
    {
      KeptInIs(m, c, other);
    }
    if c in m.D { OneTreeBin(m.D, c); } else { NoTreeBin(m.D, c); }
    place := if c !in m.D then Victim else if m.D[c] < 256 then SmallBin(m.D[c] / 8) else TreeBin(TI.Index(m.D[c]));
  }

  /**
   * do_check_smallbin: going backwards from the header, the chunks are free, of the size of the bin, and come to its
   * end.
   */
  lemma CheckSmallBin(m: MallocState, i: nat, k: nat)
    requires m.Valid() && i < 32
    ensures |m.rings| == 32 && (m.rings[i] != [] ==> Rd(m.mem, SmallBinAt(i) + 24) == m.rings[i][|m.rings[i]| - 1])
    ensures k < |m.rings[i]| ==>
      var p := m.rings[i][k];
      p in m.L && m.L[p].kind.Free? && p in m.D && ChunkSize(Rd(m.mem, p + 8)) == 8 * i
      && Rd(m.mem, p + 24) == if k == 0 then SmallBinAt(i) else m.rings[i][k - 1]
  {
    hide *;
    ValidIs(m);
    NowIs(m);
    ConsistentIs(m, {m.dv});
    BinsOf(m, {m.dv});
    BinsValidIs(m);
    BinsParts(m.mem, m.smallmap, m.treemap, m.D, m.rings, m.trees);
    var r := m.rings[i];
    RingBackwards(m.mem, m.smallmap, i, r, m.D, k);
    if k < |r| {
      HeadShows(m.Now(), {m.dv}, r[k]);
    }
  }

  lemma RingBackwards(m: Mem, map0: U32, i: nat, r: seq<int>, D: map<int, int>, k: nat)
    requires i < 32 && SmallBinOK(m, map0, i, r, D)
    ensures r != [] ==> Rd(m, SmallBinAt(i) + 24) == r[|r| - 1]
    ensures k < |r| ==> r[k] in D && D[r[k]] == 8 * i
    ensures k < |r| ==> Rd(m, r[k] + 24) == if k == 0 then SmallBinAt(i) else r[k - 1]
  {
    var c := [SmallBinAt(i)] + r;
    if r != [] { assert Linked(m, c[|r|], c[Nxt(|c|, |r|)]); }
    if k < |r| {
      assert r[k] in r;
      assert Linked(m, c[k], c[Nxt(|c|, k)]);
    }
  }

  /** The maps tell which bins have chunks: a bin's bit is set exactly when some chunk belongs in it. */
  lemma MapsTellBins(m: MallocState, i: nat)
    requires m.Valid() && i < 32
    ensures Marked(m.smallmap, i) <==> exists c :: c in m.D && m.D[c] < 256 && m.D[c] == 8 * i
    ensures Marked(m.treemap, i) <==> exists c :: InBin(m.D, c, i)
  {
    hide *;
    ValidIs(m);
    BinsOf(m, {m.dv});
    BinsValidIs(m);
    BinContents(m.mem, m.smallmap, m.treemap, m.D, m.rings, m.trees);
    BinsParts(m.mem, m.smallmap, m.treemap, m.D, m.rings, m.trees);
    var r, t := m.rings[i], m.trees[i];
    Determined.MarksAre(m.mem, m.smallmap, m.treemap, i, r, t, m.D);
    if r != [] {
      var c := r[0];
      assert c in m.rings[i];
      assert c in m.D && m.D[c] < 256 && m.D[c] == 8 * i;
    }
    if c :| c in m.D && m.D[c] < 256 && m.D[c] == 8 * i {
      assert c in r;
      HasMember(r, c);
    }
    if t.Node? {
      RootIsMember(t);
      assert InBin(m.D, t.a, i);
    }
    if c :| InBin(m.D, c, i) {
      assert c in Members(t);
      NoLeafMembers(t, c);
    }
  }

  lemma HasMember(r: seq<int>, c: int)
    requires c in r
    ensures r != []
  {
  }

  lemma NoLeafMembers(t: Tree, c: int)
    requires c in Members(t)
    ensures t.Node?
  {
  }
}
