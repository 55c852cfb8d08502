/** insert_large_chunk and unlink_large_chunk, step by step, with the loops that walk the trie. */
module TreeLists {
  import opened Sequences
  import opened Words
  import opened Memory
  import opened Sizes
  import opened BinMaps
  import opened Rings
  import opened Tries
  import opened TrieLinks
  import opened TrieUnlink
  import opened Bins
  import opened BinOps
  import opened State
  import opened FreeLists
  import TI = TreeIndex

  /** A descent for size S has reached the subtree t of tree0, whose sizes lie in [lo, lo + 2^w). */
  ghost predicate Descending(m: Mem, tree0: Tree, t: Tree, S: int, i: nat, lo: int, w: nat, c: int, par: int, K: int,
                             D: map<int, int>)
  {
    && t.Node? && Rep(m, t, par, i) && Shape(t, lo, w) && Holds(t, D)
    && w <= 64 && lo <= S < lo + Pow2(w) && K == (S - lo) * Pow2(64 - w)
    && FindSlot(t, S, lo, w, c, par) == FindSlot(tree0, S, TI.BinLo(i), TI.BinWidth(i), TreeBinAt(i), TreeBinAt(i))
  }

  /** child[(K >> 63) & 1], as an address. */
  function ChildWord(T: int, K: int): int {
    T + 32 + 8 * (K / 0x8000_0000_0000_0000)
  }

  lemma MarkedTree(m: Mem, map0: U32, i: nat, t: Tree, D: map<int, int>)
    requires i < 32 && TreeBinOK(m, map0, i, t, D) && Marked(map0, i)
    ensures t.Node? && Rep(m, t, TreeBinAt(i), i) && Shape(t, TI.BinLo(i), TI.BinWidth(i)) && Holds(t, Large(D))
    ensures Rd(m, TreeBinAt(i)) == t.a
  {
    hide Rep, Shape, Holds, Members;
  }

  lemma StartDescent(m: Mem, map0: U32, tree0: Tree, S: int, i: nat, D: map<int, int>)
    requires i < 32 && TreeBinOK(m, map0, i, tree0, D) && Marked(map0, i)
    requires 256 <= S <= 0xFFFF_FFFF_FFFF_FFFF && TI.Index(S) == i
    ensures TI.BinWidth(i) <= 64
    ensures Descending(m, tree0, tree0, S, i, TI.BinLo(i), TI.BinWidth(i), TreeBinAt(i), TreeBinAt(i),
                       TI.SizeBits(S, i), Large(D))
    ensures Rd(m, TreeBinAt(i)) == tree0.a
  {
    hide *;
    TI.InBinRange(S);
    TI.SizeBitsStart(S);
    MarkedTree(m, map0, i, tree0, D);
    DescendingIs(m, tree0, tree0, S, i, TI.BinLo(i), TI.BinWidth(i), TreeBinAt(i), TreeBinAt(i), TI.SizeBits(S, i),
                 Large(D));
  }

  /** One step: the sign bit picks the half that holds S; shifting consumes the bit. */
  lemma DescendStep(m: Mem, tree0: Tree, t: Tree, S: int, i: nat, lo: int, w: nat, c: int, par: int, K: int, D: map<int,
                    int>)
    requires Descending(m, tree0, t, S, i, lo, w, c, par, K, D) && t.s != S
    ensures w > 0 && 0 <= K
    ensures S < lo + Pow2(w - 1) ==> (
      ChildWord(t.a, K) == t.a + 32
      && (t.l.Node? ==> Descending(m, tree0, t.l, S, i, lo, w - 1, t.a + 32, t.a, K * 2 % 0x1_0000_0000_0000_0000, D))
      && (t.l.Leaf? ==> FindSlot(tree0, S, TI.BinLo(i), TI.BinWidth(i), TreeBinAt(i), TreeBinAt(i)) ==
                        At(t.a + 32, t.a)))
    ensures S >= lo + Pow2(w - 1) ==> (
      ChildWord(t.a, K) == t.a + 40
      && (t.r.Node? ==> Descending(m, tree0, t.r, S, i, lo + Pow2(w - 1), w - 1, t.a + 40, t.a,
                                   K * 2 % 0x1_0000_0000_0000_0000, D))
      && (t.r.Leaf? ==> FindSlot(tree0, S, TI.BinLo(i), TI.BinWidth(i), TreeBinAt(i), TreeBinAt(i)) ==
                        At(t.a + 40, t.a)))
  {
    hide *;
    DescendingIs(m, tree0, t, S, i, lo, w, c, par, K, D);
    NodeFacts(t, lo, w, D);
    RepParts(m, t, par, i);
    OneSizeLeft(S, t.s, lo, w);
    ChildWordIs(t.a, K);
    TI.SignBitSplits(S - lo, w);
    if S < lo + Pow2(w - 1) {
      DescendLeft(t, 0, S, lo, w, c, par);
      DescendingIs(m, tree0, t.l, S, i, lo, w - 1, t.a + 32, t.a, K * 2 % 0x1_0000_0000_0000_0000, D);
      LeafSlot(S, lo, w - 1, t.a + 32, t.a);
    } else {
      DescendRight(t, 0, S, lo, w, c, par);
      DescendingIs(m, tree0, t.r, S, i, lo + Pow2(w - 1), w - 1, t.a + 40, t.a, K * 2 % 0x1_0000_0000_0000_0000, D);
      LeafSlot(S, lo + Pow2(w - 1), w - 1, t.a + 40, t.a);
    }
  }

  /** With no bits left there is one size left. */
  lemma OneSizeLeft(S: int, s: int, lo: int, w: nat)
    requires lo <= S < lo + Pow2(w) && lo <= s < lo + Pow2(w) && s != S
    ensures w > 0
  {
  }

  lemma LeafSlot(S: int, lo: int, w: nat, c: int, par: int)
    ensures FindSlot(Leaf, S, lo, w, c, par) == At(c, par)
  {
  }

  /** What the descent reads at a node. */
  lemma NodeReads(m: Mem, tree0: Tree, t: Tree, S: int, i: nat, lo: int, w: nat, c: int, par: int, K: int, D: map<int,
                  int>)
    requires Descending(m, tree0, t, S, i, lo, w, c, par, K, D)
    requires (forall x :: x in D ==> x >= 0 && D[x] % 8 == 0) && t.a in D
    ensures ChunkSize(Rd(m, t.a + 8)) == t.s && t.a > 0
    ensures Rd(m, t.a + 32) == Root(t.l) && Rd(m, t.a + 40) == Root(t.r)
    ensures Root(t.l) != 0 <==> t.l.Node?
    ensures Root(t.r) != 0 <==> t.r.Node?
    ensures Root(t.l) == 0 || Root(t.l) == t.l.a
    ensures Root(t.r) == 0 || Root(t.r) == t.r.a
    ensures D[t.a] == t.s
    ensures t.s == S ==> FindSlot(tree0, S, TI.BinLo(i), TI.BinWidth(i), TreeBinAt(i), TreeBinAt(i)) == Behind(t.a)
    ensures t.s == S ==> Rd(m, t.a + 16) in D
  {
    hide *;
    DescendingIs(m, tree0, t, S, i, lo, w, c, par, K, D);
    RepParts(m, t, par, i);
    if t.l.Node? { RepParts(m, t.l, t.a, i); }
    if t.r.Node? { RepParts(m, t.r, t.a, i); }
    RootsAre(t);
    HeadReads(m, t, par, i, S, lo, w, c, D);
  }

  lemma RootsAre(t: Tree)
    requires t.Node?
    ensures Root(t.l) == (if t.l.Node? then t.l.a else 0) && Root(t.r) == (if t.r.Node? then t.r.a else 0)
  {
  }

  lemma DescendingIs(m: Mem, tree0: Tree, t: Tree, S: int, i: nat, lo: int, w: nat, c: int, par: int, K: int,
                     D: map<int, int>)
    ensures Descending(m, tree0, t, S, i, lo, w, c, par, K, D) <==>
      && t.Node? && Rep(m, t, par, i) && Shape(t, lo, w) && Holds(t, D)
      && w <= 64 && lo <= S < lo + Pow2(w) && K == (S - lo) * Pow2(64 - w)
      && FindSlot(t, S, lo, w, c, par) == FindSlot(tree0, S, TI.BinLo(i), TI.BinWidth(i), TreeBinAt(i), TreeBinAt(i))
  {
    hide Rep, Shape, Holds, FindSlot, TI.BinLo, TI.BinWidth;
  }

  lemma HeadReads(m: Mem, t: Tree, par: int, i: nat, S: int, lo: int, w: nat, c: int, D: map<int, int>)
    requires t.Node? && NodeOK(m, t, par, i) && Holds(t, D) && Rd(m, t.a + 8) == t.s + 1
    requires t.a in D && D[t.a] % 8 == 0
    ensures D[t.a] == t.s && ChunkSize(Rd(m, t.a + 8)) == t.s && Rd(m, t.a + 16) in D
    ensures t.s == S ==> FindSlot(t, S, lo, w, c, par) == Behind(t.a)
  {
    hide Shape, Members, SizesOf, Rep;
    var cc := Chain(t);
    assert t.a == cc[0];
    assert Linked(m, cc[0], cc[Nxt(|cc|, 0)]);
    assert cc[Nxt(|cc|, 0)] in cc;
  }

  lemma RootsBinned(t: Tree, D: map<int, int>)
    requires t.Node? && Holds(t, D)
    ensures t.a in D && (t.l.Node? ==> t.l.a in D) && (t.r.Node? ==> t.r.a in D)
  {
    assert t.a == Chain(t)[0];
    if t.l.Node? { assert t.l.a == Chain(t.l)[0]; }
    if t.r.Node? { assert t.r.a == Chain(t.r)[0]; }
  }

  lemma DescendingHolds(m: Mem, tree0: Tree, t: Tree, S: int, i: nat, lo: int, w: nat, c: int, par: int, K: int,
                        D: map<int, int>)
    requires Descending(m, tree0, t, S, i, lo, w, c, par, K, D)
    ensures t.Node? && Holds(t, D)
  {
  }

  lemma LargeSizes(m: Mem, D: map<int, int>, least: int)
    requires ChunksOK(m, D) && forall x :: x in D ==> x >= least
    ensures forall x :: x in Large(D) ==> x >= 0 && Large(D)[x] % 8 == 0 && x >= least && x in D
  {
    forall x | x in Large(D) ensures x >= 0 && Large(D)[x] % 8 == 0 { assert ChunkOK(m, x, D[x]); }
  }

  lemma PlaceIs(m: Mem, x: int, at: Slot)
    ensures at.At? ==> Place(m, x, at) == m[at.c := x][x + 48 := at.par][x + 16 := x][x + 24 := x]
    ensures at.Behind? ==>
      Place(m, x, at) == m[at.a + 16 := x][Rd(m, at.a + 16)
                                           + 24 := x][x + 16 := Rd(m, at.a + 16)][x + 24 := at.a][x + 48 := 0]
  {
  }

  lemma EmptySlot(S: int, i: nat, x: int)
    ensures FindSlot(Leaf, S, TI.BinLo(i), TI.BinWidth(i), TreeBinAt(i), TreeBinAt(i)) == At(TreeBinAt(i), TreeBinAt(i))
  {
  }

  /** The facts insert_large_chunk starts from, the chunk's own words already prepared. */
  lemma BeforeInsertLarge(m: Mem, smallmap: U32, treemap: U32, D: map<int, int>, rings: seq<seq<int>>, trees: seq<Tree>,
                          least: int, x: int, S: int, i: nat)
    requires BinsOK(m, smallmap, treemap, D, rings, trees) && forall y :: y in D ==> y >= least
    requires x !in D && ChunksOK(m, D[x := S]) && 256 <= S <= 0xFFFF_FFFF_FFFF_FFFF && i == TI.Index(S)
    ensures i < 32 && |trees| == 32 && TreeBinAt(i) + 8 <= HEAP_FLOOR && TI.BinWidth(i) <= 64
    ensures forall y :: y in Large(D) ==> y >= 0 && Large(D)[y] % 8 == 0 && y >= least
    ensures !Marked(treemap, i)
      || Descending(PrepareMem(m, x, i), trees[i], trees[i], S, i, TI.BinLo(i), TI.BinWidth(i), TreeBinAt(i),
                    TreeBinAt(i), TI.SizeBits(S, i), Large(D))
    ensures Marked(treemap, i) ==> trees[i].Node? && Rd(PrepareMem(m, x, i), TreeBinAt(i)) == trees[i].a
    ensures !Marked(treemap, i) ==> trees[i] == Leaf
    ensures InsertLargeMem(m, trees[i], x, S, i) == Place(PrepareMem(m, x, i), x,
                                                          FindSlot(trees[i], S, TI.BinLo(i), TI.BinWidth(i),
                                                                   TreeBinAt(i), TreeBinAt(i)))
    ensures PrepareMem(m, x, i) == m[x + 56 := i][x + 32 := 0][x + 40 := 0]
  {
    hide Rep, Shape, Holds, FindSlot, Members, Place, SmallOK, Complete, Descending, InBin;
    TI.InBinRange(S);
    var t := trees[i];
    assert TreeBinOK(m, treemap, i, t, D);
    LargeSizes(m, D, least);
    if Marked(treemap, i) {
      PrepareKeeps(m, t, x, S, i, D, D[x := S]);
      TreeBinWhole(PrepareMem(m, x, i), treemap, i, t, D);
      StartDescent(PrepareMem(m, x, i), treemap, t, S, i, D);
    }
  }

  method InsertLargeChunk(m: MallocState, x: int, s: int)
    requires m.BinsValid() && x !in m.D && 256 <= s <= 0xFFFF_FFFF_FFFF_FFFF && x >= m.leastAddr
    requires ChunksOK(m.mem, m.D[x := s])
    modifies m`mem, m`treemap, m`D, m`trees
    ensures m.BinsValid() && m.D == old(m.D)[x := s]
    ensures TI.Index(s) < |old(m.trees)|
      && m.trees == old(m.trees)[TI.Index(s) := InsertIn(old(m.trees)[TI.Index(s)], x, s, TI.Index(s))]
    ensures BinWrites(old(m.mem), m.mem, m.D)
  {
    hide *;
    BinsValidIs(m);
    var i := TI.Index(s);
    var h := TreeBinAt(i);
    ghost var m0, map0, trees0 := m.mem, m.treemap, m.trees;
    BeforeInsertLarge(m.mem, m.smallmap, m.treemap, m.D, m.rings, m.trees, m.leastAddr, x, s, i);
    m.mem := m.mem[x + 56 := i];
    m.mem := m.mem[x + 32 := 0][x + 40 := 0];
    ghost var m1 := m.mem;
    MarkedIs(m.treemap, i);
    PlaceIs(m1, x, FindSlot(trees0[i], s, TI.BinLo(i), TI.BinWidth(i), h, h));
    if !TestBit(m.treemap, i) {
      m.treemap := MarkBit(m.treemap, i);
      EmptySlot(s, i, x);
      m.mem := m.mem[h := x];
      m.mem := m.mem[x + 48 := h];
      m.mem := m.mem[x + 16 := x][x + 24 := x];
    } else {
      InsertBelow(m, x, s, i, trees0[i], Large(m.D));
    }
    InsertLarge(m0, m.smallmap, map0, m.treemap, m.D, m.rings, m.trees, x, s, i);
    m.trees := m.trees[i := InsertIn(m.trees[i], x, s, i)];
    m.D := m.D[x := s];
    OnlyInIsBinWrites(m0, m.mem, m.D, Members(trees0[i]) + {x}, h, h + 8);
    BinsValidIs(m);
  }

  /** The descent loop of insert_large_chunk. */
  method InsertBelow(m: MallocState, x: int, s: int, i: nat, ghost tree0: Tree, ghost D: map<int, int>)
    requires i < 32 && 256 <= s <= 0xFFFF_FFFF_FFFF_FFFF && TI.BinWidth(i) <= 64
    requires Descending(m.mem, tree0, tree0, s, i, TI.BinLo(i), TI.BinWidth(i), TreeBinAt(i), TreeBinAt(i),
                        TI.SizeBits(s, i), D)
    requires Rd(m.mem, TreeBinAt(i)) == tree0.a
    requires forall y :: y in D ==> y >= 0 && D[y] % 8 == 0 && y >= m.leastAddr
    modifies m`mem
    ensures m.mem == Place(old(m.mem), x, FindSlot(tree0, s, TI.BinLo(i), TI.BinWidth(i), TreeBinAt(i), TreeBinAt(i)))
  {
    hide *;
    var T := Rd(m.mem, TreeBinAt(i));
    var K: int := TI.SizeBits(s, i);
    ghost var m1 := m.mem;
    ghost var t, lo, w, c, par := tree0, TI.BinLo(i), TI.BinWidth(i), TreeBinAt(i), TreeBinAt(i);
    PlaceIs(m1, x, FindSlot(tree0, s, TI.BinLo(i), TI.BinWidth(i), TreeBinAt(i), TreeBinAt(i)));
    DescendingHolds(m1, tree0, t, s, i, lo, w, c, par, K, D);
    while true
      invariant m.mem == m1 && t.Node? && T == t.a
      invariant Descending(m1, tree0, t, s, i, lo, w, c, par, K, D)
      decreases t
    {
      DescendingHolds(m1, tree0, t, s, i, lo, w, c, par, K, D);
      RootsBinned(t, D);
      NodeReads(m1, tree0, t, s, i, lo, w, c, par, K, D);
      if ChunkSize(Rd(m.mem, T + 8)) != s {
        DescendStep(m1, tree0, t, s, i, lo, w, c, par, K, D);
        ChildWordIs(T, K);
        var C := T + 32 + 8 * (K / 0x8000_0000_0000_0000);
        K := K * 2 % 0x1_0000_0000_0000_0000;
        if Rd(m.mem, C) != 0 {
          T := Rd(m.mem, C);
          c, par := C, t.a;
          if s < lo + Pow2(w - 1) {
            t, w := t.l, w - 1;
          } else {
            t, lo, w := t.r, lo + Pow2(w - 1), w - 1;
          }
        } else if C >= m.leastAddr {
          m.mem := m.mem[C := x];
          m.mem := m.mem[x + 48 := T];
          m.mem := m.mem[x + 16 := x][x + 24 := x];
          break;
        } else {
          assert false;
        }
      } else {
        var f := Rd(m.mem, T + 16);
        if T >= m.leastAddr && f >= m.leastAddr {
          m.mem := m.mem[T + 16 := x][f + 24 := x];
          m.mem := m.mem[x + 16 := f];
          m.mem := m.mem[x + 24 := T];
          m.mem := m.mem[x + 48 := 0];
          break;
        } else {
          assert false;
        }
      }
    }
  }

  lemma ChildWordIs(T: int, K: int)
    ensures ChildWord(T, K) == T + 32 + 8 * (K / 0x8000_0000_0000_0000)
  {
  }

  // ---- unlink_large_chunk ----

  lemma TipStep(t: Tree, c: int)
    requires t.Node?
    ensures t.r.Node? ==> RightTip(t) == RightTip(t.r) && TipSlot(t, c) == TipSlot(t.r, t.a + 40)
    ensures t.r.Leaf? && t.l.Node? ==> RightTip(t) == RightTip(t.l) && TipSlot(t, c) == TipSlot(t.l, t.a + 32)
    ensures t.r.Leaf? && t.l.Leaf? ==> RightTip(t) == t && TipSlot(t, c) == c
  {
  }

  /** What the walk to the rightmost leaf reads at a node. */
  lemma WalkReads(m: Mem, t: Tree, par: int, i: int, D: map<int, int>)
    requires t.Node? && Rep(m, t, par, i) && Holds(t, D)
    ensures t.a in D && t.a > 0
    ensures Rd(m, t.a + 40) == (if t.r.Node? then t.r.a else 0)
    ensures Rd(m, t.a + 32) == (if t.l.Node? then t.l.a else 0)
    ensures t.r.Node? ==> t.r.a > 0 && Rep(m, t.r, t.a, i) && Holds(t.r, D)
    ensures t.l.Node? ==> t.l.a > 0 && Rep(m, t.l, t.a, i) && Holds(t.l, D)
  {
    RepParts(m, t, par, i);
    RootsBinned(t, D);
    if t.l.Node? { RepParts(m, t.l, t.a, i); }
    if t.r.Node? { RepParts(m, t.r, t.a, i); }
  }

  lemma DetachIs(m: Mem, t: Tree)
    requires t.Node? && t.ring == []
    ensures t.r.Node? ==> Detach(m, t) == m[TipSlot(t.r, t.a + 40) := 0] && Successor(t) == RightTip(t.r).a
    ensures t.r.Leaf? && t.l.Node? ==> Detach(m, t) == m[TipSlot(t.l, t.a + 32) := 0] && Successor(t) == RightTip(t.l).a
    ensures t.r.Leaf? && t.l.Leaf? ==> Detach(m, t) == m && Successor(t) == 0
  {
  }

  /** The chunk is alone of its size: find the rightmost leaf below it and cut it off. */
  method CutSuccessor(m: MallocState, x: int, ghost t: Tree, ghost par: int, ghost i: int, ghost D: map<int, int>)
      returns (R: int)
    requires t.Node? && t.a == x && t.ring == [] && Rep(m.mem, t, par, i) && Holds(t, D)
    requires forall y :: y in D ==> y >= m.leastAddr
    modifies m`mem
    ensures m.mem == Detach(old(m.mem), t) && R == Successor(t)
  {
    hide *;
    WalkReads(m.mem, t, par, i, D);
    DetachIs(m.mem, t);
    var RP := x + 40;
    R := Rd(m.mem, RP);
    if R == 0 {
      RP := x + 32;
      R := Rd(m.mem, RP);
    }
    if R != 0 {
      ghost var q, above := if t.r.Node? then t.r else t.l, x;
      ghost var q0, c0 := q, RP;
      while true
        invariant m.mem == old(m.mem)
        invariant q.Node? && q.a == R && Rep(m.mem, q, above, i) && Holds(q, D) && RP >= m.leastAddr
        invariant q0.Node? && RightTip(q) == RightTip(q0) && TipSlot(q, RP) == TipSlot(q0, c0)
        decreases q
      {
        WalkReads(m.mem, q, above, i, D);
        TipStep(q, RP);
        var CP := R + 40;
        if Rd(m.mem, CP) == 0 {
          CP := R + 32;
        }
        if Rd(m.mem, CP) == 0 {
          break;
        }
        RP := CP;
        R := Rd(m.mem, CP);
        above := q.a;
        q := if q.r.Node? then q.r else q.l;
      }
      if RP >= m.leastAddr {
        m.mem := m.mem[RP := 0];
      } else {
        assert false;
      }
    }
  }

  lemma HookChildIs(m: Mem, x: int, r: int, off: int)
    ensures HookChild(m, x, r, off) == if Rd(m, x + off) != 0
      then m[r + off := Rd(m, x + off)][Rd(m, x + off) + 48 := r] else m
  {
  }

  /** Give r the parent and the children of x. */
  method AdoptLinks(m: MallocState, x: int, R: int, XP: int)
    requires Rd(m.mem[R + 48 := XP], x + 32) == 0 || Rd(m.mem[R + 48 := XP], x + 32) >= m.leastAddr
    requires var m2 := HookChild(m.mem[R + 48 := XP], x, R, 32); Rd(m2, x + 40) == 0 || Rd(m2, x + 40) >= m.leastAddr
    modifies m`mem
    ensures m.mem == HookChild(HookChild(old(m.mem)[R + 48 := XP], x, R, 32), x, R, 40)
  {
    hide *;
    m.mem := m.mem[R + 48 := XP];
    HookChildIs(m.mem, x, R, 32);
    HookChildIs(HookChild(m.mem, x, R, 32), x, R, 40);
    var c0 := Rd(m.mem, x + 32);
    if c0 != 0 {
      if c0 >= m.leastAddr {
        m.mem := m.mem[R + 32 := c0];
        m.mem := m.mem[c0 + 48 := R];
      } else {
        assert false;
      }
    }
    var c1 := Rd(m.mem, x + 40);
    if c1 != 0 {
      if c1 >= m.leastAddr {
        m.mem := m.mem[R + 40 := c1];
        m.mem := m.mem[c1 + 48 := R];
      } else {
        assert false;
      }
    }
  }

  lemma {:induction false} TipBinned(m: Mem, t: Tree, par: int, i: int, D: map<int, int>)
    requires t.Node? && Rep(m, t, par, i) && Holds(t, D)
    ensures RightTip(t).a in D && RightTip(t).a > 0
  {
    hide Rep, Holds;
    WalkReads(m, t, par, i, D);
    if t.r.Node? {
      TipBinned(m, t.r, t.a, i, D);
    } else if t.l.Node? {
      TipBinned(m, t.l, t.a, i, D);
    }
  }

  lemma {:induction false} TipSlotWhere(t: Tree, c: int, D: map<int, int>)
    requires t.Node? && Holds(t, D)
    ensures TipSlot(t, c) == c || exists y :: y in Members(t) && y in D
                                              && (TipSlot(t, c) == y + 32 || TipSlot(t, c) == y + 40)
  {
    RootsBinned(t, D);
    assert t.a == Chain(t)[0] && t.a in Members(t);
    if t.r.Node? {
      TipSlotWhere(t.r, t.a + 40, D);
    } else if t.l.Node? {
      TipSlotWhere(t.l, t.a + 32, D);
    }
  }

  /** The words unlink_large_chunk reads after detaching the successor. */
  lemma AfterDetach(m: Mem, t: Tree, par: int, i: int, D: map<int, int>, z: int)
    requires t.Node? && Rep(m, t, par, i) && Holds(t, D) && Apart(D) && (forall y :: y in D ==> y >= HEAP_FLOOR)
    ensures forall w :: w < HEAP_FLOOR ==> Rd(Detach(m, t), w) == Rd(m, w)
    ensures Rd(Detach(m, t), t.a + 56) == Rd(m, t.a + 56)
    ensures Rd(Detach(m, t), t.a + 32) == 0 || Rd(Detach(m, t), t.a + 32) == Rd(m, t.a + 32)
    ensures Rd(Detach(m, t), t.a + 40) == 0 || Rd(Detach(m, t), t.a + 40) == Rd(m, t.a + 40)
    ensures z in D && z !in Members(t) ==> Rd(Detach(m, t), z + 32) == Rd(m, z + 32)
  {
    hide Rep, Holds, Ring, Members, TipSlot, RightTip, Shape, SizesOf, RemoveRoot, NodeOK, ChainOK;
    RepParts(m, t, par, i);
    ChainInD(t, D);
    assert t.a == Chain(t)[0];
    if t.ring != [] {
      DetachRing(m, t, par, i);
      DetachFrame(m, Detach(m, t), Chain(t), D, t);
      assert SameTags(m, Detach(m, t), Chain(t)[0]);
      var C := Chain(t);
      assert C[1] in Elems(C) && C[|C| - 1] in Elems(C);
      LinkPastIs(m, C[|C| - 1], C[1]);
    } else if t.r.Node? {
      TipSlotWhere(t.r, t.a + 40, D);
    } else if t.l.Node? {
      TipSlotWhere(t.l, t.a + 32, D);
    }
  }

  lemma ChainInD(t: Tree, D: map<int, int>)
    requires t.Node? && Holds(t, D)
    ensures Elems(Chain(t)) <= D.Keys && t.a in D && Holds(t.l, D) && Holds(t.r, D)
    ensures Members(t.l) <= Members(t) && Members(t.r) <= Members(t) && Elems(Chain(t)) <= Members(t)
  {
    assert t.a == Chain(t)[0];
    forall x | x in Elems(Chain(t)) ensures x in D.Keys { assert x in Chain(t); }
  }

  lemma SuccessorFacts(m: Mem, t: Tree, par: int, i: int, D: map<int, int>)
    requires t.Node? && Rep(m, t, par, i) && Holds(t, D) && (forall y :: y in D ==> y >= HEAP_FLOOR)
    ensures Successor(t) == 0 || Successor(t) in D
    ensures Successor(t) == 0 <==> t.ring == [] && t.l.Leaf? && t.r.Leaf?
    ensures Rd(m, t.a + 24) != t.a <==> t.ring != []
    ensures t.ring != [] ==> Rd(m, t.a + 24) == Successor(t) && Rd(m, Successor(t) + 16) == t.a
                             && Rd(m, Rd(m, t.a + 16) + 24) == t.a
    ensures t.ring != [] ==> Rd(m, t.a + 16) in D
    ensures Rd(m, t.a + 56) == i && Rd(m, t.a + 48) == par && t.a in D && Rd(m, t.a + 32) == Root(t.l)
      && Rd(m, t.a + 40) == Root(t.r)
    ensures Root(t.l) == 0 || Root(t.l) in D
    ensures Root(t.r) == 0 || Root(t.r) in D
    ensures t.ring != [] ==> Detach(m, t) == m[Rd(m, t.a + 16)
                                               + 24 := Successor(t)][Successor(t) + 16 := Rd(m, t.a + 16)]
  {
    hide Rep, Holds;
    RepParts(m, t, par, i);
    RootsBinned(t, D);
    ChainInD(t, D);
    var C := Chain(t);
    assert Tagged(m, C[0], t.s, i);
    assert Linked(m, C[0], C[Nxt(|C|, 0)]);
    assert Linked(m, C[|C| - 1], C[Nxt(|C|, |C| - 1)]);
    if t.ring != [] {
      assert C[0] != C[|C| - 1];
      assert C[|C| - 1] in Elems(C) && C[1] in Elems(C);
    } else if t.r.Node? {
      TipBinned(m, t.r, t.a, i, D);
    } else if t.l.Node? {
      TipBinned(m, t.l, t.a, i, D);
    }
  }

  /** The bin is emptied exactly when the root goes and nothing takes its place. */
  lemma RemoveInNode(t: Tree, x: int, S: int, i: nat)
    requires t.Node? && (x == t.a ==> t.s == S)
    ensures RemoveIn(t, x, S, i).Node? <==> !(x == t.a && t.ring == [] && t.l.Leaf? && t.r.Leaf?)
  {
  }

  /** Everything unlink_large_chunk starts from: the located node and its slot. */
  lemma BeforeUnlinkLarge(m: Mem, smallmap: U32, treemap: U32, D: map<int, int>, rings: seq<seq<int>>, trees: seq<Tree>,
                          x: int, i: nat) returns (p: Spot)
    requires BinsOK(m, smallmap, treemap, D, rings, trees) && x in D && D[x] >= 256 && D[x] <= 0xFFFF_FFFF_FFFF_FFFF
      && i == TI.Index(D[x])
    ensures i < 32 && |trees| == 32 && TreeBinAt(i) + 8 <= HEAP_FLOOR && trees[i].Node?
      && Rd(m, TreeBinAt(i)) == trees[i].a
    ensures p.t.Node? && x in Chain(p.t) && p.t.s == D[x] && Rep(m, p.t, p.par, i) && Holds(p.t, Large(D)) && p.par > 0
    ensures UnlinkLargeMem(m, trees[i], x, D[x], i) == UnlinkAt(m, p.t, x, p.c, p.par)
    ensures Apart(Large(D)) && forall y :: y in Large(D) ==> y >= HEAP_FLOOR && y in D
    ensures p.t == trees[i] ==> p.c == TreeBinAt(i)
    ensures p.t.a == trees[i].a ==> p.t == trees[i]
    ensures p.t != trees[i] ==> p.par in Large(D) && p.par !in Members(p.t)
                                && (p.c == p.par + 32 || (p.c == p.par + 40 && Rd(m, p.par + 32) != p.t.a))
    ensures p.c == p.par + 32 ==> Rd(m, p.par + 32) == p.t.a || p.t == trees[i]
    ensures x == trees[i].a ==> trees[i].s == D[x] && p.t == trees[i]
    ensures Distinct(p.t.ring)
  {
    hide *;
    BinOfChunk(m, smallmap, treemap, D, rings, trees, x, i);
    var t, S := trees[i], D[x];
    TreeBinParts(m, treemap, i, t, D);
    LargeApart(m, D);
    InLarge(D, x, i);
    IsNode(t, x);
    RootOfNode(t);
    UnlinkUnfold(m, t, x, S, i);
    UnlinkMemIs(m, t, x, S, i);
    LocateUnfold(m, t, x, S, TI.BinLo(i), TI.BinWidth(i), TreeBinAt(i), TreeBinAt(i));
    p := Locate(t, S, TI.BinLo(i), TI.BinWidth(i), TreeBinAt(i), TreeBinAt(i));
    LocateSpec(m, t, x, S, i, TI.BinLo(i), TI.BinWidth(i), TreeBinAt(i), TreeBinAt(i), Large(D));
    HoldsMembers(t, Large(D));
    LocatedHolds(t, S, TI.BinLo(i), TI.BinWidth(i), TreeBinAt(i), TreeBinAt(i), Large(D));
    RootBinned(m, t, i, D, S, x);
    RepChainsDistinct(m, p.t, p.par, i);
    ChainsUnfold(p.t);
  }

  lemma BinOfChunk(m: Mem, smallmap: U32, treemap: U32, D: map<int, int>, rings: seq<seq<int>>, trees: seq<Tree>,
                   x: int, i: nat)
    requires BinsOK(m, smallmap, treemap, D, rings, trees) && x in D && 256 <= D[x] <= 0xFFFF_FFFF_FFFF_FFFF
      && i == TI.Index(D[x])
    ensures i < 32 && |trees| == 32 && x in Members(trees[i]) && TreeBinOK(m, treemap, i, trees[i], D) && InBin(D, x, i)
    ensures ChunksOK(m, D) && 0 < TreeBinAt(i) && TreeBinAt(i) + 8 <= HEAP_FLOOR
    ensures forall y :: y in Large(D) ==> y in D && y > 0
  {
    hide Members, TreeBinOK, SmallOK;
    InItsTree(D, rings, trees, x);
    forall y | y in Large(D) ensures y in D && y > 0 { assert ChunkOK(m, y, D[y]); }
  }

  lemma UnlinkMemIs(m: Mem, t: Tree, x: int, S: int, i: nat)
    ensures var p := Locate(t, S, TI.BinLo(i), TI.BinWidth(i), TreeBinAt(i), TreeBinAt(i));
      p.t.Node? ==> UnlinkMem(m, t, x, S, TI.BinLo(i), TI.BinWidth(i), TreeBinAt(i), TreeBinAt(i)) ==
                    UnlinkAt(m, p.t, x, p.c, p.par)
  {
  }

  lemma InItsTree(D: map<int, int>, rings: seq<seq<int>>, trees: seq<Tree>, x: int)
    requires Complete(rings, trees, D) && x in D && 256 <= D[x] <= 0xFFFF_FFFF_FFFF_FFFF
    ensures TI.Index(D[x]) < 32 && x in Members(trees[TI.Index(D[x])])
  {
  }

  lemma {:induction false} LocatedHolds(t: Tree, S: int, lo: int, w: nat, c: int, par: int, D: map<int, int>)
    requires Holds(t, D)
    ensures Holds(Locate(t, S, lo, w, c, par).t, D)
    decreases t
  {
    if !(t.Leaf? || t.s == S || w == 0) {
      if S < lo + Pow2(w - 1) {
        LocatedHolds(t.l, S, lo, w - 1, t.a + 32, t.a, D);
      } else {
        LocatedHolds(t.r, S, lo + Pow2(w - 1), w - 1, t.a + 40, t.a, D);
      }
    }
  }

  lemma RootBinned(m: Mem, t: Tree, i: nat, D: map<int, int>, S: int, x: int)
    requires t.Node? && Holds(t, Large(D)) && x in D && D[x] == S
    ensures t.a in Large(D) && (x == t.a ==> t.s == S)
  {
    assert t.a == Chain(t)[0];
  }

  /** A chained chunk has no parent, and two consistent neighbours. */
  lemma ChainedReads(m: Mem, t: Tree, x: int, par: int, i: int, c: int, D: map<int, int>)
    requires t.Node? && Rep(m, t, par, i) && Holds(t, D) && Apart(D) && x in Chain(t) && x != t.a && Distinct(t.ring)
    ensures Rd(m, x + 48) == 0 && Rd(m, x + 24) != x
    ensures Rd(m, Rd(m, x + 16) + 24) == x && Rd(m, Rd(m, x + 24) + 16) == x && Rd(m, x + 16) in D
    ensures UnlinkAt(m, t, x, c, par) == m[Rd(m, x + 16) + 24 := Rd(m, x + 24)][Rd(m, x + 24) + 16 := Rd(m, x + 16)]
  {
    hide *;
    RepParts(m, t, par, i);
    ChainInD(t, D);
    var k := ChainIndex(t, x);
    ChainedUnlink(m, t, x, k, par, i, c, D);
    ChainNext(m, t, x, k, par, i);
    InElems(Chain(t), Rd(m, x + 16));
    UnlinkChainedIs(m, t, x, c, par);
    LinkedIs(m, x, Rd(m, x + 16));
    LinkedIs(m, Rd(m, x + 24), x);
  }

  lemma ChainIndex(t: Tree, x: int) returns (k: int)
    requires t.Node? && x in Chain(t) && x != t.a
    ensures 1 <= k < |Chain(t)| && Chain(t)[k] == x && x in t.ring
  {
    k :| 0 <= k < |Chain(t)| && Chain(t)[k] == x;
    assert t.ring[k - 1] == x;
  }

  lemma ChainNext(m: Mem, t: Tree, x: int, k: int, par: int, i: int)
    requires t.Node? && NodeOK(m, t, par, i) && 1 <= k < |Chain(t)| && Chain(t)[k] == x
    ensures Rd(m, x + 16) in Chain(t)
  {
    var C := Chain(t);
    assert Linked(m, C[k], C[Nxt(|C|, k)]);
    assert C[Nxt(|C|, k)] in C;
  }

  lemma UnlinkChainedIs(m: Mem, t: Tree, x: int, c: int, par: int)
    requires t.Node? && x != t.a
    ensures UnlinkAt(m, t, x, c, par) == m[Rd(m, x + 16) + 24 := Rd(m, x + 24)][Rd(m, x + 24) + 16 := Rd(m, x + 16)]
  {
  }

  lemma LinkedIs(m: Mem, x: int, y: int)
    ensures Linked(m, x, y) <==> Rd(m, x + 16) == y && Rd(m, y + 24) == x
  {
  }

  lemma HookIs(m: Mem, t: Tree, x: int, c: int, par: int)
    requires t.Node? && x == t.a
    ensures UnlinkAt(m, t, x, c, par) ==
      if Successor(t) == 0 then Detach(m, t)[c := 0]
      else HookChild(HookChild(Detach(m, t)[c := Successor(t)][Successor(t) + 48 := par], x, Successor(t), 32), x,
                     Successor(t), 40)
  {
  }

  /** The child words that the successor inherits hold nothing or a binned chunk. */
  lemma AdoptReads(m1: Mem, c: int, R: int, XP: int, x: int, D: map<int, int>)
    requires R in D && x in D && Apart(D) && c != x + 32 && c != x + 40
    requires Rd(m1, x + 32) == 0 || Rd(m1, x + 32) in D
    requires Rd(m1, x + 40) == 0 || Rd(m1, x + 40) in D
    ensures var m2 := m1[c := R][R + 48 := XP];
      (Rd(m2, x + 32) == 0 || Rd(m2, x + 32) in D)
      && (Rd(HookChild(m2, x, R, 32), x + 40) == 0 || Rd(HookChild(m2, x, R, 32), x + 40) in D)
  {
  }

  lemma SlotOffNode(p: Spot, x: int, i: nat, D: map<int, int>)
    requires x in D && x >= HEAP_FLOOR && Apart(D)
    requires (p.c == TreeBinAt(i) && TreeBinAt(i) + 8 <= HEAP_FLOOR)
      || (p.par in D && p.par != x && (p.c == p.par + 32 || p.c == p.par + 40))
    ensures p.c != x + 32 && p.c != x + 40
  {
  }

  lemma ChainInMembers(t: Tree, x: int)
    requires t.Node? && x in Chain(t)
    ensures x in Members(t)
  {
  }

  method UnlinkLargeChunk(m: MallocState, x: int)
    requires m.BinsValid() && x in m.D && m.D[x] >= 256
    modifies m`mem, m`treemap, m`D, m`trees
    ensures m.BinsValid() && m.D == old(m.D) - {x}
    ensures var S := old(m.D)[x];
            0 <= S <= 0xFFFF_FFFF_FFFF_FFFF && TI.Index(S) < |old(m.trees)|
            && m.trees == old(m.trees)[TI.Index(S) := RemoveIn(old(m.trees)[TI.Index(S)], x, S, TI.Index(S))]
    ensures BinWrites(old(m.mem), m.mem, old(m.D))
  {
    hide *;
    BinsValidIs(m);
    BinnedSize(m.mem, m.smallmap, m.treemap, m.D, m.rings, m.trees, x);
    ghost var m0, map0, trees0, S := m.mem, m.treemap, m.trees, m.D[x];
    ghost var i := TI.Index(S);
    ghost var p := BeforeUnlinkLarge(m0, m.smallmap, map0, m.D, m.rings, trees0, x, i);
    ghost var DL := Large(m.D);
    SuccessorFacts(m0, p.t, p.par, i, DL);
    AfterDetach(m0, p.t, p.par, i, DL, p.par);
    ChainInMembers(p.t, x);
    if x != p.t.a { ChainedReads(m0, p.t, x, p.par, i, p.c, DL); } else { HookIs(m0, p.t, x, p.c, p.par); }
    MarkedIs(map0, i);
    RemoveInNode(trees0[i], x, S, i);
    TreeMarked(m0, m.smallmap, map0, m.D, m.rings, trees0, i);

    var XP := Rd(m.mem, x + 48);
    var R := 0;
    if Rd(m.mem, x + 24) != x {
      var F := Rd(m.mem, x + 16);
      R := Rd(m.mem, x + 24);
      if F >= m.leastAddr && Rd(m.mem, F + 24) == x && Rd(m.mem, R + 16) == x {
        m.mem := m.mem[F + 24 := R];
        m.mem := m.mem[R + 16 := F];
      } else {
        assert false;
      }
    } else {
      R := CutSuccessor(m, x, p.t, p.par, i, DL);
    }
    if XP != 0 {
      var j := Rd(m.mem, x + 56);
      var H := TreeBinAt(j);
      SlotOffNode(p, x, i, DL);
      if R != 0 { AdoptReads(m.mem, p.c, R, XP, x, DL); }
      if x == Rd(m.mem, H) {
        m.mem := m.mem[H := R];
        if R == 0 {
          m.treemap := ClearBit(m.treemap, j);
        }
      } else if XP >= m.leastAddr {
        if Rd(m.mem, XP + 32) == x {
          m.mem := m.mem[XP + 32 := R];
        } else {
          m.mem := m.mem[XP + 40 := R];
        }
      } else {
        assert false;
      }
      if R != 0 {
        if R >= m.leastAddr {
          AdoptLinks(m, x, R, XP);
        } else {
          assert false;
        }
      }
    }
    UnlinkLarge(m0, m.smallmap, map0, m.treemap, m.D, m.rings, trees0, x, S, i);
    OnlyInIsBinWrites(m0, m.mem, m.D, Members(trees0[i]), TreeBinAt(i), TreeBinAt(i) + 8);
    m.D := m.D - {x};
    m.trees := m.trees[i := RemoveIn(trees0[i], x, S, i)];
    BinsValidIs(m);
  }

  lemma TreeMarked(m: Mem, smallmap: U32, treemap: U32, D: map<int, int>, rings: seq<seq<int>>, trees: seq<Tree>,
                   i: nat)
    requires BinsOK(m, smallmap, treemap, D, rings, trees) && i < 32
    ensures |trees| == 32 && (Marked(treemap, i) <==> trees[i].Node?)
  {
    hide TreeBinOK, SmallOK, Complete;
    TreeBinParts(m, treemap, i, trees[i], D);
  }
}
