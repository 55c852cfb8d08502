/**
 * All the bins together: 32 rings of small chunks, 32 tries of large ones, and the two bin maps.
 * D records the binned chunks and their sizes; each is in exactly the bin its size selects.
 */
module Bins {
  import opened Words
  import opened Memory
  import opened Rings
  import opened Tries
  import opened TrieLinks
  import opened BinMaps
  import TI = TreeIndex

  /** A binned chunk: aligned, of a binnable size, its head word holding the size and the pinuse bit. */
  predicate ChunkOK(m: Mem, x: int, s: int) {
    && x >= HEAP_FLOOR && x % 16 == 0
    && 32 <= s <= 0xFFFF_FFFF_FFFF_FFFF && s % 16 == 0
    && Rd(m, x + 8) == s + 1
  }

  ghost predicate ChunksOK(m: Mem, D: map<int, int>) {
    && (forall x :: x in D ==> ChunkOK(m, x, D[x]))
    && Disjoint(D)
  }

  ghost predicate Disjoint(D: map<int, int>) {
    forall x, y :: x in D && y in D && x < y ==> x + D[x] <= y
  }

  ghost predicate SmallBinOK(m: Mem, map0: U32, i: int, r: seq<int>, D: map<int, int>)
    requires 0 <= i < 32
  {
    && (Marked(map0, i) <==> r != [])
    && (r != [] ==> Ring(m, [SmallBinAt(i)] + r))
    && (forall x :: x in r ==> x in D && D[x] == 8 * i)
  }

  ghost function Large(D: map<int, int>): map<int, int> {
    map x | x in D && D[x] >= 256 :: D[x]
  }

  ghost predicate TreeBinOK(m: Mem, map0: U32, i: int, t: Tree, D: map<int, int>)
    requires 0 <= i < 32
  {
    && (Marked(map0, i) <==> t.Node?)
    && Rd(m, TreeBinAt(i)) == Root(t)
    && Rep(m, t, TreeBinAt(i), i)
    && Shape(t, TI.BinLo(i), TI.BinWidth(i))
    && Holds(t, Large(D))
    && (forall x :: x in Members(t) ==> InBin(D, x, i))
  }

  predicate InBin(D: map<int, int>, x: int, i: int) {
    x in D && 256 <= D[x] <= 0xFFFF_FFFF_FFFF_FFFF && TI.Index(D[x]) == i
  }

  ghost predicate SmallOK(m: Mem, map0: U32, rings: seq<seq<int>>, D: map<int, int>) {
    |rings| == 32 && forall i :: 0 <= i < 32 ==> SmallBinOK(m, map0, i, rings[i], D)
  }

  ghost predicate LargeOK(m: Mem, map0: U32, trees: seq<Tree>, D: map<int, int>) {
    |trees| == 32 && forall i :: 0 <= i < 32 ==> TreeBinOK(m, map0, i, trees[i], D)
  }

  /** Every binned chunk is in the bin of its size. */
  ghost predicate Complete(rings: seq<seq<int>>, trees: seq<Tree>, D: map<int, int>) {
    && |rings| == 32 && |trees| == 32
    && (forall x :: x in D && 0 <= D[x] < 256 ==> x in rings[D[x] / 8])
    && (forall x :: x in D && 256 <= D[x] <= 0xFFFF_FFFF_FFFF_FFFF ==>
          TI.Index(D[x]) < 32 && x in Members(trees[TI.Index(D[x])]))
  }

  ghost predicate BinsOK(m: Mem, smallmap: U32, treemap: U32, D: map<int, int>, rings: seq<seq<int>>, trees: seq<Tree>)
  {
    && ChunksOK(m, D)
    && SmallOK(m, smallmap, rings, D)
    && LargeOK(m, treemap, trees, D)
    && Complete(rings, trees, D)
  }

  // ---- frames ----

  /** A word inside one of the chunks X of D, past its head. */
  ghost predicate Interior(D: map<int, int>, X: set<int>, w: int) {
    exists y :: y in X && y in D && y + 16 <= w < y + D[y]
  }

  /** Only words inside X, and the static words in [lo, hi), may differ. */
  ghost predicate OnlyIn(m: Mem, m': Mem, D: map<int, int>, X: set<int>, lo: int, hi: int) {
    forall w :: !(lo <= w < hi) && !Interior(D, X, w) ==> Rd(m', w) == Rd(m, w)
  }

  /** A chunk outside X keeps its head and interior. */
  lemma ChunkKept(m: Mem, m': Mem, D: map<int, int>, X: set<int>, lo: int, hi: int, z: int, w: int)
    requires OnlyIn(m, m', D, X, lo, hi) && Disjoint(D) && z in D && z !in X && hi <= HEAP_FLOOR <= z
    requires z + 8 <= w < z + D[z]
    ensures Rd(m', w) == Rd(m, w)
  {
    assert !Interior(D, X, w);
  }

  /** Any chunk keeps its head. */
  lemma HeadKept(m: Mem, m': Mem, D: map<int, int>, X: set<int>, lo: int, hi: int, z: int)
    requires OnlyIn(m, m', D, X, lo, hi) && Disjoint(D) && z in D && hi <= HEAP_FLOOR <= z
    requires forall x :: x in D ==> D[x] >= 32
    ensures Rd(m', z + 8) == Rd(m, z + 8)
  {
    assert !Interior(D, X, z + 8);
  }

  /** A static word outside [lo, hi) keeps its value. */
  lemma StaticKept(m: Mem, m': Mem, D: map<int, int>, X: set<int>, lo: int, hi: int, w: int)
    requires OnlyIn(m, m', D, X, lo, hi) && (forall x :: x in D ==> x >= HEAP_FLOOR)
    requires w < HEAP_FLOOR && !(lo <= w < hi)
    ensures Rd(m', w) == Rd(m, w)
  {
    assert !Interior(D, X, w);
  }

  lemma SmallBinKept(m: Mem, m': Mem, map0: U32, map1: U32, i: int, r: seq<int>, D: map<int, int>, E: map<int, int>,
                     U: map<int, int>, X: set<int>, lo: int, hi: int)
    requires 0 <= i < 32 && SmallBinOK(m, map0, i, r, D)
    requires Marked(map0, i) == Marked(map1, i)
    requires OnlyIn(m, m', U, X, lo, hi) && ChunksOK(m, U) && hi <= HEAP_FLOOR
    requires hi <= SmallBinAt(i) + 16 || SmallBinAt(i) + 32 <= lo
    requires forall x :: x in r ==> x !in X && x in E && E[x] == D[x] && x in U
    ensures SmallBinOK(m', map1, i, r, E)
  {
    if r != [] {
      var b := SmallBinAt(i);
      var c := [b] + r;
      StaticKept(m, m', U, X, lo, hi, b + 16);
      StaticKept(m, m', U, X, lo, hi, b + 24);
      forall k | 0 <= k < |c|
        ensures Rd(m', c[k] + 16) == Rd(m, c[k] + 16) && Rd(m', c[k] + 24) == Rd(m, c[k] + 24)
      {
        if k > 0 {
          assert c[k] in r && ChunkOK(m, c[k], U[c[k]]);
          ChunkKept(m, m', U, X, lo, hi, c[k], c[k] + 16);
          ChunkKept(m, m', U, X, lo, hi, c[k], c[k] + 24);
        }
      }
      RingFrame(m, m', c);
    }
  }

  lemma TreeBinKept(m: Mem, m': Mem, map0: U32, map1: U32, i: int, t: Tree, D: map<int, int>, E: map<int, int>,
                    U: map<int, int>, X: set<int>, lo: int, hi: int)
    requires 0 <= i < 32 && TreeBinOK(m, map0, i, t, D)
    requires Marked(map0, i) == Marked(map1, i)
    requires OnlyIn(m, m', U, X, lo, hi) && ChunksOK(m, U) && hi <= HEAP_FLOOR
    requires !(lo <= TreeBinAt(i) < hi)
    requires forall x :: x in Members(t) ==> x !in X && x in E && E[x] == D[x] && x in U && U[x] == D[x]
    ensures TreeBinOK(m', map1, i, t, E)
  {
    hide Members, Holds, Shape, Rep, Root;
    StaticKept(m, m', U, X, lo, hi, TreeBinAt(i));
    forall x | x in Members(t) ensures SameNode(m, m', x) {
      assert InBin(D, x, i) && ChunkOK(m, x, U[x]);
      NodeKept(m, m', U, X, lo, hi, x);
    }
    RepFrame(m, m', t, TreeBinAt(i), i);
    HoldsExtends(t, Large(D), Large(E));
    forall x | x in Members(t) ensures InBin(E, x, i) {
      assert InBin(D, x, i);
    }
  }

  lemma NodeKept(m: Mem, m': Mem, U: map<int, int>, X: set<int>, lo: int, hi: int, x: int)
    requires OnlyIn(m, m', U, X, lo, hi) && Disjoint(U) && x in U && x !in X && hi <= HEAP_FLOOR <= x && U[x] >= 256
    ensures SameNode(m, m', x)
  {
    ChunkKept(m, m', U, X, lo, hi, x, x + 8);
    ChunkKept(m, m', U, X, lo, hi, x, x + 16);
    ChunkKept(m, m', U, X, lo, hi, x, x + 24);
    ChunkKept(m, m', U, X, lo, hi, x, x + 32);
    ChunkKept(m, m', U, X, lo, hi, x, x + 40);
    ChunkKept(m, m', U, X, lo, hi, x, x + 48);
    ChunkKept(m, m', U, X, lo, hi, x, x + 56);
  }

  lemma ChunksKept(m: Mem, m': Mem, U: map<int, int>, X: set<int>, lo: int, hi: int)
    requires OnlyIn(m, m', U, X, lo, hi) && ChunksOK(m, U) && hi <= HEAP_FLOOR
    ensures ChunksOK(m', U)
  {
    forall x | x in U ensures ChunkOK(m', x, U[x]) {
      assert ChunkOK(m, x, U[x]);
      assert forall y :: y in U ==> ChunkOK(m, y, U[y]);
      HeadKept(m, m', U, X, lo, hi, x);
    }
  }

  lemma ChunksSubset(m: Mem, D: map<int, int>, E: map<int, int>)
    requires ChunksOK(m, D) && forall x :: x in E ==> x in D && E[x] == D[x]
    ensures ChunksOK(m, E)
  {
    forall x | x in E ensures ChunkOK(m, x, E[x]) {
      assert ChunkOK(m, x, D[x]);
    }
  }

  /** Writes that stay away from all the bins' words keep everything. */
  ghost predicate AwayFromBins(m: Mem, m': Mem, D: map<int, int>) {
    && (forall w :: w < HEAP_FLOOR ==> Rd(m', w) == Rd(m, w))
    && (forall x, w :: x in D && x + 8 <= w < x + D[x] ==> Rd(m', w) == Rd(m, w))
  }

  lemma BinsFrame(m: Mem, m': Mem, smallmap: U32, treemap: U32, D: map<int, int>, rings: seq<seq<int>>,
                  trees: seq<Tree>)
    requires BinsOK(m, smallmap, treemap, D, rings, trees) && AwayFromBins(m, m', D)
    ensures BinsOK(m', smallmap, treemap, D, rings, trees)
  {
    assert ChunksOK(m', D) by {
      forall x | x in D ensures ChunkOK(m', x, D[x]) {
        assert ChunkOK(m, x, D[x]);
        assert x + 8 <= x + 8 < x + D[x];
      }
    }
    forall i | 0 <= i < 32 ensures SmallBinOK(m', smallmap, i, rings[i], D) {
      assert SmallBinOK(m, smallmap, i, rings[i], D);
      SmallBinAway(m, m', smallmap, i, rings[i], D);
    }
    forall i | 0 <= i < 32 ensures TreeBinOK(m', treemap, i, trees[i], D) {
      assert TreeBinOK(m, treemap, i, trees[i], D);
      TreeBinAway(m, m', treemap, i, trees[i], D);
    }
  }

  lemma SmallBinAway(m: Mem, m': Mem, map0: U32, i: int, r: seq<int>, D: map<int, int>)
    requires 0 <= i < 32 && SmallBinOK(m, map0, i, r, D) && AwayFromBins(m, m', D) && ChunksOK(m, D)
    ensures SmallBinOK(m', map0, i, r, D)
  {
    if r != [] {
      var c := [SmallBinAt(i)] + r;
      forall k | 0 <= k < |c|
        ensures Rd(m', c[k] + 16) == Rd(m, c[k] + 16) && Rd(m', c[k] + 24) == Rd(m, c[k] + 24)
      {
        if k > 0 { assert c[k] in r && ChunkOK(m, c[k], D[c[k]]); }
      }
      RingFrame(m, m', c);
    }
  }

  lemma TreeBinAway(m: Mem, m': Mem, map0: U32, i: int, t: Tree, D: map<int, int>)
    requires 0 <= i < 32 && TreeBinOK(m, map0, i, t, D) && AwayFromBins(m, m', D) && ChunksOK(m, D)
    ensures TreeBinOK(m', map0, i, t, D)
  {
    hide Members, Holds, Shape, Rep, Root;
    forall x | x in Members(t) ensures SameNode(m, m', x) {
      assert InBin(D, x, i) && ChunkOK(m, x, D[x]);
    }
    RepFrame(m, m', t, TreeBinAt(i), i);
  }
}
