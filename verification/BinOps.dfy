/** The four link operations, on values: each keeps the bins and changes the binned chunks by exactly one. */
module BinOps {
  import opened Words
  import opened Memory
  import opened Rings
  import opened Tries
  import opened TrieLinks
  import opened TrieUnlink
  import opened BinMaps
  import opened Bins
  import TI = TreeIndex

  // ---- all bins but one ----

  ghost predicate SmallExcept(m: Mem, map0: U32, rings: seq<seq<int>>, D: map<int, int>, skip: int) {
    |rings| == 32 && forall j :: 0 <= j < 32 && j != skip ==> SmallBinOK(m, map0, j, rings[j], D)
  }

  ghost predicate LargeExcept(m: Mem, map0: U32, trees: seq<Tree>, D: map<int, int>, skip: int) {
    |trees| == 32 && forall j :: 0 <= j < 32 && j != skip ==> TreeBinOK(m, map0, j, trees[j], D)
  }

  /** E is D with the one chunk p added or removed; U is the larger of the two. */
  ghost predicate OneMore(D: map<int, int>, p: int, s: int, U: map<int, int>) {
    p !in D && U == D[p := s]
  }

  ghost predicate SameMarks(map0: U32, map1: U32, skip: int) {
    forall j: nat :: j < 32 && j != skip ==> Marked(map0, j) == Marked(map1, j)
  }

  /** X holds only chunks filed under small index i (or none, for a tree operation). */
  ghost predicate AllSmallIn(U: map<int, int>, X: set<int>, i: int) {
    forall x :: x in X ==> x in U && U[x] == 8 * i
  }

  ghost predicate AllLargeIn(U: map<int, int>, X: set<int>, i: int) {
    forall x :: x in X ==> InBin(U, x, i)
  }

  lemma SmallOthers(m: Mem, m': Mem, map0: U32, map1: U32, rings: seq<seq<int>>, D: map<int, int>, E: map<int, int>,
                    U: map<int, int>, X: set<int>, i: int)
    requires 0 <= i < 32 && SmallExcept(m, map0, rings, D, i) && SameMarks(map0, map1, i)
    requires OnlyIn(m, m', U, X, SmallBinAt(i) + 16, SmallBinAt(i) + 32) && ChunksOK(m, U) && AllSmallIn(U, X, i)
    requires forall x :: x in D && x in U && U[x] != 8 * i ==> x in E && E[x] == D[x] == U[x]
    requires forall x :: x in D ==> x in U && U[x] == D[x]
    ensures SmallExcept(m', map1, rings, E, i)
  {
    forall j | 0 <= j < 32 && j != i ensures SmallBinOK(m', map1, j, rings[j], E) {
      assert SmallBinOK(m, map0, j, rings[j], D);
      assert Marked(map0, j) == Marked(map1, j);
      SmallBinKept(m, m', map0, map1, j, rings[j], D, E, U, X, SmallBinAt(i) + 16, SmallBinAt(i) + 32);
    }
  }

  lemma LargeUnderSmall(m: Mem, m': Mem, map0: U32, trees: seq<Tree>, D: map<int, int>, E: map<int, int>, U: map<int,
                        int>, X: set<int>, i: int)
    requires 0 <= i < 32 && LargeOK(m, map0, trees, D)
    requires OnlyIn(m, m', U, X, SmallBinAt(i) + 16, SmallBinAt(i) + 32) && ChunksOK(m, U) && AllSmallIn(U, X, i)
    requires forall x :: x in D && D[x] >= 256 ==> x in E && E[x] == D[x]
    requires forall x :: x in D ==> x in U && U[x] == D[x]
    ensures LargeOK(m', map0, trees, E)
  {
    forall j | 0 <= j < 32 ensures TreeBinOK(m', map0, j, trees[j], E) {
      assert TreeBinOK(m, map0, j, trees[j], D);
      forall x | x in Members(trees[j]) ensures x !in X && x in E && E[x] == D[x] && x in U && U[x] == D[x] {
        assert InBin(D, x, j);
      }
      TreeBinKept(m, m', map0, map0, j, trees[j], D, E, U, X, SmallBinAt(i) + 16, SmallBinAt(i) + 32);
    }
  }

  lemma LargeOthers(m: Mem, m': Mem, map0: U32, map1: U32, trees: seq<Tree>, D: map<int, int>, E: map<int, int>,
                    U: map<int, int>, X: set<int>, i: int)
    requires 0 <= i < 32 && LargeExcept(m, map0, trees, D, i) && SameMarks(map0, map1, i)
    requires OnlyIn(m, m', U, X, TreeBinAt(i), TreeBinAt(i) + 8) && ChunksOK(m, U) && AllLargeIn(U, X, i)
    requires forall x, j :: InBin(D, x, j) && j != i ==> x in E && E[x] == D[x]
    requires forall x :: x in D ==> x in U && U[x] == D[x]
    ensures LargeExcept(m', map1, trees, E, i)
  {
    forall j | 0 <= j < 32 && j != i ensures TreeBinOK(m', map1, j, trees[j], E) {
      assert TreeBinOK(m, map0, j, trees[j], D);
      assert Marked(map0, j) == Marked(map1, j);
      forall x | x in Members(trees[j]) ensures x !in X && x in E && E[x] == D[x] && x in U && U[x] == D[x] {
        assert InBin(D, x, j);
        assert x in X ==> InBin(U, x, i);
      }
      TreeBinKept(m, m', map0, map1, j, trees[j], D, E, U, X, TreeBinAt(i), TreeBinAt(i) + 8);
    }
  }

  lemma SmallUnderLarge(m: Mem, m': Mem, map0: U32, rings: seq<seq<int>>, D: map<int, int>, E: map<int, int>,
                        U: map<int, int>, X: set<int>, i: int)
    requires 0 <= i < 32 && SmallOK(m, map0, rings, D)
    requires OnlyIn(m, m', U, X, TreeBinAt(i), TreeBinAt(i) + 8) && ChunksOK(m, U) && AllLargeIn(U, X, i)
    requires forall x :: x in D && D[x] < 256 ==> x in E && E[x] == D[x]
    requires forall x :: x in D ==> x in U && U[x] == D[x]
    ensures SmallOK(m', map0, rings, E)
  {
    forall j | 0 <= j < 32 ensures SmallBinOK(m', map0, j, rings[j], E) {
      assert SmallBinOK(m, map0, j, rings[j], D);
      forall x | x in rings[j] ensures x !in X && x in E && E[x] == D[x] && x in U {
        assert x in X ==> InBin(U, x, i);
      }
      SmallBinKept(m, m', map0, map0, j, rings[j], D, E, U, X, TreeBinAt(i), TreeBinAt(i) + 8);
    }
  }

  // ---- insert_small_chunk ----

  function SmallNext(m: Mem, map0: U32, i: int): int
    requires 0 <= i < 32
  {
    if Marked(map0, i) then Rd(m, SmallBinAt(i) + 16) else SmallBinAt(i)
  }

  lemma InsertInRing(m: Mem, map0: U32, map1: U32, i: int, r: seq<int>, D: map<int, int>, p: int)
    requires 0 <= i < 32 && SmallBinOK(m, map0, i, r, D) && ChunksOK(m, D[p := 8 * i]) && p !in D
    requires Marked(map1, i)
    ensures SmallBinOK(LinkAfter(m, SmallBinAt(i), SmallNext(m, map0, i), p), map1, i, [p] + r, D[p := 8 * i])
    ensures OnlyIn(m, LinkAfter(m, SmallBinAt(i), SmallNext(m, map0, i), p), D[p := 8 * i], Elems(r) + {p},
                   SmallBinAt(i) + 16, SmallBinAt(i) + 32)
  {
    var b := SmallBinAt(i);
    var U := D[p := 8 * i];
    var f := SmallNext(m, map0, i);
    var m' := LinkAfter(m, b, f, p);
    assert ChunkOK(m, p, U[p]);
    assert p in Elems(r) + {p};
    if r != [] {
      var c := [b] + r;
      assert Linked(m, c[0], c[Nxt(|c|, 0)]);
      assert f == r[0];
      InsertAfterHead(m, c, p);
      assert [b, p] + c[1..] == [b] + ([p] + r);
      assert f in r && ChunkOK(m, f, U[f]);
      assert f in Elems(r) + {p};
      assert Interior(U, Elems(r) + {p}, f + 24);
    } else {
      assert [b] + ([p] + r) == [b, p];
      RingOfTwo(m, b, p);
    }
    assert Interior(U, Elems(r) + {p}, p + 16) && Interior(U, Elems(r) + {p}, p + 24);
  }

  lemma RingOfTwo(m: Mem, b: int, p: int)
    requires b % 16 == 0 && p % 16 == 0 && b != p
    ensures Ring(LinkAfter(m, b, b, p), [b, p])
  {
  }

  lemma InsertSmall(m: Mem, map0: U32, map1: U32, treemap: U32, D: map<int, int>, rings: seq<seq<int>>,
                    trees: seq<Tree>, p: int, i: int)
    requires BinsOK(m, map0, treemap, D, rings, trees)
    requires 0 <= i < 32 && p !in D && ChunksOK(m, D[p := 8 * i])
    requires Marked(map1, i) && SameMarks(map0, map1, i)
    ensures BinsOK(LinkAfter(m, SmallBinAt(i), SmallNext(m, map0, i), p), map1, treemap, D[p := 8 * i],
                   rings[i := [p] + rings[i]], trees)
    ensures OnlyIn(m, LinkAfter(m, SmallBinAt(i), SmallNext(m, map0, i), p), D[p := 8 * i], Elems(rings[i]) + {p},
                   SmallBinAt(i) + 16, SmallBinAt(i) + 32)
  {
    hide LinkAfter, SmallNext;
    var m' := LinkAfter(m, SmallBinAt(i), SmallNext(m, map0, i), p);
    var U := D[p := 8 * i];
    var X := Elems(rings[i]) + {p};
    assert SmallBinOK(m, map0, i, rings[i], D);
    InsertInRing(m, map0, map1, i, rings[i], D, p);
    assert AllSmallIn(U, X, i);
    SmallOthers(m, m', map0, map1, rings, D, U, U, X, i);
    LargeUnderSmall(m, m', treemap, trees, D, U, U, X, i);
    ChunksKept(m, m', U, X, SmallBinAt(i) + 16, SmallBinAt(i) + 32);
    var rings' := rings[i := [p] + rings[i]];
    assert SmallOK(m', map1, rings', U);
    CompleteAddSmall(D, rings, trees, p, i);
  }

  lemma CompleteAddSmall(D: map<int, int>, rings: seq<seq<int>>, trees: seq<Tree>, p: int, i: int)
    requires Complete(rings, trees, D) && 0 <= i < 32 && p !in D
    ensures Complete(rings[i := [p] + rings[i]], trees, D[p := 8 * i])
  {
    var U, R := D[p := 8 * i], rings[i := [p] + rings[i]];
    forall x | x in U && 0 <= U[x] < 256 ensures x in R[U[x] / 8] {
      if x != p { assert x in rings[D[x] / 8]; }
    }
  }

  // ---- unlink_small_chunk ----

  lemma UnlinkFromRing(m: Mem, map0: U32, map1: U32, i: int, r: seq<int>, D: map<int, int>, p: int, k: int)
    requires 0 <= i < 32 && SmallBinOK(m, map0, i, r, D) && ChunksOK(m, D)
    requires 0 <= k < |r| && r[k] == p && |r| >= 2 && Marked(map1, i)
    ensures SmallBinOK(LinkPast(m, Rd(m, p + 24), Rd(m, p + 16)), map1, i, Without(r, k), D - {p})
    ensures OnlyIn(m, LinkPast(m, Rd(m, p + 24), Rd(m, p + 16)), D, Elems(r), SmallBinAt(i) + 16, SmallBinAt(i) + 32)
    ensures Rd(m, p + 24) != Rd(m, p + 16)
  {
    var h := SmallBinAt(i);
    var c := [h] + r;
    RemoveAt(m, c, k + 1);
    assert Without(c, k + 1) == [h] + Without(r, k);
    var n := |c|;
    assert Linked(m, c[k + 1], c[Nxt(n, k + 1)]);
    assert Linked(m, c[k], c[Nxt(n, k)]);
    var f, b := Rd(m, p + 16), Rd(m, p + 24);
    assert f == c[Nxt(n, k + 1)] && b == c[k];
    RingLinkIn(m, D, r, h, f, 24);
    RingLinkIn(m, D, r, h, b, 16);
    assert c[k + 1] == p;
    forall x | x in Without(r, k) ensures x in D - {p} && D[x] == 8 * i {
      var j :| 0 <= j < |Without(r, k)| && Without(r, k)[j] == x;
      var e := if j < k then j else j + 1;
      assert x == c[e + 1];
    }
  }

  /** A link word of a ring node is a static word of the header or inside a member. */
  lemma RingLinkIn(m: Mem, D: map<int, int>, r: seq<int>, h: int, f: int, off: int)
    requires ChunksOK(m, D) && (forall x :: x in r ==> x in D) && (off == 16 || off == 24)
    requires f == h || f in r
    ensures f == h || Interior(D, Elems(r), f + off)
  {
    if f != h { assert f in Elems(r) && ChunkOK(m, f, D[f]); }
  }

  /** The chunk's two neighbours coincide exactly when it is alone in its bin. */
  lemma AloneInRing(m: Mem, h: int, r: seq<int>, k: int)
    requires Ring(m, [h] + r) && 0 <= k < |r|
    ensures Rd(m, r[k] + 24) == Rd(m, r[k] + 16) <==> |r| == 1
    ensures Rd(m, Rd(m, r[k] + 16) + 24) == r[k] && Rd(m, Rd(m, r[k] + 24) + 16) == r[k]
    ensures Rd(m, r[k] + 16) == h || Rd(m, r[k] + 16) in r
    ensures Rd(m, r[k] + 24) == h || Rd(m, r[k] + 24) in r
    ensures r[k] != h && Rd(m, r[k] + 16) != r[k] && Rd(m, r[k] + 24) != r[k]
  {
    var c := [h] + r;
    var n := |c|;
    assert c[k + 1] == r[k];
    assert Linked(m, c[k + 1], c[Nxt(n, k + 1)]);
    assert Linked(m, c[k], c[Nxt(n, k)]);
    var nx := Nxt(n, k + 1);
    assert c[nx] != c[k + 1] && c[k] != c[k + 1] && c[0] != c[k + 1];
    if n >= 3 { assert c[nx] != c[k]; }
    if nx != 0 { assert c[nx] == r[nx - 1]; }
    if k != 0 { assert c[k] == r[k - 1]; }
  }

  ghost function DropAt(rings: seq<seq<int>>, i: int, k: int): seq<seq<int>>
    requires 0 <= i < |rings| && 0 <= k < |rings[i]|
  {
    rings[i := Without(rings[i], k)]
  }

  /** The memory after unlink_small_chunk: unchanged when the chunk was alone. */
  ghost function UnlinkSmallMem(m: Mem, r: seq<int>, p: int): Mem {
    if |r| == 1 then m else LinkPast(m, Rd(m, p + 24), Rd(m, p + 16))
  }

  lemma UnlinkSmall(m: Mem, map0: U32, map1: U32, treemap: U32, D: map<int, int>, rings: seq<seq<int>>,
                    trees: seq<Tree>, p: int, i: int, k: int)
    requires BinsOK(m, map0, treemap, D, rings, trees)
    requires 0 <= i < 32 && 0 <= k < |rings[i]| && rings[i][k] == p
    requires Marked(map1, i) == (|rings[i]| != 1) && SameMarks(map0, map1, i)
    ensures BinsOK(UnlinkSmallMem(m, rings[i], p), map1, treemap, D - {p}, DropAt(rings, i, k), trees)
    ensures OnlyIn(m, UnlinkSmallMem(m, rings[i], p), D, Elems(rings[i]), SmallBinAt(i) + 16, SmallBinAt(i) + 32)
    ensures p in D && D[p] == 8 * i
  {
    hide LinkPast;
    var r := rings[i];
    var m' := UnlinkSmallMem(m, r, p);
    var X := Elems(r);
    assert SmallBinOK(m, map0, i, r, D);
    assert p in r;
    if |r| == 1 {
      assert Without(r, k) == [];
    } else {
      UnlinkFromRing(m, map0, map1, i, r, D, p, k);
    }
    assert AllSmallIn(D, X, i);
    SmallOthers(m, m', map0, map1, rings, D, D - {p}, D, X, i);
    LargeUnderSmall(m, m', treemap, trees, D, D - {p}, D, X, i);
    ChunksKept(m, m', D, X, SmallBinAt(i) + 16, SmallBinAt(i) + 32);
    ChunksSubset(m', D, D - {p});
    assert SmallOK(m', map1, DropAt(rings, i, k), D - {p});
    CompleteDropSmall(D, rings, trees, p, i, k);
  }

  lemma CompleteDropSmall(D: map<int, int>, rings: seq<seq<int>>, trees: seq<Tree>, p: int, i: int, k: int)
    requires Complete(rings, trees, D) && 0 <= i < 32 && 0 <= k < |rings[i]| && rings[i][k] == p
    requires p in D && D[p] == 8 * i
    ensures Complete(DropAt(rings, i, k), trees, D - {p})
  {
    var E, R := D - {p}, DropAt(rings, i, k);
    forall x | x in E && 0 <= E[x] < 256 ensures x in R[E[x] / 8] {
      assert x in rings[D[x] / 8];
      if D[x] / 8 == i {
        var j :| 0 <= j < |rings[i]| && rings[i][j] == x;
        assert j != k;
        var d := Without(rings[i], k);
        if j < k { assert d[j] == x; } else { assert d[j - 1] == x; }
      }
    }
  }

  // ---- insert_large_chunk ----

  lemma LargeApart(m: Mem, D: map<int, int>)
    requires ChunksOK(m, D)
    ensures Apart(Large(D))
    ensures forall x :: x in Large(D) ==> x >= HEAP_FLOOR
  {
    forall x | x in Large(D) ensures x >= HEAP_FLOOR { assert ChunkOK(m, x, D[x]); }
  }

  lemma StaticClear(m: Mem, D: map<int, int>, c: int, X: set<int>)
    requires ChunksOK(m, D) && c < HEAP_FLOOR && X <= D.Keys
    ensures Clear(c, X)
  {
    forall y | y in X ensures Off(c, y) { assert ChunkOK(m, y, D[y]); }
  }

  lemma UntouchedToOnlyIn(m: Mem, m': Mem, U: map<int, int>, X: set<int>, c: int)
    requires Untouched(m, m', X, c) && forall x :: x in X ==> x in U && U[x] >= 64
    ensures OnlyIn(m, m', U, X, c, c + 8)
  {
    forall w | !(c <= w < c + 8) && !Interior(U, X, w) ensures Rd(m', w) == Rd(m, w) {
      assert !InNodes(X, w) by {
        forall y | y in X ensures !(y + 16 <= w < y + 64) { }
      }
    }
  }

  /** The first writes of insert_large_chunk, to the chunk's own index and child words. */
  function PrepareMem(m: Mem, x: int, i: int): Mem {
    m[x + 56 := i][x + 32 := 0][x + 40 := 0]
  }

  /** The memory after insert_large_chunk into bin i. */
  function InsertLargeMem(m: Mem, t: Tree, x: int, S: int, i: nat): Mem {
    var m1 := PrepareMem(m, x, i);
    Place(m1, x, FindSlot(t, S, TI.BinLo(i), TI.BinWidth(i), TreeBinAt(i), TreeBinAt(i)))
  }

  function InsertIn(t: Tree, x: int, S: int, i: nat): Tree {
    Insert(t, x, S, TI.BinLo(i), TI.BinWidth(i))
  }

  lemma LargeExtends(D: map<int, int>, x: int, S: int)
    requires S >= 256
    ensures Large(D[x := S]) == Large(D)[x := S]
  {
  }

  lemma NotAMember(D: map<int, int>, X: set<int>, x: int, i: int)
    requires x !in D && forall y :: y in X ==> InBin(D, y, i)
    ensures x !in X
  {
  }

  lemma PrepareKeeps(m: Mem, t: Tree, x: int, S: int, i: int, D: map<int, int>, U: map<int, int>)
    requires 0 <= i < 32 && x !in D && U == D[x := S] && ChunksOK(m, U) && S >= 256
    requires Rd(m, TreeBinAt(i)) == Root(t) && Rep(m, t, TreeBinAt(i), i)
    requires forall y :: y in Members(t) ==> InBin(D, y, i)
    ensures Prepared(PrepareMem(m, x, i), x, S, i)
    ensures Rd(PrepareMem(m, x, i), TreeBinAt(i)) == Root(t) && Rep(PrepareMem(m, x, i), t, TreeBinAt(i), i)
    ensures Untouched(m, PrepareMem(m, x, i), {x}, TreeBinAt(i))
  {
    hide Root, Members, Rep;
    var m1 := PrepareMem(m, x, i);
    assert ChunkOK(m, x, U[x]);
    forall y | y in Members(t) ensures SameNode(m, m1, y) {
      assert InBin(D, y, i) && ChunkOK(m, y, U[y]) && y in U && x in U && y != x;
    }
    RepFrame(m, m1, t, TreeBinAt(i), i);
    assert x in {x};
    assert forall w :: x + 16 <= w < x + 64 ==> InNodes({x}, w);
  }

  lemma InsertInTree(m: Mem, map0: U32, map1: U32, t: Tree, x: int, S: int, i: int, D: map<int, int>)
    requires 0 <= i < 32 && TreeBinOK(m, map0, i, t, D) && x !in D && ChunksOK(m, D[x := S])
    requires 256 <= S <= 0xFFFF_FFFF_FFFF_FFFF && TI.Index(S) == i && Marked(map1, i)
    ensures TreeBinOK(InsertLargeMem(m, t, x, S, i), map1, i, InsertIn(t, x, S, i), D[x := S])
    ensures OnlyIn(m, InsertLargeMem(m, t, x, S, i), D[x := S], Members(t) + {x}, TreeBinAt(i), TreeBinAt(i) + 8)
  {
    hide *;
    var U, c := D[x := S], TreeBinAt(i);
    var lo, w := TI.BinLo(i), TI.BinWidth(i);
    TreeBinParts(m, map0, i, t, D);
    TI.InBinRange(S);
    NotAMember(D, Members(t), x, i);
    PrepareKeeps(m, t, x, S, i, D, U);
    LargeApart(m, U);
    LargeExtends(D, x, S);
    MembersLarge(Members(t), D, x, S, i);
    HoldsExtends(t, Large(D), Large(U));
    BelowFloor(i);
    StaticClear(m, U, c, Members(t) + {x});
    var m1, m' := PrepareMem(m, x, i), InsertLargeMem(m, t, x, S, i);
    InsertUnfold(m, t, x, S, i);
    PlaceSpec(m1, t, x, S, i, lo, w, c, c, Large(U));
    InsertSpec(t, x, S, lo, w);
    InsertHolds(t, x, S, lo, w, Large(U));
    InsertIsNode(t, x, S, lo, w);
    TreeBinWhole(m', map1, i, InsertIn(t, x, S, i), U);
    UntouchedGrows(m, m1, {x}, c, Members(t) + {x}, c);
    UntouchedTrans(m, m1, m', Members(t) + {x}, c);
    UntouchedToOnlyIn(m, m', U, Members(t) + {x}, c);
  }

  lemma InsertUnfold(m: Mem, t: Tree, x: int, S: int, i: nat)
    ensures InsertLargeMem(m, t, x, S, i) == Place(PrepareMem(m, x, i), x,
                                                   FindSlot(t, S, TI.BinLo(i), TI.BinWidth(i), TreeBinAt(i),
                                                            TreeBinAt(i)))
    ensures InsertIn(t, x, S, i) == Insert(t, x, S, TI.BinLo(i), TI.BinWidth(i))
  {
  }

  lemma InsertIsNode(t: Tree, x: int, S: int, lo: int, w: nat)
    ensures Insert(t, x, S, lo, w).Node?
  {
  }

  lemma BelowFloor(i: int)
    requires 0 <= i < 32
    ensures TreeBinAt(i) < HEAP_FLOOR && TreeBinAt(i) + 8 <= HEAP_FLOOR
  {
  }

  lemma MembersLarge(X: set<int>, D: map<int, int>, x: int, S: int, i: int)
    requires forall y :: y in X ==> InBin(D, y, i)
    requires 256 <= S <= 0xFFFF_FFFF_FFFF_FFFF && TI.Index(S) == i && x !in D
    ensures forall y :: y in X ==> y in Large(D[x := S]) && (y in Large(D) ==> Large(D[x := S])[y] == Large(D)[y])
    ensures forall y :: y in X + {x} ==> y in D[x := S] && D[x := S][y] >= 64 && InBin(D[x := S], y, i)
    ensures X + {x} <= D[x := S].Keys
    ensures x in Large(D[x := S]) && Large(D[x := S])[x] == S
  {
  }

  lemma TreeBinParts(m: Mem, map0: U32, i: int, t: Tree, D: map<int, int>)
    requires 0 <= i < 32 && TreeBinOK(m, map0, i, t, D)
    ensures Rd(m, TreeBinAt(i)) == Root(t) && Rep(m, t, TreeBinAt(i), i)
    ensures Shape(t, TI.BinLo(i), TI.BinWidth(i)) && Holds(t, Large(D))
    ensures forall x :: x in Members(t) ==> InBin(D, x, i)
    ensures Marked(map0, i) <==> t.Node?
  {
  }

  lemma TreeBinWhole(m: Mem, map0: U32, i: int, t: Tree, D: map<int, int>)
    requires 0 <= i < 32 && (Marked(map0, i) <==> t.Node?)
    requires Rd(m, TreeBinAt(i)) == Root(t) && Rep(m, t, TreeBinAt(i), i)
    requires Shape(t, TI.BinLo(i), TI.BinWidth(i)) && Holds(t, Large(D))
    requires forall x :: x in Members(t) ==> InBin(D, x, i)
    ensures TreeBinOK(m, map0, i, t, D)
  {
  }

  lemma InsertLarge(m: Mem, smallmap: U32, map0: U32, map1: U32, D: map<int, int>, rings: seq<seq<int>>,
                    trees: seq<Tree>, x: int, S: int, i: int)
    requires BinsOK(m, smallmap, map0, D, rings, trees)
    requires 0 <= i < 32 && x !in D && ChunksOK(m, D[x := S])
    requires 256 <= S <= 0xFFFF_FFFF_FFFF_FFFF && TI.Index(S) == i
    requires Marked(map1, i) && SameMarks(map0, map1, i)
    ensures BinsOK(InsertLargeMem(m, trees[i], x, S, i), smallmap, map1, D[x := S], rings,
                   trees[i := InsertIn(trees[i], x, S, i)])
    ensures OnlyIn(m, InsertLargeMem(m, trees[i], x, S, i), D[x := S], Members(trees[i]) + {x}, TreeBinAt(i),
                   TreeBinAt(i) + 8)
  {
    hide InsertLargeMem, InsertIn, TreeBinOK, Members;
    var U, t := D[x := S], trees[i];
    var m', X := InsertLargeMem(m, t, x, S, i), Members(t) + {x};
    assert TreeBinOK(m, map0, i, t, D);
    TreeBinParts(m, map0, i, t, D);
    InsertInTree(m, map0, map1, t, x, S, i, D);
    MembersLarge(Members(t), D, x, S, i);
    LargeOthers(m, m', map0, map1, trees, D, U, U, X, i);
    SmallUnderLarge(m, m', smallmap, rings, D, U, U, X, i);
    ChunksKept(m, m', U, X, TreeBinAt(i), TreeBinAt(i) + 8);
    var trees' := trees[i := InsertIn(t, x, S, i)];
    assert LargeOK(m', map1, trees', U);
    InsertInSpec(m, map0, t, x, S, i, D);
    CompleteAddLarge(D, rings, trees, x, S, i);
  }

  lemma InsertInSpec(m: Mem, map0: U32, t: Tree, x: int, S: int, i: int, D: map<int, int>)
    requires 0 <= i < 32 && TreeBinOK(m, map0, i, t, D) && 256 <= S <= 0xFFFF_FFFF_FFFF_FFFF && TI.Index(S) == i
    ensures Members(InsertIn(t, x, S, i)) == Members(t) + {x}
  {
    TI.InBinRange(S);
    InsertSpec(t, x, S, TI.BinLo(i), TI.BinWidth(i));
  }

  lemma CompleteAddLarge(D: map<int, int>, rings: seq<seq<int>>, trees: seq<Tree>, x: int, S: int, i: int)
    requires Complete(rings, trees, D) && 0 <= i < 32 && x !in D && 256 <= S <= 0xFFFF_FFFF_FFFF_FFFF
      && TI.Index(S) == i
    requires Members(InsertIn(trees[i], x, S, i)) == Members(trees[i]) + {x}
    ensures Complete(rings, trees[i := InsertIn(trees[i], x, S, i)], D[x := S])
  {
    hide InsertIn, Members;
    var U, T := D[x := S], trees[i := InsertIn(trees[i], x, S, i)];
    forall y | y in U && 256 <= U[y] <= 0xFFFF_FFFF_FFFF_FFFF
      ensures TI.Index(U[y]) < 32 && y in Members(T[TI.Index(U[y])])
    {
      if y != x { assert y in D && y in Members(trees[TI.Index(D[y])]); }
    }
  }

  // ---- unlink_large_chunk ----

  function UnlinkLargeMem(m: Mem, t: Tree, x: int, S: int, i: nat): Mem {
    UnlinkMem(m, t, x, S, TI.BinLo(i), TI.BinWidth(i), TreeBinAt(i), TreeBinAt(i))
  }

  ghost function RemoveIn(t: Tree, x: int, S: int, i: nat): Tree {
    Remove(t, x, S, TI.BinLo(i), TI.BinWidth(i))
  }

  lemma LargeShrinks(D: map<int, int>, t: Tree, x: int)
    requires Holds(t, Large(D)) && x !in Members(t)
    ensures Holds(t, Large(D - {x}))
  {
    HoldsMembers(t, Large(D));
    HoldsExtends(t, Large(D), Large(D - {x}));
  }

  lemma RemoveFromTree(m: Mem, map0: U32, map1: U32, t: Tree, x: int, S: int, i: int, D: map<int, int>)
    requires 0 <= i < 32 && TreeBinOK(m, map0, i, t, D) && ChunksOK(m, D)
    requires x in Members(t) && x in D && D[x] == S
    requires Marked(map1, i) <==> RemoveIn(t, x, S, i).Node?
    ensures TreeBinOK(UnlinkLargeMem(m, t, x, S, i), map1, i, RemoveIn(t, x, S, i), D - {x})
    ensures OnlyIn(m, UnlinkLargeMem(m, t, x, S, i), D, Members(t), TreeBinAt(i), TreeBinAt(i) + 8)
    ensures Members(RemoveIn(t, x, S, i)) == Members(t) - {x}
    ensures Rd(UnlinkLargeMem(m, t, x, S, i), TreeBinAt(i)) == Root(RemoveIn(t, x, S, i))
  {
    hide *;
    var c := TreeBinAt(i);
    var lo, w := TI.BinLo(i), TI.BinWidth(i);
    TreeBinParts(m, map0, i, t, D);
    LargeApart(m, D);
    MembersInD(Members(t), D, i);
    InLarge(D, x, i);
    BelowFloor(i);
    StaticClear(m, D, c, Members(t));
    UnlinkUnfold(m, t, x, S, i);
    var m', u := UnlinkLargeMem(m, t, x, S, i), RemoveIn(t, x, S, i);
    UnlinkSpec(m, t, x, S, i, lo, w, c, c, Large(D));
    RepChainsDistinct(m, t, c, i);
    RemoveMembers(t, x, S, lo, w, Large(D));
    RemoveKeepsShape(t, x, S, lo, w, Large(D));
    LargeShrinks(D, u, x);
    StillInBin(Members(t), D, x, i);
    TreeBinWhole(m', map1, i, u, D - {x});
    UntouchedToOnlyIn(m, m', D, Members(t), c);
  }

  lemma UnlinkUnfold(m: Mem, t: Tree, x: int, S: int, i: nat)
    ensures UnlinkLargeMem(m, t, x, S, i) == UnlinkMem(m, t, x, S, TI.BinLo(i), TI.BinWidth(i), TreeBinAt(i),
                                                       TreeBinAt(i))
    ensures RemoveIn(t, x, S, i) == Remove(t, x, S, TI.BinLo(i), TI.BinWidth(i))
  {
  }

  lemma InLarge(D: map<int, int>, x: int, i: int)
    requires InBin(D, x, i)
    ensures x in Large(D) && Large(D)[x] == D[x]
  {
  }

  lemma MembersInD(X: set<int>, D: map<int, int>, i: int)
    requires forall y :: y in X ==> InBin(D, y, i)
    ensures X <= D.Keys && forall y :: y in X ==> y in D && D[y] >= 64
  {
    forall y | y in X ensures y in D.Keys { assert InBin(D, y, i); }
  }

  lemma StillInBin(X: set<int>, D: map<int, int>, x: int, i: int)
    requires forall y :: y in X ==> InBin(D, y, i)
    ensures forall y :: y in X - {x} ==> InBin(D - {x}, y, i)
  {
  }

  lemma UnlinkLarge(m: Mem, smallmap: U32, map0: U32, map1: U32, D: map<int, int>, rings: seq<seq<int>>,
                    trees: seq<Tree>, x: int, S: int, i: int)
    requires BinsOK(m, smallmap, map0, D, rings, trees)
    requires x in D && D[x] == S && 256 <= S <= 0xFFFF_FFFF_FFFF_FFFF && TI.Index(S) == i && 0 <= i < 32
    requires (Marked(map1, i) <==> RemoveIn(trees[i], x, S, i).Node?) && SameMarks(map0, map1, i)
    ensures BinsOK(UnlinkLargeMem(m, trees[i], x, S, i), smallmap, map1, D - {x}, rings,
                   trees[i := RemoveIn(trees[i], x, S, i)])
    ensures OnlyIn(m, UnlinkLargeMem(m, trees[i], x, S, i), D, Members(trees[i]), TreeBinAt(i), TreeBinAt(i) + 8)
  {
    hide UnlinkLargeMem, RemoveIn, TreeBinOK, Members;
    var t := trees[i];
    var m', X := UnlinkLargeMem(m, t, x, S, i), Members(t);
    assert TreeBinOK(m, map0, i, t, D);
    TreeBinParts(m, map0, i, t, D);
    RemoveFromTree(m, map0, map1, t, x, S, i, D);
    LargeOthers(m, m', map0, map1, trees, D, D - {x}, D, X, i);
    SmallUnderLarge(m, m', smallmap, rings, D, D - {x}, D, X, i);
    ChunksKept(m, m', D, X, TreeBinAt(i), TreeBinAt(i) + 8);
    ChunksSubset(m', D, D - {x});
    var trees' := trees[i := RemoveIn(t, x, S, i)];
    assert LargeOK(m', map1, trees', D - {x});
    CompleteDropLarge(D, rings, trees, x, S, i);
  }

  lemma CompleteDropLarge(D: map<int, int>, rings: seq<seq<int>>, trees: seq<Tree>, x: int, S: int, i: int)
    requires Complete(rings, trees, D) && 0 <= i < 32 && x in D && D[x] == S && 256 <= S <= 0xFFFF_FFFF_FFFF_FFFF
      && TI.Index(S) == i
    requires Members(RemoveIn(trees[i], x, S, i)) == Members(trees[i]) - {x}
    ensures Complete(rings, trees[i := RemoveIn(trees[i], x, S, i)], D - {x})
  {
    hide RemoveIn, Members;
    var E, T := D - {x}, trees[i := RemoveIn(trees[i], x, S, i)];
    forall y | y in E && 256 <= E[y] <= 0xFFFF_FFFF_FFFF_FFFF
      ensures TI.Index(E[y]) < 32 && y in Members(T[TI.Index(E[y])])
    {
      assert y in D && y in Members(trees[TI.Index(D[y])]);
    }
  }
}
