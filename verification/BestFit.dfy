/**
 * The searches of tmalloc_large and tmalloc_small. Each visits one path, remembers the deepest untaken right
 * subtree, and looks at no more than one further bin; each nevertheless finds a chunk of the least sufficient size.
 */
module BestFit {
  import opened Words
  import opened Memory
  import opened Sizes
  import opened BinMaps
  import opened Tries
  import opened TrieLinks
  import opened TrieUnlink
  import opened Bins
  import opened BinOps
  import opened State
  import opened FreeLists
  import opened TreeLists
  import TI = TreeIndex

  /** v is the candidate and rsize its remainder, in unsigned arithmetic; with no candidate rsize is -nb. */
  ghost predicate Candidate(D: map<int, int>, nb: int, v: int, rsize: int) {
    if v == 0 then rsize == 0x1_0000_0000_0000_0000 - nb
    else v in D && D[v] >= nb && rsize == D[v] - nb
  }

  /** Every size below t suffices and is at most s. */
  ghost predicate AtMost(t: Tree, nb: int, s: int) {
    t.Node? && forall z :: z in SizesOf(t) ==> nb <= z <= s
  }

  /** Every size below t suffices, unless the search has already met nb exactly. */
  ghost predicate Enough(D: map<int, int>, t: Tree, nb: int, v: int) {
    (forall z :: z in SizesOf(t) ==> z >= nb) || (v != 0 && v in D && D[v] <= nb)
  }

  /** A sufficient size s is still in play below t or r, or something at least as good is. */
  ghost predicate Covered(D: map<int, int>, nb: int, v: int, t: Tree, r: Tree, s: int) {
    s in SizesOf(t) || s in SizesOf(r) || AtMost(t, nb, s) || AtMost(r, nb, s) || (v != 0 && v in D && D[v] <= s)
  }

  ghost predicate CoversAll(D: map<int, int>, X: set<int>, nb: int, v: int, t: Tree, r: Tree) {
    forall s :: s in X && s >= nb ==> Covered(D, nb, v, t, r, s)
  }

  /** The candidate after looking at one more node: the comparison wraps, so too small a size never wins. */
  lemma LookAt(D: map<int, int>, nb: int, v: int, rsize: int, a: int, s: int)
    requires Candidate(D, nb, v, rsize) && a in D && D[a] == s && a != 0
    requires 0 < nb <= 0xFFFF_FFFF_FFFF_FFFF && 0 < s <= 0xFFFF_FFFF_FFFF_FFFF
      && (v != 0 ==> D[v] <= 0xFFFF_FFFF_FFFF_FFFF)
    ensures Sub64(s, nb) < rsize <==> s >= nb && (v == 0 || s < D[v])
    ensures Sub64(s, nb) < rsize ==> Candidate(D, nb, a, Sub64(s, nb))
  {
  }

  /** Subtrees of a node in the search: ranges and roots. */
  lemma SearchNode(m: Mem, t: Tree, par: int, i: int, lo: int, w: nat, D: map<int, int>)
    requires t.Node? && Rep(m, t, par, i) && Shape(t, lo, w) && Holds(t, D)
    requires forall x :: x in D ==> 0 < x && 0 < D[x] <= 0xFFFF_FFFF_FFFF_FFFF && D[x] % 8 == 0
    ensures t.a in D && D[t.a] == t.s && t.a > 0 && ChunkSize(Rd(m, t.a + 8)) == t.s && 0 < t.s <= 0xFFFF_FFFF_FFFF_FFFF
    ensures Rd(m, t.a + 32) == Root(t.l) && Rd(m, t.a + 40) == Root(t.r)
    ensures Root(t.l) != 0 <==> t.l.Node?
    ensures Root(t.r) != 0 <==> t.r.Node?
    ensures t.l.Node? ==> Root(t.l) == t.l.a
    ensures t.r.Node? ==> Root(t.r) == t.r.a
    ensures t.l.Node? && t.r.Node? ==> t.l.a != t.r.a
    ensures Rep(m, t.l, t.a, i) && Rep(m, t.r, t.a, i) && Holds(t.l, D) && Holds(t.r, D)
    ensures SizesOf(t) == {t.s} + SizesOf(t.l) + SizesOf(t.r)
    ensures lo <= t.s < lo + Pow2(w)
    ensures w > 0 ==> Pow2(w) == 2 * Pow2(w - 1) && Shape(t.l, lo, w - 1) && Shape(t.r, lo + Pow2(w - 1), w - 1)
    ensures w > 0 ==> forall s :: s in SizesOf(t.l) ==> lo <= s < lo + Pow2(w - 1)
    ensures w > 0 ==> forall s :: s in SizesOf(t.r) ==> lo + Pow2(w - 1) <= s < lo + Pow2(w)
    ensures w == 0 ==> t.l.Leaf? && t.r.Leaf? && Pow2(w) == 1
  {
    hide Rep, Members, Holds;
    NodeFacts(t, lo, w, D);
    RepParts(m, t, par, i);
    ShapeWidens(t, lo, w);
    RootsBinned(t, D);
    if t.l.Node? { RepParts(m, t.l, t.a, i); }
    if t.r.Node? { RepParts(m, t.r, t.a, i); }
    if t.l.Node? && t.r.Node? { RootSizes(t.l, D); RootSizes(t.r, D); }
  }

  lemma RootSizes(t: Tree, D: map<int, int>)
    requires t.Node? && Holds(t, D)
    ensures t.a in D && D[t.a] in SizesOf(t)
  {
    assert t.a == Chain(t)[0];
  }

  ghost predicate IsImage(m: Mem, t: Tree, par: int, i: int, lo: int, w: nat, D: map<int, int>) {
    Rep(m, t, par, i) && Shape(t, lo, w) && Holds(t, D)
  }

  ghost predicate GoodSizes(D: map<int, int>) {
    forall x :: x in D ==> 0 < x && 0 < D[x] <= 0xFFFF_FFFF_FFFF_FFFF && D[x] % 8 == 0
  }

  lemma CandidateSize(D: map<int, int>, nb: int, v: int, rsize: int)
    requires Candidate(D, nb, v, rsize) && GoodSizes(D)
    ensures v != 0 ==> v in D && D[v] <= 0xFFFF_FFFF_FFFF_FFFF && D[v] == nb + rsize >= nb
    ensures v == 0 ==> rsize == 0x1_0000_0000_0000_0000 - nb
  {
  }

  lemma Sub64Is(s: U64, nb: U64)
    ensures s >= nb ==> Sub64(s, nb) == s - nb
  {
  }

  lemma NothingBelow(D: map<int, int>, nb: int, v: int, s: int)
    requires Covered(D, nb, v, Leaf, Leaf, s)
    ensures v != 0 && v in D && D[v] <= s
  {
  }

  // ---- the second loop: down the leftmost path ----

  lemma LeftmostStep(D: map<int, int>, t: Tree, v: int, v': int, nb: int, X: set<int>, lo: int, w: nat)
    requires t.Node? && CoversAll(D, X, nb, v, t, Leaf) && SizesOf(t) == {t.s} + SizesOf(t.l) + SizesOf(t.r)
    requires t.a in D && D[t.a] == t.s
    requires v == v' || v' == t.a
    requires t.s >= nb ==> v' != 0 && v' in D && D[v'] <= t.s
    requires v != 0 && v in D && v' != 0 && v' in D ==> D[v'] <= D[v]
    requires v != 0 ==> v' != 0 && v' in D
    requires w > 0 ==> forall s :: s in SizesOf(t.l) ==> s < lo + Pow2(w - 1)
    requires w > 0 ==> forall s :: s in SizesOf(t.r) ==> lo + Pow2(w - 1) <= s
    requires w == 0 ==> t.l.Leaf? && t.r.Leaf?
    requires Enough(D, t, nb, v)
    ensures Enough(D, if t.l.Node? then t.l else t.r, nb, v')
    ensures CoversAll(D, X, nb, v', if t.l.Node? then t.l else t.r, Leaf)
  {
    var u := if t.l.Node? then t.l else t.r;
    LeafSizes();
    forall s | s in X && s >= nb ensures Covered(D, nb, v', u, Leaf, s) {
      assert Covered(D, nb, v, t, Leaf, s);
      if s in SizesOf(t) {
        if s == t.s {
        } else if u == t.l && s in SizesOf(t.r) {
          assert AtMost(u, nb, s) || (v' != 0 && v' in D && D[v'] <= s);
        }
      } else if AtMost(t, nb, s) {
        SubAtMost(t, nb, s);
      }
    }
  }

  lemma LeafSizes()
    ensures SizesOf(Leaf) == {}
  {
  }

  lemma SubAtMost(t: Tree, nb: int, s: int)
    requires AtMost(t, nb, s) && SizesOf(t) == {t.s} + SizesOf(t.l) + SizesOf(t.r)
    ensures nb <= t.s <= s
    ensures t.l.Node? ==> AtMost(t.l, nb, s)
    ensures t.r.Node? ==> AtMost(t.r, nb, s)
  {
    assert t.s in SizesOf(t);
  }

  /** The smallest chunk of a subtree is somewhere on its leftmost path. */
  method SmallestFrom(m: MallocState, t0: int, v0: int, rsize0: int, nb: int,
                      ghost tree0: Tree, ghost par0: int, ghost i: int, ghost lo0: int, ghost w0: nat,
                      ghost D: map<int, int>, ghost X: set<int>) returns (v: int, rsize: int)
    requires t0 == Root(tree0) && IsImage(m.mem, tree0, par0, i, lo0, w0, D) && GoodSizes(D)
    requires (t0 == 0 <==> tree0.Leaf?) && 0 < nb <= 0xFFFF_FFFF_FFFF_FFFF
    requires Candidate(D, nb, v0, rsize0) && CoversAll(D, X, nb, v0, tree0, Leaf) && Enough(D, tree0, nb, v0)
    ensures Candidate(D, nb, v, rsize)
    ensures forall s :: s in X && s >= nb ==> v != 0 && v in D && D[v] <= s
    ensures v0 != 0 ==> v != 0
    ensures v == v0 || (v in D && D[v] in SizesOf(tree0))
  {
    hide *;
    var t := t0;
    v, rsize := v0, rsize0;
    ghost var tree, par, lo, w := tree0, par0, lo0, w0;
    RootOfNode(tree);
    while t != 0
      invariant t == Root(tree) && IsImage(m.mem, tree, par, i, lo, w, D)
      invariant t == 0 <==> tree.Leaf?
      invariant tree.Node? ==> t == tree.a
      invariant Candidate(D, nb, v, rsize) && CoversAll(D, X, nb, v, tree, Leaf) && Enough(D, tree, nb, v)
      invariant v0 != 0 ==> v != 0
      invariant SizesOf(tree) <= SizesOf(tree0) && (v == v0 || (v in D && D[v] in SizesOf(tree0)))
      decreases tree
    {
      ghost var v1 := v;
      ImageParts(m.mem, tree, par, i, lo, w, D);
      CandidateSize(D, nb, v, rsize);
      LookAt(D, nb, v, rsize, tree.a, tree.s);
      Sub64Is(tree.s, nb);
      var trem := Sub64(ChunkSize(Rd(m.mem, t + 8)), nb);
      if trem < rsize {
        rsize := trem;
        v := t;
      }
      LeftmostStep(D, tree, v1, v, nb, X, lo, w);
      t := if Rd(m.mem, t + 32) != 0 then Rd(m.mem, t + 32) else Rd(m.mem, t + 40);
      if tree.l.Node? {
        ImageWhole(m.mem, tree.l, tree.a, i, lo, w - 1, D);
        par, w, tree := tree.a, w - 1, tree.l;
      } else {
        if w == 0 { ImageLeaf(m.mem, tree.a, i, lo, 0, D); }
        else { ImageWhole(m.mem, tree.r, tree.a, i, lo + Pow2(w - 1), w - 1, D); }
        par, lo, w, tree := tree.a, if w == 0 then lo else lo + Pow2(w - 1), if w == 0 then 0 else w - 1, tree.r;
      }
      RootOfNode(tree);
    }
    forall s | s in X && s >= nb ensures v != 0 && v in D && D[v] <= s {
      CoversOne(D, X, nb, v, s);
      NothingBelow(D, nb, v, s);
    }
  }

  lemma CoversOne(D: map<int, int>, X: set<int>, nb: int, v: int, s: int)
    requires CoversAll(D, X, nb, v, Leaf, Leaf) && s in X && s >= nb
    ensures Covered(D, nb, v, Leaf, Leaf, s)
  {
  }

  lemma ImageParts(m: Mem, t: Tree, par: int, i: int, lo: int, w: nat, D: map<int, int>)
    requires t.Node? && IsImage(m, t, par, i, lo, w, D) && GoodSizes(D)
    ensures t.a in D && D[t.a] == t.s && t.a > 0 && ChunkSize(Rd(m, t.a + 8)) == t.s && 0 < t.s <= 0xFFFF_FFFF_FFFF_FFFF
    ensures Rd(m, t.a + 32) == Root(t.l) && Rd(m, t.a + 40) == Root(t.r)
    ensures Root(t.l) != 0 <==> t.l.Node?
    ensures Root(t.r) != 0 <==> t.r.Node?
    ensures t.l.Node? ==> Root(t.l) == t.l.a
    ensures t.r.Node? ==> Root(t.r) == t.r.a
    ensures t.l.Node? && t.r.Node? ==> t.l.a != t.r.a
    ensures Rep(m, t.l, t.a, i) && Rep(m, t.r, t.a, i) && Holds(t.l, D) && Holds(t.r, D)
    ensures SizesOf(t) == {t.s} + SizesOf(t.l) + SizesOf(t.r)
    ensures lo <= t.s < lo + Pow2(w)
    ensures w > 0 ==> Pow2(w) == 2 * Pow2(w - 1) && Shape(t.l, lo, w - 1) && Shape(t.r, lo + Pow2(w - 1), w - 1)
    ensures w > 0 ==> forall s :: s in SizesOf(t.l) ==> lo <= s < lo + Pow2(w - 1)
    ensures w > 0 ==> forall s :: s in SizesOf(t.r) ==> lo + Pow2(w - 1) <= s < lo + Pow2(w)
    ensures w == 0 ==> t.l.Leaf? && t.r.Leaf? && Pow2(w) == 1
  {
    hide Rep, Shape, Holds, SizesOf, Root;
    SearchNode(m, t, par, i, lo, w, D);
  }

  lemma ImageWhole(m: Mem, t: Tree, par: int, i: int, lo: int, w: nat, D: map<int, int>)
    requires Rep(m, t, par, i) && Shape(t, lo, w) && Holds(t, D)
    ensures IsImage(m, t, par, i, lo, w, D)
  {
  }

  lemma ImageLeaf(m: Mem, par: int, i: int, lo: int, w: nat, D: map<int, int>)
    ensures IsImage(m, Leaf, par, i, lo, w, D)
  {
  }

  // ---- the first loop: towards nb, remembering the deepest untaken right subtree ----

  ghost predicate Above(r: Tree, bound: int) {
    forall z :: z in SizesOf(r) ==> z >= bound
  }

  lemma SearchLeft(D: map<int, int>, X: set<int>, nb: int, v: int, v': int, t: Tree, r: Tree, lo: int, w: nat)
    requires w > 0 && t.Node? && SizesOf(t) == {t.s} + SizesOf(t.l) + SizesOf(t.r)
    requires CoversAll(D, X, nb, v, t, r) && Above(r, lo + Pow2(w)) && lo <= nb < lo + Pow2(w - 1)
    requires forall s :: s in SizesOf(t.l) ==> lo <= s < lo + Pow2(w - 1)
    requires forall s :: s in SizesOf(t.r) ==> lo + Pow2(w - 1) <= s < lo + Pow2(w)
    requires lo <= t.s < lo + Pow2(w) && Pow2(w) == 2 * Pow2(w - 1)
    requires t.s >= nb ==> v' != 0 && v' in D && D[v'] <= t.s
    requires v != 0 && v in D ==> v' != 0 && v' in D && D[v'] <= D[v]
    ensures CoversAll(D, X, nb, v', t.l, if t.r.Node? then t.r else r)
    ensures Above(if t.r.Node? then t.r else r, lo + Pow2(w - 1))
  {
    var r' := if t.r.Node? then t.r else r;
    LeafSizes();
    forall s | s in X && s >= nb ensures Covered(D, nb, v', t.l, r', s) {
      assert Covered(D, nb, v, t, r, s);
      if s in SizesOf(t) {
      } else if s in SizesOf(r) {
        if t.r.Node? { assert AtMost(t.r, nb, s); }
      } else if AtMost(t, nb, s) {
        SubAtMost(t, nb, s);
      } else if AtMost(r, nb, s) && t.r.Node? {
        RootSize(r);
        assert AtMost(t.r, nb, s);
      }
    }
  }

  lemma RootSize(t: Tree)
    requires t.Node?
    ensures t.s in SizesOf(t)
  {
  }

  lemma SearchRight(D: map<int, int>, X: set<int>, nb: int, v: int, v': int, t: Tree, r: Tree, lo: int, w: nat)
    requires w > 0 && t.Node? && SizesOf(t) == {t.s} + SizesOf(t.l) + SizesOf(t.r)
    requires CoversAll(D, X, nb, v, t, r) && Above(r, lo + Pow2(w)) && lo + Pow2(w - 1) <= nb
    requires forall s :: s in SizesOf(t.l) ==> lo <= s < lo + Pow2(w - 1)
    requires Pow2(w) == 2 * Pow2(w - 1)
    requires t.s >= nb ==> v' != 0 && v' in D && D[v'] <= t.s
    requires v != 0 && v in D ==> v' != 0 && v' in D && D[v'] <= D[v]
    ensures CoversAll(D, X, nb, v', t.r, r) && Above(r, lo + Pow2(w - 1) + Pow2(w - 1))
  {
    forall s | s in X && s >= nb ensures Covered(D, nb, v', t.r, r, s) {
      assert Covered(D, nb, v, t, r, s);
      if AtMost(t, nb, s) {
        SubAtMost(t, nb, s);
      }
    }
  }

  /** Where the first loop is: at subtree t over [lo, lo + 2^w), with the deepest untaken right subtree r. */
  datatype Hunt = Hunt(t: Tree, par: int, lo: int, w: nat, r: Tree, rpar: int, rlo: int, rw: nat)

  function GoLeft(h: Hunt): Hunt
    requires h.t.Node? && h.w > 0
  {
    if h.t.r.Node? then Hunt(h.t.l, h.t.a, h.lo, h.w - 1, h.t.r, h.t.a, h.lo + Pow2(h.w - 1), h.w - 1)
    else Hunt(h.t.l, h.t.a, h.lo, h.w - 1, h.r, h.rpar, h.rlo, h.rw)
  }

  function GoRight(h: Hunt): Hunt
    requires h.t.Node? && h.w > 0
  {
    Hunt(h.t.r, h.t.a, h.lo + Pow2(h.w - 1), h.w - 1, h.r, h.rpar, h.rlo, h.rw)
  }

  ghost predicate Images(m: Mem, h: Hunt, i: int, D: map<int, int>) {
    IsImage(m, h.t, h.par, i, h.lo, h.w, D) && IsImage(m, h.r, h.rpar, i, h.rlo, h.rw, D)
  }

  ghost predicate Aims(h: Hunt, nb: int, K: int) {
    h.w <= 64 && h.lo <= nb < h.lo + Pow2(h.w) && K == (nb - h.lo) * Pow2(64 - h.w)
  }

  ghost predicate Covers(h: Hunt, X: set<int>, nb: int, v: int, D: map<int, int>) {
    CoversAll(D, X, nb, v, h.t, h.r) && Above(h.r, h.lo + Pow2(h.w))
  }

  /** Met exactly: nothing better can be left. */
  lemma ExactCovers(D: map<int, int>, X: set<int>, nb: int, v: int, t: Tree)
    requires v != 0 && v in D && D[v] == nb
    ensures CoversAll(D, X, nb, v, t, Leaf) && Enough(D, t, nb, v)
  {
  }

  lemma SwapCover(D: map<int, int>, X: set<int>, nb: int, v: int, r: Tree, bound: int)
    requires CoversAll(D, X, nb, v, Leaf, r) && Above(r, bound) && bound > nb
    ensures CoversAll(D, X, nb, v, r, Leaf) && Enough(D, r, nb, v)
  {
    LeafSizes();
    forall s | s in X && s >= nb ensures Covered(D, nb, v, r, Leaf, s) {
      assert Covered(D, nb, v, Leaf, r, s);
    }
  }

  lemma OneLeft(nb: int, s: int, lo: int, w: nat)
    requires lo <= nb < lo + Pow2(w) && lo <= s < lo + Pow2(w) && s != nb
    ensures w > 0
  {
  }

  /** Either way the loop goes, images and ranges carry over; the sign bit says which way. */
  lemma StepAims(m: Mem, h: Hunt, i: int, nb: int, K: int, D: map<int, int>)
    requires h.t.Node? && Images(m, h, i, D) && Aims(h, nb, K) && GoodSizes(D) && h.t.s != nb
    ensures h.w > 0 && K >= 0
    ensures K / 0x8000_0000_0000_0000 == (if nb < h.lo + Pow2(h.w - 1) then 0 else 1)
    ensures nb < h.lo + Pow2(h.w - 1) ==> Aims(GoLeft(h), nb, K * 2 % 0x1_0000_0000_0000_0000)
    ensures nb >= h.lo + Pow2(h.w - 1) ==> Aims(GoRight(h), nb, K * 2 % 0x1_0000_0000_0000_0000)
    ensures Images(m, GoLeft(h), i, D) && Images(m, GoRight(h), i, D)
  {
    hide *;
    var t, lo, w := h.t, h.lo, h.w;
    HuntImages(m, h, i, D);
    AimsIs(h, nb, K);
    ImageParts(m, t, h.par, i, lo, w, D);
    OneLeft(nb, t.s, lo, w);
    GoIs(h);
    TI.SignBitSplits(nb - lo, w);
    SameFactor(nb - lo - Pow2(w - 1), nb - (lo + Pow2(w - 1)), Pow2(64 - (w - 1)));
    ImageWhole(m, t.l, t.a, i, lo, w - 1, D);
    ImageWhole(m, t.r, t.a, i, lo + Pow2(w - 1), w - 1, D);
    HuntImages(m, GoLeft(h), i, D);
    HuntImages(m, GoRight(h), i, D);
    AimsIs(GoLeft(h), nb, K * 2 % 0x1_0000_0000_0000_0000);
    AimsIs(GoRight(h), nb, K * 2 % 0x1_0000_0000_0000_0000);
  }

  lemma SameFactor(d: int, e: int, p: int)
    requires d == e
    ensures d * p == e * p
  {
  }

  lemma StepCovers(m: Mem, h: Hunt, i: int, X: set<int>, nb: int, v: int, v': int, K: int, D: map<int, int>)
    requires h.t.Node? && h.w > 0 && Images(m, h, i, D) && Aims(h, nb, K) && GoodSizes(D) && Covers(h, X, nb, v, D)
    requires h.t.s >= nb ==> v' != 0 && v' in D && D[v'] <= h.t.s
    requires v != 0 && v in D ==> v' != 0 && v' in D && D[v'] <= D[v]
    ensures nb < h.lo + Pow2(h.w - 1) ==> Covers(GoLeft(h), X, nb, v', D)
    ensures nb >= h.lo + Pow2(h.w - 1) ==> Covers(GoRight(h), X, nb, v', D)
  {
    hide *;
    HuntImages(m, h, i, D);
    AimsIs(h, nb, K);
    CoversIs(h, X, nb, v, D);
    GoIs(h);
    ImageParts(m, h.t, h.par, i, h.lo, h.w, D);
    if nb < h.lo + Pow2(h.w - 1) {
      SearchLeft(D, X, nb, v, v', h.t, h.r, h.lo, h.w);
      CoversIs(GoLeft(h), X, nb, v', D);
    } else {
      SearchRight(D, X, nb, v, v', h.t, h.r, h.lo, h.w);
      CoversIs(GoRight(h), X, nb, v', D);
    }
  }

  lemma CoversIs(h: Hunt, X: set<int>, nb: int, v: int, D: map<int, int>)
    ensures Covers(h, X, nb, v, D) <==> CoversAll(D, X, nb, v, h.t, h.r) && Above(h.r, h.lo + Pow2(h.w))
  {
  }

  /** When the path ends, what remains is the untaken subtree. */
  lemma PathEnds(h: Hunt, X: set<int>, nb: int, v: int, K: int, D: map<int, int>)
    requires h.t.Leaf? && Covers(h, X, nb, v, D) && Aims(h, nb, K)
    ensures CoversAll(D, X, nb, v, h.r, Leaf) && Enough(D, h.r, nb, v)
  {
    hide CoversAll, Above, Enough;
    SwapCover(D, X, nb, v, h.r, h.lo + Pow2(h.w));
  }

  lemma HuntImages(m: Mem, h: Hunt, i: int, D: map<int, int>)
    ensures Images(m, h, i, D) <==> IsImage(m, h.t, h.par, i, h.lo, h.w, D)
                                    && IsImage(m, h.r, h.rpar, i, h.rlo, h.rw, D)
  {
  }

  lemma GoIs(h: Hunt)
    requires h.t.Node? && h.w > 0
    ensures GoLeft(h) == (
      if h.t.r.Node? then Hunt(h.t.l, h.t.a, h.lo, h.w - 1, h.t.r, h.t.a, h.lo + Pow2(h.w - 1), h.w - 1)
      else Hunt(h.t.l, h.t.a, h.lo, h.w - 1, h.r, h.rpar, h.rlo, h.rw))
    ensures GoRight(h) == Hunt(h.t.r, h.t.a, h.lo + Pow2(h.w - 1), h.w - 1, h.r, h.rpar, h.rlo, h.rw)
  {
  }

  lemma StartCovers(t: Tree, nb: int, D: map<int, int>, h: Hunt)
    requires h.t == t && h.r == Leaf
    ensures Covers(h, SizesOf(t), nb, 0, D)
  {
  }

  lemma StartCandidate(D: map<int, int>, nb: int)
    ensures Candidate(D, nb, 0, 0x1_0000_0000_0000_0000 - nb)
  {
  }

  /** The first loop of tmalloc_large, in the bin of nb. */
  method SearchBin(m: MallocState, idx: nat, nb: int, ghost tree0: Tree, ghost D: map<int, int>)
    returns (v: int, rsize: int, t: int, ghost tree: Tree, ghost par: int, ghost lo: int, ghost w: nat)
    requires idx < 32 && 256 <= nb <= 0xFFFF_FFFF_FFFF_FFFF && idx == TI.Index(nb) && GoodSizes(D)
    requires tree0.Node? && Rd(m.mem, TreeBinAt(idx)) == tree0.a
    requires IsImage(m.mem, tree0, TreeBinAt(idx), idx, TI.BinLo(idx), TI.BinWidth(idx), D)
    ensures Candidate(D, nb, v, rsize)
    ensures t == Root(tree) && IsImage(m.mem, tree, par, idx, lo, w, D) && (t == 0 <==> tree.Leaf?)
    ensures CoversAll(D, SizesOf(tree0), nb, v, tree, Leaf) && Enough(D, tree, nb, v)
    ensures SizesOf(tree) <= SizesOf(tree0) && (v != 0 ==> v in D && D[v] in SizesOf(tree0))
  {
    hide *;
    v, rsize := 0, 0x1_0000_0000_0000_0000 - nb;
    t := Rd(m.mem, TreeBinAt(idx));
    TI.InBinRange(nb);
    TI.SizeBitsStart(nb);
    var K: int := TI.SizeBits(nb, idx);
    var rst := 0;
    ghost var h := Hunt(tree0, TreeBinAt(idx), TI.BinLo(idx), TI.BinWidth(idx), Leaf, 0, 0, 0);
    ghost var X := SizesOf(tree0);
    ImageLeaf(m.mem, 0, idx, 0, 0, D);
    HuntImages(m.mem, h, idx, D);
    AimsIs(h, nb, K);
    StartCovers(tree0, nb, D, h);
    StartCandidate(D, nb);
    RootOfNode(Leaf);
    RootOfLeaf();
    LeafSizes();
    while true
      invariant h.t.Node? && t == h.t.a && rst == Root(h.r) && (rst == 0 <==> h.r.Leaf?)
      invariant Images(m.mem, h, idx, D) && Aims(h, nb, K) && Covers(h, X, nb, v, D)
      invariant Candidate(D, nb, v, rsize) && rsize > 0
      invariant SizesOf(h.t) <= X && SizesOf(h.r) <= X && (v != 0 ==> v in D && D[v] in X)
      decreases h.t
    {
      ghost var v1 := v;
      HuntImages(m.mem, h, idx, D);
      ImageParts(m.mem, h.t, h.par, idx, h.lo, h.w, D);
      CandidateSize(D, nb, v, rsize);
      LookAt(D, nb, v, rsize, h.t.a, h.t.s);
      Sub64Is(h.t.s, nb);
      var trem := Sub64(ChunkSize(Rd(m.mem, t + 8)), nb);
      if trem < rsize {
        v := t;
        rsize := trem;
        if rsize == 0 {
          CandidateSize(D, nb, v, rsize);
          ExactCovers(D, X, nb, v, h.t);
          RootOfNode(h.t);
          tree, par, lo, w := h.t, h.par, h.lo, h.w;
          break;
        }
      }
      StepAims(m.mem, h, idx, nb, K, D);
      StepCovers(m.mem, h, idx, X, nb, v1, v, K, D);
      GoIs(h);
      var rt := Rd(m.mem, t + 40);
      t := Rd(m.mem, t + 32 + 8 * (K / 0x8000_0000_0000_0000));
      if rt != 0 && rt != t {
        rst := rt;
      }
      ghost var h' := if nb < h.lo + Pow2(h.w - 1) then GoLeft(h) else GoRight(h);
      RootOfNode(h'.r);
      if t == 0 {
        LeafSizes();
        t := rst;
        HuntImages(m.mem, h', idx, D);
        PathEnds(h', X, nb, v, K * 2 % 0x1_0000_0000_0000_0000, D);
        tree, par, lo, w := h'.r, h'.rpar, h'.rlo, h'.rw;
        break;
      }
      h := h';
      K := K * 2 % 0x1_0000_0000_0000_0000;
    }
  }

  lemma AimsIs(h: Hunt, nb: int, K: int)
    ensures Aims(h, nb, K) <==> h.w <= 64 && h.lo <= nb < h.lo + Pow2(h.w) && K == (nb - h.lo) * Pow2(64 - h.w)
  {
  }

  // ---- across the bins ----

  /** What the searches know of bin i. */
  lemma BinTree(m: Mem, smallmap: U32, treemap: U32, D: map<int, int>, rings: seq<seq<int>>, trees: seq<Tree>, i: nat)
    requires BinsOK(m, smallmap, treemap, D, rings, trees) && i < 32
    ensures |trees| == 32 && Rd(m, TreeBinAt(i)) == Root(trees[i]) && (Marked(treemap, i) <==> trees[i].Node?)
    ensures IsImage(m, trees[i], TreeBinAt(i), i, TI.BinLo(i), TI.BinWidth(i), Large(D))
    ensures Root(trees[i]) == 0 <==> trees[i].Leaf?
    ensures trees[i].Node? ==> Root(trees[i]) == trees[i].a && trees[i].a in Large(D) && trees[i].a > 0
    ensures forall y :: InBin(D, y, i) ==> y in D && D[y] in SizesOf(trees[i])
    ensures forall y :: y in Large(D) && Large(D)[y] in SizesOf(trees[i]) ==> InBin(D, y, i)
    ensures GoodSizes(Large(D))
  {
    hide *;
    Lengths(m, smallmap, treemap, D, rings, trees);
    BinParts(m, smallmap, treemap, D, rings, trees, i);
    TreeBinParts(m, treemap, i, trees[i], D);
    ImageWhole(m, trees[i], TreeBinAt(i), i, TI.BinLo(i), TI.BinWidth(i), Large(D));
    LargeGood(m, D);
    RootOfNode(trees[i]);
    RootOfLeaf();
    HoldsMembers(trees[i], Large(D));
    SizesInBin(D, trees[i], i);
    if trees[i].Node? {
      ImageParts(m, trees[i], TreeBinAt(i), i, TI.BinLo(i), TI.BinWidth(i), Large(D));
    }
    forall y | InBin(D, y, i) ensures InBin(D, y, i) ==> y in D && D[y] in SizesOf(trees[i]) {
      InBinIs(D, y, i);
      BinOfChunk(m, smallmap, treemap, D, rings, trees, y, i);
      InLarge(D, y, i);
    }
  }

  lemma InBinIs(D: map<int, int>, y: int, i: int)
    ensures InBin(D, y, i) <==> y in D && 256 <= D[y] <= 0xFFFF_FFFF_FFFF_FFFF && TI.Index(D[y]) == i
  {
  }

  lemma BinParts(m: Mem, smallmap: U32, treemap: U32, D: map<int, int>, rings: seq<seq<int>>, trees: seq<Tree>, i: nat)
    requires BinsOK(m, smallmap, treemap, D, rings, trees) && i < 32
    ensures |trees| == 32 && TreeBinOK(m, treemap, i, trees[i], D) && ChunksOK(m, D)
  {
  }

  lemma LargeGood(m: Mem, D: map<int, int>)
    requires ChunksOK(m, D)
    ensures GoodSizes(Large(D))
  {
    forall x | x in Large(D) ensures 0 < x && 0 < Large(D)[x] <= 0xFFFF_FFFF_FFFF_FFFF && Large(D)[x] % 8 == 0 {
      assert ChunkOK(m, x, D[x]);
    }
  }

  /** Sizes in a tree are sizes of its members. */
  lemma {:induction false} SizeHasMember(t: Tree, D: map<int, int>, s: int) returns (x: int)
    requires Holds(t, D) && s in SizesOf(t)
    ensures x in Members(t) && x in D && D[x] == s
  {
    if s == t.s {
      x := t.a;
      assert x == Chain(t)[0];
    } else if s in SizesOf(t.l) {
      x := SizeHasMember(t.l, D, s);
    } else {
      x := SizeHasMember(t.r, D, s);
    }
  }

  lemma SizesInBin(D: map<int, int>, t: Tree, i: nat)
    requires Holds(t, Large(D)) && forall x :: x in Members(t) ==> InBin(D, x, i)
    ensures forall y :: y in Large(D) && Large(D)[y] in SizesOf(t) ==> InBin(D, y, i)
  {
    hide Holds, Members, SizesOf;
    forall y | y in Large(D) && Large(D)[y] in SizesOf(t) ensures InBin(D, y, i) {
      var x := SizeHasMember(t, Large(D), Large(D)[y]);
      assert InBin(D, x, i);
    }
  }

  /** v is a chunk of the least size that suffices, or 0 when none does. */
  ghost predicate BestFor(D: map<int, int>, nb: int, v: int, rsize: int) {
    && (v == 0 ==> rsize == 0x1_0000_0000_0000_0000 - nb)
    && (v != 0 ==> v in D && D[v] >= 256 && D[v] >= nb && rsize == D[v] - nb)
    && (forall y :: y in D && D[y] >= 256 && D[y] >= nb ==> v != 0 && v in D && D[v] <= D[y])
  }

  lemma CandidateInLarge(D: map<int, int>, nb: int, v: int, rsize: int)
    requires Candidate(Large(D), nb, v, rsize)
    ensures v == 0 ==> rsize == 0x1_0000_0000_0000_0000 - nb
    ensures v != 0 ==> v in D && D[v] >= 256 && D[v] >= nb && rsize == D[v] - nb && v in Large(D) && Large(D)[v] == D[v]
  {
  }

  /** Bins below nb's hold only sizes below nb; the first non-empty bin above holds the least of the rest. */
  lemma BestAcross(m: Mem, smallmap: U32, treemap: U32, D: map<int, int>, rings: seq<seq<int>>, trees: seq<Tree>,
                   nb: int, v: int, rsize: int, i: nat)
    requires BinsOK(m, smallmap, treemap, D, rings, trees) && 256 <= nb <= 0xFFFF_FFFF_FFFF_FFFF
      && TI.Index(nb) <= i < 32
    requires Candidate(Large(D), nb, v, rsize)
    requires forall s :: s in SizesOf(trees[i]) && s >= nb ==> v != 0 && v in Large(D) && Large(D)[v] <= s
    requires v != 0 ==> Large(D)[v] in SizesOf(trees[i])
    requires trees[i].Node? && v == 0 ==> i == TI.Index(nb)
    requires v == 0 ==> forall j: nat :: i < j < 32 ==> !Marked(treemap, j)
    requires forall j: nat :: TI.Index(nb) <= j < i ==> forall s :: s in SizesOf(trees[j]) ==> s < nb
    ensures BestFor(D, nb, v, rsize)
  {
    hide *;
    CandidateInLarge(D, nb, v, rsize);
    forall y | y in D && D[y] >= 256 && D[y] >= nb ensures v != 0 && v in D && D[v] <= D[y] {
      SizeFits(m, smallmap, treemap, D, rings, trees, y);
      TI.InBinRange(D[y]);
      TI.IndexMonotone(nb, D[y]);
      var j := TI.Index(D[y]);
      BinTree(m, smallmap, treemap, D, rings, trees, j);
      InBinIs(D, y, j);
      assert D[y] in SizesOf(trees[j]);
      SizesNonEmpty(trees[j], D[y]);
      if j > i {
        assert v != 0;
        SizeFits(m, smallmap, treemap, D, rings, trees, v);
        BinTree(m, smallmap, treemap, D, rings, trees, i);
        InBinIs(D, v, i);
        TI.LaterBinLarger(D[v], D[y]);
      }
    }
    BestForIs(D, nb, v, rsize);
  }

  lemma SizeFits(m: Mem, smallmap: U32, treemap: U32, D: map<int, int>, rings: seq<seq<int>>, trees: seq<Tree>, y: int)
    requires BinsOK(m, smallmap, treemap, D, rings, trees) && y in D
    ensures 32 <= D[y] <= 0xFFFF_FFFF_FFFF_FFFF
  {
    BinnedSize(m, smallmap, treemap, D, rings, trees, y);
  }

  lemma SizesNonEmpty(t: Tree, s: int)
    requires s in SizesOf(t)
    ensures t.Node?
  {
  }

  lemma BestForIs(D: map<int, int>, nb: int, v: int, rsize: int)
    ensures BestFor(D, nb, v, rsize) <==>
      && (v == 0 ==> rsize == 0x1_0000_0000_0000_0000 - nb)
      && (v != 0 ==> v in D && D[v] >= 256 && D[v] >= nb && rsize == D[v] - nb)
      && (forall y :: y in D && D[y] >= 256 && D[y] >= nb ==> v != 0 && v in D && D[v] <= D[y])
  {
  }

  lemma EarlierSmaller(m: Mem, smallmap: U32, treemap: U32, D: map<int, int>, rings: seq<seq<int>>, trees: seq<Tree>,
                       nb: int, i: nat)
    requires BinsOK(m, smallmap, treemap, D, rings, trees) && 256 <= nb <= 0xFFFF_FFFF_FFFF_FFFF
      && TI.Index(nb) < i < 32
    requires forall s :: s in SizesOf(trees[TI.Index(nb)]) ==> s < nb
    requires forall j: nat :: TI.Index(nb) < j < i ==> !Marked(treemap, j)
    ensures forall j: nat :: TI.Index(nb) <= j < i ==> forall s :: s in SizesOf(trees[j]) ==> s < nb
  {
    hide *;
    BinTree(m, smallmap, treemap, D, rings, trees, 0);
    forall j: nat | TI.Index(nb) <= j < i ensures forall s :: s in SizesOf(trees[j]) ==> s < nb {
      BinTree(m, smallmap, treemap, D, rings, trees, j);
      if j != TI.Index(nb) {
        assert !Marked(treemap, j);
        LeafSizes();
      }
    }
  }

  /** Sizes in a later bin all suffice. */
  lemma LaterEnough(m: Mem, smallmap: U32, treemap: U32, D: map<int, int>, rings: seq<seq<int>>, trees: seq<Tree>,
                    nb: int, i: nat)
    requires BinsOK(m, smallmap, treemap, D, rings, trees) && 256 <= nb <= 0xFFFF_FFFF_FFFF_FFFF
      && TI.Index(nb) < i < 32
    ensures |trees| == 32 && forall s :: s in SizesOf(trees[i]) ==> s >= nb
  {
    hide *;
    BinTree(m, smallmap, treemap, D, rings, trees, i);
    forall s | s in SizesOf(trees[i]) ensures s >= nb {
      ImageHolds(m, trees[i], TreeBinAt(i), i, TI.BinLo(i), TI.BinWidth(i), Large(D));
      var x := SizeHasMember(trees[i], Large(D), s);
      InBinIs(D, x, i);
      LargeIs(D, x);
      TI.LaterBinLarger(nb, D[x]);
    }
  }

  lemma LargeIs(D: map<int, int>, x: int)
    ensures x in Large(D) ==> x in D && Large(D)[x] == D[x] >= 256
  {
  }

  lemma ImageHolds(m: Mem, t: Tree, par: int, i: int, lo: int, w: nat, D: map<int, int>)
    requires IsImage(m, t, par, i, lo, w, D)
    ensures Holds(t, D) && Rep(m, t, par, i) && Shape(t, lo, w)
  {
  }

  lemma StartWalk(D: map<int, int>, t: Tree, nb: int, v: int)
    requires forall s :: s in SizesOf(t) ==> s >= nb
    ensures CoversAll(D, SizesOf(t), nb, v, t, Leaf) && Enough(D, t, nb, v)
  {
  }

  lemma NoneFound(D: map<int, int>, X: set<int>, nb: int)
    requires CoversAll(D, X, nb, 0, Leaf, Leaf)
    ensures forall s :: s in X ==> s < nb
  {
    LeafSizes();
    forall s | s in X ensures s < nb {
      if s >= nb { CoversOne(D, X, nb, 0, s); }
    }
  }

  lemma CandidateOf(D: map<int, int>, nb: int, v: int, rsize: int)
    ensures Candidate(D, nb, v, rsize) <==>
      if v == 0 then rsize == 0x1_0000_0000_0000_0000 - nb else v in D && D[v] >= nb && rsize == D[v] - nb
  {
  }

  /** tmalloc_large's choice: a best fit over all the treebins, or none when no large chunk suffices. */
  method PickLarge(m: MallocState, nb: int) returns (v: int, rsize: int)
    requires m.BinsValid() && 256 <= nb <= 0xFFFF_FFFF_FFFF_FFFF
    ensures BestFor(m.D, nb, v, rsize)
  {
    hide *;
    BinsValidIs(m);
    v, rsize := 0, 0x1_0000_0000_0000_0000 - nb;
    var idx := TI.Index(nb);
    TI.InBinRange(nb);
    ghost var DL := Large(m.D);
    BinTree(m.mem, m.smallmap, m.treemap, m.D, m.rings, m.trees, idx);
    CandidateOf(DL, nb, 0, rsize);
    ghost var bin := idx;
    ghost var tree, par, lo, w := m.trees[idx], TreeBinAt(idx), TI.BinLo(idx), TI.BinWidth(idx);
    var t := Rd(m.mem, TreeBinAt(idx));
    if t != 0 {
      v, rsize, t, tree, par, lo, w := SearchBin(m, idx, nb, m.trees[idx], DL);
    } else {
      LeafSizes();
      StartWalk(DL, tree, nb, 0);
    }
    if t == 0 && v == 0 {
      NoneFound(DL, SizesOf(m.trees[idx]), nb);
      BitsAboveSpec(m.treemap, idx);
      if BitsAbove(m.treemap, idx) != 0 {
        NextMarkedIsScan(m.treemap, idx);
        var i := NextMarked(m.treemap, idx);
        t := Rd(m.mem, TreeBinAt(i));
        bin := i;
        BinTree(m.mem, m.smallmap, m.treemap, m.D, m.rings, m.trees, i);
        LaterEnough(m.mem, m.smallmap, m.treemap, m.D, m.rings, m.trees, nb, i);
        EarlierSmaller(m.mem, m.smallmap, m.treemap, m.D, m.rings, m.trees, nb, i);
        tree, par, lo, w := m.trees[i], TreeBinAt(i), TI.BinLo(i), TI.BinWidth(i);
        StartWalk(DL, tree, nb, 0);
        RootHasSize(tree);
      }
    }
    ghost var X := SizesOf(m.trees[bin]);
    if t != 0 && v == 0 { RootEnough(DL, tree, nb); }
    v, rsize := SmallestFrom(m, t, v, rsize, nb, tree, par, bin, lo, w, DL, X);
    CandidateOf(DL, nb, v, rsize);
    BestAcross(m.mem, m.smallmap, m.treemap, m.D, m.rings, m.trees, nb, v, rsize, bin);
  }

  lemma RootEnough(D: map<int, int>, t: Tree, nb: int)
    requires t.Node? && Enough(D, t, nb, 0)
    ensures t.s in SizesOf(t) && t.s >= nb
  {
  }

  lemma RootHasSize(t: Tree)
    requires t.Node?
    ensures t.s in SizesOf(t)
  {
  }

  /** tmalloc_small's choice: the smallest chunk in the first non-empty treebin, hence the smallest of all. */
  method PickSmallest(m: MallocState, nb: int) returns (v: int, rsize: int)
    requires m.BinsValid() && m.treemap != 0 && 0 < nb < 256
    ensures v in m.D && m.D[v] >= 256 && rsize == m.D[v] - nb
    ensures forall y :: y in m.D && m.D[y] >= 256 ==> m.D[v] <= m.D[y]
  {
    hide *;
    BinsValidIs(m);
    FirstMarkedIsScan(m.treemap);
    var i := LowestBit(LeastBit(m.treemap));
    BinTree(m.mem, m.smallmap, m.treemap, m.D, m.rings, m.trees, i);
    ghost var DL, t0 := Large(m.D), m.trees[i];
    ghost var X := SizesOf(t0);
    ImageParts(m.mem, t0, TreeBinAt(i), i, TI.BinLo(i), TI.BinWidth(i), DL);
    var t := Rd(m.mem, TreeBinAt(i));
    v := t;
    rsize := ChunkSize(Rd(m.mem, t + 8)) - nb;
    LargeSizesEnough(m.mem, t0, TreeBinAt(i), i, TI.BinLo(i), TI.BinWidth(i), m.D, nb);
    StartWalk(DL, t0, nb, 0);
    CandidateOf(DL, nb, v, rsize);
    LeftmostStep(DL, t0, 0, v, nb, X, TI.BinLo(i), TI.BinWidth(i));
    t := if Rd(m.mem, t + 32) != 0 then Rd(m.mem, t + 32) else Rd(m.mem, t + 40);
    ghost var tree, lo, w := ChildImage(m.mem, t0, TreeBinAt(i), i, TI.BinLo(i), TI.BinWidth(i), DL);
    v, rsize := SmallestFrom(m, t, v, rsize, nb, tree, t0.a, i, lo, w, DL, X);
    CandidateOf(DL, nb, v, rsize);
    LargeIs(m.D, v);
    forall y | y in m.D && m.D[y] >= 256 ensures m.D[v] <= m.D[y] {
      SmallestAcross(m.mem, m.smallmap, m.treemap, m.D, m.rings, m.trees, nb, v, i, y);
    }
  }

  lemma ChildImage(m: Mem, t: Tree, par: int, i: int, lo: int, w: nat, D: map<int, int>)
      returns (u: Tree, lo': int, w': nat)
    requires t.Node? && IsImage(m, t, par, i, lo, w, D) && GoodSizes(D)
    ensures u == (if t.l.Node? then t.l else t.r) && IsImage(m, u, t.a, i, lo', w', D)
    ensures SizesOf(u) <= SizesOf(t)
  {
    hide *;
    ImageParts(m, t, par, i, lo, w, D);
    if t.l.Node? {
      u, lo', w' := t.l, lo, w - 1;
      ImageWhole(m, u, t.a, i, lo', w', D);
    } else if w > 0 {
      u, lo', w' := t.r, lo + Pow2(w - 1), w - 1;
      ImageWhole(m, u, t.a, i, lo', w', D);
    } else {
      u, lo', w' := t.r, lo, 0;
      ImageLeaf(m, t.a, i, lo', w', D);
    }
  }

  lemma LargeSizesEnough(m: Mem, t: Tree, par: int, i: int, lo: int, w: nat, D: map<int, int>, nb: int)
    requires IsImage(m, t, par, i, lo, w, Large(D)) && nb < 256
    ensures forall s :: s in SizesOf(t) ==> s >= nb
  {
    hide SizesOf, Rep, Shape, Holds;
    forall s | s in SizesOf(t) ensures s >= nb {
      var x := SizeHasMember(t, Large(D), s);
    }
  }

  lemma SmallestAcross(m: Mem, smallmap: U32, treemap: U32, D: map<int, int>, rings: seq<seq<int>>, trees: seq<Tree>,
                       nb: int, v: int, i: nat, y: int)
    requires BinsOK(m, smallmap, treemap, D, rings, trees) && i < 32 && 0 < nb < 256 && |trees| == 32
    requires forall j: nat :: j < i ==> !Marked(treemap, j)
    requires v in Large(D) && v in D && Large(D)[v] == D[v] && Large(D)[v] in SizesOf(trees[i])
    requires forall s :: s in SizesOf(trees[i]) && s >= nb ==> Large(D)[v] <= s
    requires y in D && D[y] >= 256
    ensures D[v] <= D[y]
  {
    hide *;
    SizeFits(m, smallmap, treemap, D, rings, trees, y);
    SizeFits(m, smallmap, treemap, D, rings, trees, v);
    TI.InBinRange(D[y]);
    var j := TI.Index(D[y]);
    BinTree(m, smallmap, treemap, D, rings, trees, j);
    InBinIs(D, y, j);
    SizesNonEmpty(trees[j], D[y]);
    BinTree(m, smallmap, treemap, D, rings, trees, i);
    InBinIs(D, v, i);
    if j > i { TI.LaterBinLarger(D[v], D[y]); }
  }
}
