/**
 * The treebins in memory: each node's chain is a ring, the child and parent words mirror the tree, chained
 * chunks carry no parent and no children. The writes of insert_large_chunk and unlink_large_chunk carry the
 * memory image of a tree to the image of the tree with the chunk inserted or removed.
 */
module TrieLinks {
  import opened Words
  import opened Memory
  import opened Rings
  import opened Tries

  predicate Unhooked(m: Mem, x: int) {
    Rd(m, x + 32) == 0 && Rd(m, x + 40) == 0 && Rd(m, x + 48) == 0
  }

  predicate Tagged(m: Mem, x: int, s: int, idx: int) {
    x >= HEAP_FLOOR && Rd(m, x + 8) == s + 1 && Rd(m, x + 56) == idx
  }

  ghost predicate ChainOK(m: Mem, c: seq<int>, s: int, idx: int) {
    && Ring(m, c)
    && (forall k :: 0 <= k < |c| ==> Tagged(m, c[k], s, idx))
    && (forall k :: 1 <= k < |c| ==> Unhooked(m, c[k]))
  }

  ghost predicate NodeOK(m: Mem, t: Tree, par: int, idx: int)
    requires t.Node?
  {
    && ChainOK(m, Chain(t), t.s, idx)
    && Rd(m, t.a + 32) == Root(t.l)
    && Rd(m, t.a + 40) == Root(t.r)
    && Rd(m, t.a + 48) == par
  }

  /** Memory m holds the tree t of bin idx, its root's parent word being par. */
  ghost predicate Rep(m: Mem, t: Tree, par: int, idx: int) {
    t.Node? ==> NodeOK(m, t, par, idx) && Rep(m, t.l, t.a, idx) && Rep(m, t.r, t.a, idx)
  }

  // ---- frames ----

  /** Distinct chunks keep their eight bookkeeping words apart. */
  ghost predicate Apart(D: map<int, int>) {
    forall x, y :: x in D && y in D && x < y ==> x + 64 <= y
  }

  predicate SameNode(m: Mem, m': Mem, x: int) {
    && Rd(m', x + 8) == Rd(m, x + 8)
    && Rd(m', x + 16) == Rd(m, x + 16)
    && Rd(m', x + 24) == Rd(m, x + 24)
    && Rd(m', x + 32) == Rd(m, x + 32)
    && Rd(m', x + 40) == Rd(m, x + 40)
    && Rd(m', x + 48) == Rd(m, x + 48)
    && Rd(m', x + 56) == Rd(m, x + 56)
  }

  ghost predicate InNodes(X: set<int>, w: int) {
    exists y :: y in X && y + 16 <= w < y + 64
  }

  /** Only link words of X, and the word c, may differ. */
  ghost predicate Untouched(m: Mem, m': Mem, X: set<int>, c: int) {
    forall w :: w != c && !InNodes(X, w) ==> Rd(m', w) == Rd(m, w)
  }

  predicate Off(c: int, y: int) {
    c < y + 8 || c >= y + 64
  }

  ghost predicate Clear(c: int, X: set<int>) {
    forall y :: y in X ==> Off(c, y)
  }

  lemma NotInNodes(X: set<int>, z: int, D: map<int, int>, w: int)
    requires Apart(D) && X <= D.Keys && z in D && z !in X
    requires z + 8 <= w < z + 64
    ensures !InNodes(X, w)
  {
  }

  lemma SameOutside(m: Mem, m': Mem, X: set<int>, c: int, z: int, D: map<int, int>)
    requires Untouched(m, m', X, c)
    requires Apart(D) && X <= D.Keys && z in D && z !in X && Off(c, z)
    ensures SameNode(m, m', z)
  {
    NotInNodes(X, z, D, z + 8);
    NotInNodes(X, z, D, z + 16);
    NotInNodes(X, z, D, z + 24);
    NotInNodes(X, z, D, z + 32);
    NotInNodes(X, z, D, z + 40);
    NotInNodes(X, z, D, z + 48);
    NotInNodes(X, z, D, z + 56);
  }

  lemma ChainFrame(m: Mem, m': Mem, c: seq<int>, s: int, idx: int)
    requires ChainOK(m, c, s, idx)
    requires forall k :: 0 <= k < |c| ==> SameNode(m, m', c[k])
    ensures ChainOK(m', c, s, idx)
  {
    RingFrame(m, m', c);
  }

  lemma {:induction false} RepFrame(m: Mem, m': Mem, t: Tree, par: int, idx: int)
    requires Rep(m, t, par, idx)
    requires forall x :: x in Members(t) ==> SameNode(m, m', x)
    ensures Rep(m', t, par, idx)
  {
    if t.Node? {
      forall k | 0 <= k < |Chain(t)| ensures SameNode(m, m', Chain(t)[k]) {
        assert Chain(t)[k] in Members(t);
      }
      assert t.a == Chain(t)[0];
      ChainFrame(m, m', Chain(t), t.s, idx);
      RepFrame(m, m', t.l, t.a, idx);
      RepFrame(m, m', t.r, t.a, idx);
    }
  }

  /** A tree none of whose chunks is in X survives writes to the link words of X. */
  lemma RepOutside(m: Mem, m': Mem, X: set<int>, c: int, t: Tree, par: int, idx: int, D: map<int, int>)
    requires Rep(m, t, par, idx) && Holds(t, D)
    requires Untouched(m, m', X, c) && Apart(D) && X <= D.Keys
    requires Members(t) !! X && Clear(c, Members(t))
    ensures Rep(m', t, par, idx)
  {
    hide *;
    HoldsMembers(t, D);
    forall x | x in Members(t) ensures SameNode(m, m', x) {
      ClearAt(c, Members(t), x);
      SameOutside(m, m', X, c, x, D);
    }
    RepFrame(m, m', t, par, idx);
  }

  lemma ClearAt(c: int, X: set<int>, x: int)
    requires Clear(c, X) && x in X
    ensures Off(c, x)
  {
  }

  lemma UntouchedGrows(m: Mem, m': Mem, X: set<int>, c: int, Y: set<int>, d: int)
    requires Untouched(m, m', X, c) && X <= Y
    requires c == d || InNodes(Y, c)
    ensures Untouched(m, m', Y, d)
  {
    forall w | w != d && !InNodes(Y, w) ensures Rd(m', w) == Rd(m, w) {
      assert !InNodes(X, w);
    }
  }

  /** A word of one node is clear of every other. */
  lemma NodeWordClear(a: int, w: int, X: set<int>, D: map<int, int>)
    requires Apart(D) && a in D && X <= D.Keys && a !in X
    requires a + 8 <= w < a + 64
    ensures Clear(w, X)
  {
  }

  lemma NodeWordClearAll(D: map<int, int>, a: int, w: int)
    requires Apart(D) && a in D && a + 8 <= w < a + 64
    ensures forall y :: y in D && y != a ==> Off(w, y)
  {
  }

  // ---- unfolding ----

  lemma RepParts(m: Mem, t: Tree, par: int, idx: int)
    requires t.Node? && Rep(m, t, par, idx)
    ensures NodeOK(m, t, par, idx) && Rep(m, t.l, t.a, idx) && Rep(m, t.r, t.a, idx)
    ensures Rd(m, t.a + 8) == t.s + 1 && t.a >= HEAP_FLOOR > 0 && t.a % 16 == 0
    ensures Rd(m, t.a + 32) == Root(t.l) && Rd(m, t.a + 40) == Root(t.r) && Rd(m, t.a + 48) == par
  {
    assert t.a == Chain(t)[0];
    assert Tagged(m, Chain(t)[0], t.s, idx);
  }

  lemma RepWhole(m: Mem, t: Tree, par: int, idx: int)
    requires t.Node? ==> NodeOK(m, t, par, idx) && Rep(m, t.l, t.a, idx) && Rep(m, t.r, t.a, idx)
    ensures Rep(m, t, par, idx)
  {
  }

  /** The facts about a node that every descent uses. */
  lemma NodeFacts(t: Tree, lo: int, w: nat, D: map<int, int>)
    requires t.Node? && Shape(t, lo, w) && Holds(t, D)
    ensures Holds(t.l, D) && Holds(t.r, D)
    ensures Members(t) == Elems(Chain(t)) + Members(t.l) + Members(t.r)
    ensures Elems(Chain(t)) !! Members(t.l) && Elems(Chain(t)) !! Members(t.r) && Members(t.l) !! Members(t.r)
    ensures t.a in Elems(Chain(t)) && t.a in D && D[t.a] == t.s
    ensures Elems(Chain(t)) <= D.Keys && Members(t.l) <= D.Keys && Members(t.r) <= D.Keys && Members(t) <= D.Keys
    ensures lo <= t.s < lo + Pow2(w)
    ensures w > 0 ==> Pow2(w) == 2 * Pow2(w - 1) && Shape(t.l, lo, w - 1) && Shape(t.r, lo + Pow2(w - 1), w - 1)
    ensures w == 0 ==> t.l.Leaf? && t.r.Leaf? && Pow2(w) == 1
  {
    NotBelow(t, lo, w, D);
    assert t.a == Chain(t)[0];
    HoldsMembers(t.l, D);
    HoldsMembers(t.r, D);
    forall x | x in Elems(Chain(t)) ensures x in D.Keys && x !in Members(t.l) && x !in Members(t.r) {
      assert x in Chain(t);
    }
    forall x | x in Members(t.l) ensures x in D.Keys { }
    forall x | x in Members(t.r) ensures x in D.Keys { }
  }

  // ---- insert_large_chunk ----

  /** The chunk's words before it is linked: its index set and its children cleared. */
  predicate Prepared(m: Mem, x: int, s: int, idx: int) {
    Tagged(m, x, s, idx) && Rd(m, x + 32) == 0 && Rd(m, x + 40) == 0 && x % 16 == 0
  }

  /** The writes that link x where the descent stopped. */
  function Place(m: Mem, x: int, at: Slot): Mem {
    match at
    case At(c, par) => m[c := x][x + 48 := par][x + 16 := x][x + 24 := x]
    case Behind(a) => LinkAfter(m, a, Rd(m, a + 16), x)[x + 48 := 0]
  }

  lemma PlaceAtLeaf(m: Mem, x: int, S: int, idx: int, c: int, par: int)
    requires Prepared(m, x, S, idx) && Off(c, x)
    ensures Rep(Place(m, x, At(c, par)), Node(x, S, [], Leaf, Leaf), par, idx)
    ensures Rd(Place(m, x, At(c, par)), c) == x
    ensures Untouched(m, Place(m, x, At(c, par)), {x}, c)
  {
    var m' := Place(m, x, At(c, par));
    SingleRing(m[c := x][x + 48 := par], x);
    var t := Node(x, S, [], Leaf, Leaf);
    assert Chain(t) == [x];
    assert ChainOK(m', [x], S, idx);
    assert x in {x};
    assert forall w :: x + 16 <= w < x + 64 ==> InNodes({x}, w);
  }

  lemma PlaceInChain(m: Mem, t: Tree, x: int, par: int, idx: int, D: map<int, int>)
    requires t.Node? && NodeOK(m, t, par, idx) && Apart(D)
    requires Elems(Chain(t)) <= D.Keys && x in D && x !in Chain(t)
    requires Prepared(m, x, t.s, idx)
    ensures NodeOK(Place(m, x, Behind(t.a)), t.(ring := [x] + t.ring), par, idx)
    ensures Untouched(m, Place(m, x, Behind(t.a)), Elems(Chain(t)) + {x}, t.a + 16)
  {
    hide *;
    var c, f := Chain(t), Rd(m, t.a + 16);
    ChainParts(m, t, par, idx);
    AllIn(c, D);
    PreparedAligned(m, x, t.s, idx);
    InsertAfterHead(m, c, x);
    Followed(m, c);
    ChainAfter(t, x);
    PlaceBehindIs(m, t.a, f, x);
    RingPlaced(m, c, x, f, D);
    ChainTags(m, Place(m, x, Behind(t.a)), c, x, f, t.s, idx, D);
    ChainWhole(m, Place(m, x, Behind(t.a)), t, x, par, idx);
    TouchedByLink(m, t.a, f, x, c);
  }

  lemma PreparedAligned(m: Mem, x: int, s: int, idx: int)
    requires Prepared(m, x, s, idx)
    ensures x % 16 == 0
  {
  }

  lemma ChainParts(m: Mem, t: Tree, par: int, idx: int)
    requires t.Node? && NodeOK(m, t, par, idx)
    ensures |Chain(t)| > 0 && Chain(t)[0] == t.a && Ring(m, Chain(t))
    ensures forall k :: 0 <= k < |Chain(t)| ==> Tagged(m, Chain(t)[k], t.s, idx)
    ensures forall k :: 1 <= k < |Chain(t)| ==> Unhooked(m, Chain(t)[k])
    ensures Rd(m, t.a + 32) == Root(t.l) && Rd(m, t.a + 40) == Root(t.r) && Rd(m, t.a + 48) == par
  {
  }

  lemma AllIn(c: seq<int>, D: map<int, int>)
    requires Elems(c) <= D.Keys
    ensures forall k :: 0 <= k < |c| ==> c[k] in D
  {
    forall k | 0 <= k < |c| ensures c[k] in D { assert c[k] in Elems(c); }
  }

  lemma Followed(m: Mem, c: seq<int>)
    requires Ring(m, c)
    ensures Rd(m, c[0] + 16) in c
  {
    assert Linked(m, c[0], c[Nxt(|c|, 0)]);
  }

  lemma ChainAfter(t: Tree, x: int)
    requires t.Node?
    ensures Chain(t.(ring := [x] + t.ring)) == [t.a, x] + Chain(t)[1..] && Chain(t)[0] == t.a
  {
    assert Chain(t)[1..] == t.ring;
  }

  lemma PlaceBehindIs(m: Mem, a: int, f: int, x: int)
    requires f == Rd(m, a + 16)
    ensures Place(m, x, Behind(a)) == LinkAfter(m, a, f, x)[x + 48 := 0]
  {
  }

  /** The parent word of x is no link word of the ring. */
  lemma RingPlaced(m: Mem, c: seq<int>, x: int, f: int, D: map<int, int>)
    requires |c| > 0 && Apart(D) && x in D && x !in c && f == Rd(m, c[0] + 16)
      && (forall k :: 0 <= k < |c| ==> c[k] in D)
    requires Ring(LinkAfter(m, c[0], f, x), [c[0], x] + c[1..])
    ensures Ring(LinkAfter(m, c[0], f, x)[x + 48 := 0], [c[0], x] + c[1..])
  {
    hide Ring;
    var d := [c[0], x] + c[1..];
    forall k | 0 <= k < |d| ensures x + 48 != d[k] + 16 && x + 48 != d[k] + 24 {
      if k >= 2 { assert d[k] == c[k - 1]; }
      assert d[k] in D;
    }
    RingAfterWord(LinkAfter(m, c[0], f, x), d, x + 48, 0);
  }

  lemma ChainWhole(m: Mem, m': Mem, t: Tree, x: int, par: int, idx: int)
    requires t.Node? && NodeOK(m, t, par, idx)
    requires Ring(m', [t.a, x] + Chain(t)[1..]) && Tagged(m', x, t.s, idx) && Unhooked(m', x)
    requires forall k :: 0 <= k < |Chain(t)| ==> Tagged(m', Chain(t)[k], t.s, idx)
    requires forall k :: 1 <= k < |Chain(t)| ==> Unhooked(m', Chain(t)[k])
    requires Rd(m', t.a + 32) == Rd(m, t.a + 32) && Rd(m', t.a + 40) == Rd(m, t.a + 40)
    requires Rd(m', t.a + 48) == Rd(m, t.a + 48)
    ensures NodeOK(m', t.(ring := [x] + t.ring), par, idx)
  {
    hide Ring, Tagged, Unhooked;
    var c, d := Chain(t), [t.a, x] + Chain(t)[1..];
    ChainAfter(t, x);
    assert forall k :: 2 <= k < |d| ==> d[k] == c[k - 1];
  }

  lemma TouchedByLink(m: Mem, a: int, f: int, x: int, c: seq<int>)
    requires a in c && f in c
    ensures Untouched(m, LinkAfter(m, a, f, x)[x + 48 := 0], Elems(c) + {x}, a + 16)
  {
    assert a in Elems(c) + {x} && f in Elems(c) + {x} && x in Elems(c) + {x};
  }

  /** A ring is unaffected by a write to a word that is neither an fd nor a bk of it. */
  lemma RingAfterWord(m: Mem, c: seq<int>, w: int, v: int)
    requires Ring(m, c)
    requires forall k :: 0 <= k < |c| ==> w != c[k] + 16 && w != c[k] + 24
    ensures Ring(m[w := v], c)
  {
    RingFrame(m, m[w := v], c);
  }

  lemma ChainTags(m: Mem, m': Mem, c: seq<int>, x: int, f: int, s: int, idx: int, D: map<int, int>)
    requires Apart(D) && x in D && x !in c && |c| > 0 && f in c && (forall k :: 0 <= k < |c| ==> c[k] in D)
    requires m' == LinkAfter(m, c[0], f, x)[x + 48 := 0]
    requires Prepared(m, x, s, idx)
    requires forall k :: 0 <= k < |c| ==> Tagged(m, c[k], s, idx)
    requires forall k :: 1 <= k < |c| ==> Unhooked(m, c[k])
    ensures Tagged(m', x, s, idx) && Unhooked(m', x)
    ensures forall k :: 0 <= k < |c| ==> Tagged(m', c[k], s, idx)
    ensures forall k :: 1 <= k < |c| ==> Unhooked(m', c[k])
    ensures Rd(m', c[0] + 32) == Rd(m, c[0] + 32) && Rd(m', c[0] + 40) == Rd(m, c[0] + 40)
    ensures Rd(m', c[0] + 48) == Rd(m, c[0] + 48)
  {
    hide *;
    InPlaced(m, c, x, f, D);
    LinkedWords(m, c[0], f, x, x);
    PreparedIs(m, m', x, s, idx);
    forall k | 0 <= k < |c| ensures Tagged(m', c[k], s, idx) && (k >= 1 ==> Unhooked(m', c[k])) {
      LinkedWords(m, c[0], f, x, c[k]);
      OneTag(m, m', c[k], s, idx);
    }
    LinkedWords(m, c[0], f, x, c[0]);
  }

  /** Any two chunks of the ring with x are apart. */
  lemma InPlaced(m: Mem, c: seq<int>, x: int, f: int, D: map<int, int>)
    requires Apart(D) && x in D && x !in c && f in c && (forall k :: 0 <= k < |c| ==> c[k] in D)
    ensures forall k :: 0 <= k < |c| ==> ApartFrom(c[k], f) && ApartFrom(c[k], x) && ApartFrom(c[k], c[0])
    ensures ApartFrom(x, f) && ApartFrom(x, c[0])
  {
    assert f in D;
  }

  predicate ApartFrom(a: int, b: int) {
    a == b || a + 64 <= b || b + 64 <= a
  }

  /** Linking x in leaves the other words of every chunk alone. */
  lemma LinkedWords(m: Mem, a: int, f: int, x: int, y: int)
    requires ApartFrom(y, a) && ApartFrom(y, f) && ApartFrom(y, x)
    ensures var m' := LinkAfter(m, a, f, x)[x + 48 := 0];
            Rd(m', y + 8) == Rd(m, y + 8) && Rd(m', y + 32) == Rd(m, y + 32) && Rd(m', y + 40) == Rd(m, y + 40)
            && Rd(m', y + 56) == Rd(m, y + 56) && (if y == x
                                                   then Rd(m', y + 48) == 0 else Rd(m', y + 48) == Rd(m, y + 48))
  {
  }

  lemma PreparedIs(m: Mem, m': Mem, x: int, s: int, idx: int)
    requires Prepared(m, x, s, idx) && Rd(m', x + 48) == 0
    requires Rd(m', x + 8) == Rd(m, x + 8) && Rd(m', x + 32) == Rd(m, x + 32) && Rd(m', x + 40) == Rd(m, x + 40)
      && Rd(m', x + 56) == Rd(m, x + 56)
    ensures Tagged(m', x, s, idx) && Unhooked(m', x)
  {
  }

  lemma OneTag(m: Mem, m': Mem, y: int, s: int, idx: int)
    requires Rd(m', y + 8) == Rd(m, y + 8) && Rd(m', y + 32) == Rd(m, y + 32) && Rd(m', y + 40) == Rd(m, y + 40)
      && Rd(m', y + 48) == Rd(m, y + 48) && Rd(m', y + 56) == Rd(m, y + 56)
    ensures Tagged(m, y, s, idx) ==> Tagged(m', y, s, idx)
    ensures Unhooked(m, y) ==> Unhooked(m', y)
  {
  }

  /** Linking x where the descent stopped turns the image of t into the image of t with x inserted. */
  lemma {:induction false} PlaceSpec(m: Mem, t: Tree, x: int, S: int, idx: int, lo: int, w: nat, c: int, par: int,
                                     D: map<int, int>)
    requires Rep(m, t, par, idx) && Shape(t, lo, w) && Holds(t, D) && Apart(D)
    requires x in D && x !in Members(t) && Prepared(m, x, S, idx) && lo <= S < lo + Pow2(w)
    requires Clear(c, Members(t) + {x}) && Rd(m, c) == Root(t)
    ensures Rep(Place(m, x, FindSlot(t, S, lo, w, c, par)), Insert(t, x, S, lo, w), par, idx)
    ensures Rd(Place(m, x, FindSlot(t, S, lo, w, c, par)), c) == Root(Insert(t, x, S, lo, w))
    ensures Untouched(m, Place(m, x, FindSlot(t, S, lo, w, c, par)), Members(t) + {x}, c)
    decreases t
  {
    hide *;
    if t.Leaf? {
      LeafDescent(t, x, S, lo, w, c, par);
      PlaceAtLeaf(m, x, S, idx, c, par);
    } else {
      NodeFacts(t, lo, w, D);
      RepParts(m, t, par, idx);
      if t.s == S {
        PlaceHere(m, t, x, idx, lo, w, c, par, D);
      } else if S < lo + Pow2(w - 1) {
        DescendLeft(t, x, S, lo, w, c, par);
        NodeWordClear(t.a, t.a + 32, Members(t.l) + {x}, D);
        PlaceSpec(m, t.l, x, S, idx, lo, w - 1, t.a + 32, t.a, D);
        var m' := Place(m, x, FindSlot(t, S, lo, w, c, par));
        ChildChanged(m, m', t, t.(l := Insert(t.l, x, S, lo, w - 1)), par, idx, Members(t.l) + {x}, t.a + 32, D);
        NodeWordClear(t.a, t.a + 32, Members(t.r), D);
        RepOutside(m, m', Members(t.l) + {x}, t.a + 32, t.r, t.a, idx, D);
        RepWhole(m', t.(l := Insert(t.l, x, S, lo, w - 1)), par, idx);
        WordOfNode(t, t.a + 32, x);
        UntouchedGrows(m, m', Members(t.l) + {x}, t.a + 32, Members(t) + {x}, c);
        SlotUntouched(m, m', Members(t.l) + {x}, t.a + 32, Members(t) + {x}, c, t.a);
      } else {
        DescendRight(t, x, S, lo, w, c, par);
        NodeWordClear(t.a, t.a + 40, Members(t.r) + {x}, D);
        PlaceSpec(m, t.r, x, S, idx, lo + Pow2(w - 1), w - 1, t.a + 40, t.a, D);
        var m' := Place(m, x, FindSlot(t, S, lo, w, c, par));
        ChildChanged(m, m', t, t.(r := Insert(t.r, x, S, lo + Pow2(w - 1), w - 1)), par, idx, Members(t.r) + {x},
                     t.a + 40, D);
        NodeWordClear(t.a, t.a + 40, Members(t.l), D);
        RepOutside(m, m', Members(t.r) + {x}, t.a + 40, t.l, t.a, idx, D);
        RepWhole(m', t.(r := Insert(t.r, x, S, lo + Pow2(w - 1), w - 1)), par, idx);
        WordOfNode(t, t.a + 40, x);
        UntouchedGrows(m, m', Members(t.r) + {x}, t.a + 40, Members(t) + {x}, c);
        SlotUntouched(m, m', Members(t.r) + {x}, t.a + 40, Members(t) + {x}, c, t.a);
      }
    }
  }

  lemma LeafDescent(t: Tree, x: int, S: int, lo: int, w: nat, c: int, par: int)
    requires t.Leaf?
    ensures FindSlot(t, S, lo, w, c, par) == At(c, par)
    ensures Insert(t, x, S, lo, w) == Node(x, S, [], Leaf, Leaf)
    ensures Root(Insert(t, x, S, lo, w)) == x
    ensures Members(t) + {x} == {x} && x in {x}
    ensures Clear(c, Members(t) + {x}) ==> Off(c, x)
  {
    if Clear(c, Members(t) + {x}) { assert x in Members(t) + {x}; }
  }

  lemma DescendLeft(t: Tree, x: int, S: int, lo: int, w: nat, c: int, par: int)
    requires t.Node? && t.s != S && w > 0 && S < lo + Pow2(w - 1)
    ensures FindSlot(t, S, lo, w, c, par) == FindSlot(t.l, S, lo, w - 1, t.a + 32, t.a)
    ensures Insert(t, x, S, lo, w) == t.(l := Insert(t.l, x, S, lo, w - 1))
    ensures Root(Insert(t, x, S, lo, w)) == t.a == Root(t)
  {
  }

  lemma DescendRight(t: Tree, x: int, S: int, lo: int, w: nat, c: int, par: int)
    requires t.Node? && t.s != S && w > 0 && S >= lo + Pow2(w - 1)
    ensures FindSlot(t, S, lo, w, c, par) == FindSlot(t.r, S, lo + Pow2(w - 1), w - 1, t.a + 40, t.a)
    ensures Insert(t, x, S, lo, w) == t.(r := Insert(t.r, x, S, lo + Pow2(w - 1), w - 1))
    ensures Root(Insert(t, x, S, lo, w)) == t.a == Root(t)
  {
  }

  lemma WordOfNode(t: Tree, w: int, x: int)
    requires t.Node? && t.a + 16 <= w < t.a + 64
    ensures InNodes(Members(t) + {x}, w)
  {
    assert t.a == Chain(t)[0];
    assert t.a in Members(t) + {x};
  }

  /** The slot above keeps its word when only words strictly inside the nodes below change. */
  lemma SlotUntouched(m: Mem, m': Mem, X: set<int>, d: int, Y: set<int>, c: int, a: int)
    requires Untouched(m, m', X, d) && X <= Y && Clear(c, Y) && a in Y && a + 16 <= d < a + 64
    ensures Rd(m', c) == Rd(m, c)
  {
    assert Off(c, a);
    assert !InNodes(X, c) by {
      forall y | y in X ensures !(y + 16 <= c < y + 64) { assert Off(c, y); }
    }
  }

  /** Only the child word d of t's node changed, and it now holds the root of the changed subtree. */
  lemma ChildChanged(m: Mem, m': Mem, t: Tree, u: Tree, par: int, idx: int, X: set<int>, d: int, D: map<int, int>)
    requires t.Node? && NodeOK(m, t, par, idx)
    requires Untouched(m, m', X, d) && Apart(D) && X <= D.Keys && Elems(Chain(t)) <= D.Keys && X !! Elems(Chain(t))
    requires u.Node? && u == t.(l := u.l, r := u.r)
    requires d == t.a + 32 || d == t.a + 40
    requires Rd(m', d) == Root(if d == t.a + 32 then u.l else u.r)
    requires if d == t.a + 32 then u.r == t.r else u.l == t.l
    ensures NodeOK(m', u, par, idx)
  {
    hide *;
    var c := Chain(t);
    ChainParts(m, t, par, idx);
    AllIn(c, D);
    AllOut(c, X);
    RingDistinct(m, c);
    NodeWordClearAll(D, t.a, d);
    forall k | 1 <= k < |c| ensures SameNode(m, m', c[k]) { SameOutside(m, m', X, d, c[k], D); }
    RootWords(m, m', X, d, t.a, D);
    SameNodeLinks(m, m', c);
    RingFrame(m, m', c);
    NodeWhole(m, m', t, u, par, idx);
  }

  lemma AllOut(c: seq<int>, X: set<int>)
    requires X !! Elems(c)
    ensures forall k :: 0 <= k < |c| ==> c[k] !in X
  {
    forall k | 0 <= k < |c| ensures c[k] !in X { assert c[k] in Elems(c); }
  }

  lemma RingDistinct(m: Mem, c: seq<int>)
    requires Ring(m, c)
    ensures forall k :: 1 <= k < |c| ==> c[k] != c[0]
  {
  }

  lemma SameNodeLinks(m: Mem, m': Mem, c: seq<int>)
    requires forall k :: 1 <= k < |c| ==> SameNode(m, m', c[k])
    ensures forall k :: 1 <= k < |c| ==> Rd(m', c[k] + 16) == Rd(m, c[k] + 16) && Rd(m', c[k] + 24) == Rd(m, c[k] + 24)
  {
  }

  /** A node whose chain and parent word are as they were and whose child words are right. */
  lemma NodeWhole(m: Mem, m': Mem, t: Tree, u: Tree, par: int, idx: int)
    requires t.Node? && NodeOK(m, t, par, idx) && u.Node? && u == t.(l := u.l, r := u.r)
    requires Ring(m', Chain(t)) && forall k :: 1 <= k < |Chain(t)| ==> SameNode(m, m', Chain(t)[k])
    requires Rd(m', t.a + 8) == Rd(m, t.a + 8) && Rd(m', t.a + 56) == Rd(m, t.a + 56)
    requires Rd(m', t.a + 32) == Root(u.l) && Rd(m', t.a + 40) == Root(u.r) && Rd(m', t.a + 48) == par
    ensures NodeOK(m', u, par, idx)
  {
    hide Ring;
    assert Chain(u) == Chain(t) && Chain(t)[0] == t.a;
  }

  lemma RootWords(m: Mem, m': Mem, X: set<int>, d: int, a: int, D: map<int, int>)
    requires Untouched(m, m', X, d) && Apart(D) && X <= D.Keys && a in D && a !in X
    requires d == a + 32 || d == a + 40
    ensures Rd(m', a + 8) == Rd(m, a + 8) && Rd(m', a + 16) == Rd(m, a + 16) && Rd(m', a + 24) == Rd(m, a + 24)
    ensures Rd(m', a + 48) == Rd(m, a + 48) && Rd(m', a + 56) == Rd(m, a + 56)
    ensures d == a + 40 ==> Rd(m', a + 32) == Rd(m, a + 32)
    ensures d == a + 32 ==> Rd(m', a + 40) == Rd(m, a + 40)
  {
    NotInNodes(X, a, D, a + 8);
    NotInNodes(X, a, D, a + 16);
    NotInNodes(X, a, D, a + 24);
    NotInNodes(X, a, D, a + 32);
    NotInNodes(X, a, D, a + 40);
    NotInNodes(X, a, D, a + 48);
    NotInNodes(X, a, D, a + 56);
  }

  /** The size is already at this node: x joins its chain. */
  lemma PlaceHere(m: Mem, t: Tree, x: int, idx: int, lo: int, w: nat, c: int, par: int, D: map<int, int>)
    requires t.Node? && Rep(m, t, par, idx) && Shape(t, lo, w) && Holds(t, D) && Apart(D)
    requires x in D && x !in Members(t) && Prepared(m, x, t.s, idx)
    requires Clear(c, Members(t) + {x}) && Rd(m, c) == Root(t)
    ensures Rep(Place(m, x, FindSlot(t, t.s, lo, w, c, par)), Insert(t, x, t.s, lo, w), par, idx)
    ensures Rd(Place(m, x, FindSlot(t, t.s, lo, w, c, par)), c) == Root(Insert(t, x, t.s, lo, w))
    ensures Untouched(m, Place(m, x, FindSlot(t, t.s, lo, w, c, par)), Members(t) + {x}, c)
  {
    hide *;
    StopHere(t, x, lo, w, c, par);
    NodeFacts(t, lo, w, D);
    RepParts(m, t, par, idx);
    var m' := Place(m, x, Behind(t.a));
    var X := Elems(Chain(t)) + {x};
    InElems(Chain(t), x);
    PlaceInChain(m, t, x, par, idx, D);
    NodeWordClear(t.a, t.a + 16, Members(t.l), D);
    NodeWordClear(t.a, t.a + 16, Members(t.r), D);
    RepOutside(m, m', X, t.a + 16, t.l, t.a, idx, D);
    RepOutside(m, m', X, t.a + 16, t.r, t.a, idx, D);
    RepWhole(m', t.(ring := [x] + t.ring), par, idx);
    WordOfNode(t, t.a + 16, x);
    UntouchedGrows(m, m', X, t.a + 16, Members(t) + {x}, c);
    SlotUntouched(m, m', X, t.a + 16, Members(t) + {x}, c, t.a);
  }

  lemma InElems(c: seq<int>, x: int)
    ensures x in Elems(c) <==> x in c
  {
  }

  lemma StopHere(t: Tree, x: int, lo: int, w: nat, c: int, par: int)
    requires t.Node?
    ensures FindSlot(t, t.s, lo, w, c, par) == Behind(t.a)
    ensures Insert(t, x, t.s, lo, w) == t.(ring := [x] + t.ring)
    ensures Root(Insert(t, x, t.s, lo, w)) == t.a == Root(t)
  {
  }
}
