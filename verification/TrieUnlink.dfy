/** unlink_large_chunk: the detach and relink writes, and what they do to the memory image of a tree. */
module TrieUnlink {
  import opened Sequences
  import opened Words
  import opened Memory
  import opened Rings
  import opened Tries
  import opened TrieLinks

  /** The chunk that takes the place of the root of t, or 0. */
  function Successor(t: Tree): int
    requires t.Node?
  {
    if t.ring != [] then t.ring[|t.ring| - 1]
    else if t.r.Node? then RightTip(t.r).a
    else if t.l.Node? then RightTip(t.l).a
    else 0
  }

  /** First half: take the successor out of the root's chain, or cut it off as a leaf. */
  function Detach(m: Mem, t: Tree): Mem
    requires t.Node?
  {
    if t.ring != [] then LinkPast(m, Successor(t), Rd(m, t.a + 16))
    else if t.r.Node? then m[TipSlot(t.r, t.a + 40) := 0]
    else if t.l.Node? then m[TipSlot(t.l, t.a + 32) := 0]
    else m
  }

  function HookChild(m: Mem, x: int, r: int, off: int): Mem {
    var c := Rd(m, x + off);
    if c != 0 then m[r + off := c][c + 48 := r] else m
  }

  /** Second half: put r where x hung, at slot c under parent par. */
  function Hook(m: Mem, x: int, r: int, par: int, c: int): Mem {
    if r == 0 then m[c := 0]
    else HookChild(HookChild(m[c := r][r + 48 := par], x, r, 32), x, r, 40)
  }

  /** Removing x when it is in the chain of t's root, which hangs at slot c under par. */
  function UnlinkAt(m: Mem, t: Tree, x: int, c: int, par: int): Mem
    requires t.Node?
  {
    if x == t.a then Hook(Detach(m, t), x, Successor(t), par, c)
    else LinkPast(m, Rd(m, x + 24), Rd(m, x + 16))
  }

  datatype Spot = Spot(t: Tree, c: int, par: int)

  /** The subtree headed by size S, with the slot and the parent it hangs from. */
  function Locate(t: Tree, S: int, lo: int, w: nat, c: int, par: int): Spot
    decreases t
  {
    if t.Leaf? || t.s == S || w == 0 then Spot(t, c, par)
    else if S < lo + Pow2(w - 1) then Locate(t.l, S, lo, w - 1, t.a + 32, t.a)
    else Locate(t.r, S, lo + Pow2(w - 1), w - 1, t.a + 40, t.a)
  }

  // ---- cutting off the rightmost leaf ----

  lemma TipFacts(t: Tree, c: int, lo: int, w: nat, D: map<int, int>)
    requires t.Node? && Shape(t, lo, w) && Holds(t, D)
    ensures RightTip(t).Node? && Elems(Chain(RightTip(t))) <= Members(t) && Members(DropTip(t)) <= Members(t)
    ensures Elems(Chain(RightTip(t))) !! Members(DropTip(t))
    ensures Shape(DropTip(t), lo, w) && Holds(DropTip(t), D)
    ensures RightTip(t).s in SizesOf(t) && RightTip(t).s !in SizesOf(DropTip(t))
  {
    DropTipSpec(t, lo, w, D);
    HoldsMembers(DropTip(t), D);
    forall x | x in Elems(Chain(RightTip(t))) ensures x !in Members(DropTip(t)) {
      assert x in Chain(RightTip(t));
    }
  }

  lemma TipUnfold(t: Tree, c: int)
    requires t.Node?
    ensures t.r.Node? ==> RightTip(t) == RightTip(t.r) && DropTip(t) == t.(r := DropTip(t.r))
                          && TipSlot(t, c) == TipSlot(t.r, t.a + 40)
    ensures t.r.Leaf? && t.l.Node? ==> RightTip(t) == RightTip(t.l) && DropTip(t) == t.(l := DropTip(t.l))
                                       && TipSlot(t, c) == TipSlot(t.l, t.a + 32)
    ensures t.r.Leaf? && t.l.Leaf? ==> RightTip(t) == t && DropTip(t) == Leaf && TipSlot(t, c) == c
    ensures Root(t) == t.a && Root(Leaf) == 0
  {
  }

  lemma RepLeaf(m: Mem, par: int, idx: int)
    ensures Rep(m, Leaf, par, idx)
  {
  }

  lemma CutTipAtSlot(m: Mem, t: Tree, par: int, idx: int, c: int, D: map<int, int>)
    requires IsTip(t) && NodeOK(m, t, par, idx) && Clear(c, Members(t))
    ensures ChainOK(m[c := 0], Chain(t), t.s, idx)
    ensures Rd(m[c := 0], t.a + 32) == 0 && Rd(m[c := 0], t.a + 40) == 0
    ensures Untouched(m, m[c := 0], Members(t), c)
  {
    var m' := m[c := 0];
    forall k | 0 <= k < |Chain(t)| ensures SameNode(m, m', Chain(t)[k]) {
      assert Chain(t)[k] in Members(t);
      assert Off(c, Chain(t)[k]);
    }
    assert SameNode(m, m', Chain(t)[0]);
    ChainFrame(m, m', Chain(t), t.s, idx);
  }

  lemma {:induction false} CutTip(m: Mem, t: Tree, par: int, idx: int, lo: int, w: nat, c: int, D: map<int, int>)
    requires t.Node? && Rep(m, t, par, idx) && Shape(t, lo, w) && Holds(t, D) && Apart(D)
    requires Rd(m, c) == Root(t) && Clear(c, Members(t))
    ensures Rep(m[TipSlot(t, c) := 0], DropTip(t), par, idx)
    ensures Rd(m[TipSlot(t, c) := 0], c) == Root(DropTip(t))
    ensures ChainOK(m[TipSlot(t, c) := 0], Chain(RightTip(t)), RightTip(t).s, idx)
    ensures Rd(m[TipSlot(t, c) := 0], RightTip(t).a + 32) == 0 && Rd(m[TipSlot(t, c) := 0], RightTip(t).a + 40) == 0
    ensures Untouched(m, m[TipSlot(t, c) := 0], Members(t), c)
    decreases t
  {
    hide *;
    TipUnfold(t, c);
    NodeFacts(t, lo, w, D);
    RepParts(m, t, par, idx);
    var m' := m[TipSlot(t, c) := 0];
    if t.r.Node? {
      NodeWordClear(t.a, t.a + 40, Members(t.r), D);
      CutTip(m, t.r, t.a, idx, lo + Pow2(w - 1), w - 1, t.a + 40, D);
      ChildChanged(m, m', t, t.(r := DropTip(t.r)), par, idx, Members(t.r), t.a + 40, D);
      NodeWordClear(t.a, t.a + 40, Members(t.l), D);
      RepOutside(m, m', Members(t.r), t.a + 40, t.l, t.a, idx, D);
      RepWhole(m', t.(r := DropTip(t.r)), par, idx);
      NodeWordIn(t, t.a + 40);
      UntouchedGrows(m, m', Members(t.r), t.a + 40, Members(t), c);
      SlotUntouched(m, m', Members(t.r), t.a + 40, Members(t), c, t.a);
      RootOfNode(t.(r := DropTip(t.r)));
    } else if t.l.Node? {
      NodeWordClear(t.a, t.a + 32, Members(t.l), D);
      CutTip(m, t.l, t.a, idx, lo, w - 1, t.a + 32, D);
      ChildChanged(m, m', t, t.(l := DropTip(t.l)), par, idx, Members(t.l), t.a + 32, D);
      RepLeaf(m', t.a, idx);
      RepWhole(m', t.(l := DropTip(t.l)), par, idx);
      NodeWordIn(t, t.a + 32);
      UntouchedGrows(m, m', Members(t.l), t.a + 32, Members(t), c);
      SlotUntouched(m, m', Members(t.l), t.a + 32, Members(t), c, t.a);
      RootOfNode(t.(l := DropTip(t.l)));
    } else {
      Tip(t);
      CutTipAtSlot(m, t, par, idx, c, D);
      RepLeaf(m', par, idx);
      RdWr(m, c, 0);
    }
  }

  lemma RdWr(m: Mem, c: int, v: int)
    ensures Rd(m[c := v], c) == v
  {
  }

  lemma Tip(t: Tree)
    requires t.Node? && t.l.Leaf? && t.r.Leaf?
    ensures IsTip(t)
  {
  }

  lemma RootOfNode(t: Tree)
    ensures t.Node? ==> Root(t) == t.a
  {
  }

  lemma NodeWordIn(t: Tree, w: int)
    requires t.Node? && t.a + 16 <= w < t.a + 64
    ensures InNodes(Members(t), w) && t.a in Members(t)
  {
    assert t.a == Chain(t)[0];
    assert t.a in Members(t);
  }

  // ---- hooking the successor in ----

  lemma HookChildSpec(m: Mem, x: int, r: int, off: int, t: Tree, idx: int, D: map<int, int>)
    requires off == 32 || off == 40
    requires Rep(m, t, x, idx) && Holds(t, D) && Apart(D) && r in D && x in D && x != r
    requires r !in Members(t) && x !in Members(t)
    requires Rd(m, x + off) == Root(t) && Rd(m, r + off) == 0
    requires Distinguished(t)
    ensures Rep(HookChild(m, x, r, off), t, r, idx)
    ensures Rd(HookChild(m, x, r, off), r + off) == Root(t)
    ensures Untouched(m, HookChild(m, x, r, off), Members(t), r + off)
  {
    hide *;
    HookChildUnfold(m, x, r, off);
    if t.Node? {
      HookNode(m, HookChild(m, x, r, off), x, r, off, t, idx, D);
    } else {
      HookLeaf(m, t, x, r, idx, off);
    }
  }

  lemma HookChildUnfold(m: Mem, x: int, r: int, off: int)
    ensures HookChild(m, x, r, off) == if Rd(m, x + off) != 0
      then m[r + off := Rd(m, x + off)][Rd(m, x + off) + 48 := r] else m
  {
  }

  lemma HookLeaf(m: Mem, t: Tree, x: int, r: int, idx: int, off: int)
    requires t.Leaf?
    ensures Root(t) == 0 && Rep(m, t, r, idx) && Untouched(m, m, Members(t), r + off)
  {
  }

  lemma HookNode(m: Mem, m': Mem, x: int, r: int, off: int, t: Tree, idx: int, D: map<int, int>)
    requires off == 32 || off == 40
    requires t.Node? && Rep(m, t, x, idx) && Holds(t, D) && Apart(D) && r in D && r !in Members(t) && Distinguished(t)
    requires m' == if Root(t) != 0 then m[r + off := Root(t)][Root(t) + 48 := r] else m
    ensures Rep(m', t, r, idx) && Rd(m', r + off) == Root(t) && Untouched(m, m', Members(t), r + off)
  {
    hide *;
    RepParts(m, t, x, idx);
    NodeOKIs(m, t, x, idx);
    NodeMembers(t, D);
    DistinguishedIs(t);
    var C, a := Chain(t), t.a;
    TwoWords(m, m', r + off, a, a + 48, r);
    forall z | z in D && z != a && z != r ensures SameNode(m, m', z) { TwoFar(m, m', r, off, a, z, D); }
    HeadKept(m, m', r, off, a, D);
    forall k | 1 <= k < |C| ensures SameNode(m, m', C[k]) { ChainApart(m, C, t.s, idx, k); }
    ChainButParent(m, m', C, t.s, idx);
    RepFrame(m, m', t.l, a, idx);
    RepFrame(m, m', t.r, a, idx);
    NodeOKIs(m', t, r, idx);
    RepWhole(m', t, r, idx);
    HookedUntouched(m, m', Members(t), a, r + off);
  }

  lemma NodeOKIs(m: Mem, t: Tree, par: int, idx: int)
    requires t.Node?
    ensures NodeOK(m, t, par, idx) <==>
      ChainOK(m, Chain(t), t.s, idx) && Rd(m, t.a + 32) == Root(t.l) && Rd(m, t.a + 40) == Root(t.r)
          && Rd(m, t.a + 48) == par
    ensures Root(t) == t.a && |Chain(t)| > 0 && Chain(t)[0] == t.a
  {
  }

  lemma DistinguishedIs(t: Tree)
    requires t.Node?
    ensures Distinguished(t) <==> t.a !in Members(t.l) && t.a !in Members(t.r)
  {
  }

  lemma NodeMembers(t: Tree, D: map<int, int>)
    requires t.Node? && Holds(t, D)
    ensures t.a in Members(t) && Members(t.l) <= Members(t) && Members(t.r) <= Members(t) && Members(t) <= D.Keys
    ensures forall k :: 0 <= k < |Chain(t)| ==> Chain(t)[k] in Members(t)
  {
    hide Shape;
    HoldsMembers(t, D);
    forall x | x in Members(t) ensures x in D.Keys { assert x in D; }
    assert t.a == Chain(t)[0];
    forall k | 0 <= k < |Chain(t)| ensures Chain(t)[k] in Members(t) { assert Chain(t)[k] in Elems(Chain(t)); }
  }

  lemma TwoWords(m: Mem, m': Mem, a: int, x: int, b: int, y: int)
    requires m' == m[a := x][b := y]
    ensures Rd(m', b) == y && (a != b ==> Rd(m', a) == x)
    ensures forall w :: w != a && w != b ==> Rd(m', w) == Rd(m, w)
  {
  }

  lemma TwoFar(m: Mem, m': Mem, r: int, off: int, a: int, z: int, D: map<int, int>)
    requires Apart(D) && r in D && a in D && z in D && z != a && z != r && (off == 32 || off == 40)
    requires forall w :: w != r + off && w != a + 48 ==> Rd(m', w) == Rd(m, w)
    ensures SameNode(m, m', z)
  {
  }

  lemma HeadKept(m: Mem, m': Mem, r: int, off: int, a: int, D: map<int, int>)
    requires Apart(D) && r in D && a in D && r != a && (off == 32 || off == 40)
    requires forall w :: w != r + off && w != a + 48 ==> Rd(m', w) == Rd(m, w)
    ensures ButParent(m, m', a) && r + off != a + 48
  {
  }

  predicate ButParent(m: Mem, m': Mem, a: int) {
    && Rd(m', a + 8) == Rd(m, a + 8) && Rd(m', a + 16) == Rd(m, a + 16) && Rd(m', a + 24) == Rd(m, a + 24)
    && Rd(m', a + 32) == Rd(m, a + 32) && Rd(m', a + 40) == Rd(m, a + 40) && Rd(m', a + 56) == Rd(m, a + 56)
  }

  lemma ChainApart(m: Mem, C: seq<int>, s: int, idx: int, k: int)
    requires ChainOK(m, C, s, idx) && 1 <= k < |C|
    ensures C[k] != C[0]
  {
  }

  lemma ChainButParent(m: Mem, m': Mem, C: seq<int>, s: int, idx: int)
    requires ChainOK(m, C, s, idx) && C != [] && ButParent(m, m', C[0])
    requires forall k :: 1 <= k < |C| ==> SameNode(m, m', C[k])
    ensures ChainOK(m', C, s, idx) && Rd(m', C[0] + 32) == Rd(m, C[0] + 32) && Rd(m', C[0] + 40) == Rd(m, C[0] + 40)
  {
    RingFrame(m, m', C);
  }

  lemma HookedUntouched(m: Mem, m': Mem, X: set<int>, a: int, c: int)
    requires a in X && forall w :: w != c && w != a + 48 ==> Rd(m', w) == Rd(m, w)
    ensures Untouched(m, m', X, c)
  {
    assert InNodes(X, a + 48);
  }

  /** The root is in neither subtree. */
  ghost predicate Distinguished(t: Tree) {
    t.Node? ==> t.a !in Members(t.l) && t.a !in Members(t.r)
  }

  /** The chain of r survives writes to r's child and parent words and to other nodes. */
  lemma ChainHooked(m: Mem, m': Mem, C: seq<int>, s: int, idx: int, X: set<int>, c: int, D: map<int, int>)
    requires ChainOK(m, C, s, idx) && Apart(D) && X <= D.Keys
    requires forall k :: 0 <= k < |C| ==> C[k] in D && C[k] !in X && Off(c, C[k])
    requires forall w :: w != c && w != C[0] + 32 && w != C[0] + 40 && w != C[0] + 48 && !InNodes(X, w) ==>
                         Rd(m', w) == Rd(m, w)
    ensures ChainOK(m', C, s, idx)
  {
    forall k | 1 <= k < |C| ensures SameNode(m, m', C[k]) {
      assert C[k] != C[0];
      ChainedSame(m, m', C[0], C[k], X, c, D);
    }
    HeadSame(m, m', C[0], X, c, D);
    RingFrame(m, m', C);
  }

  lemma ChainedSame(m: Mem, m': Mem, a: int, z: int, X: set<int>, c: int, D: map<int, int>)
    requires Apart(D) && X <= D.Keys && a in D && z in D && z != a && z !in X && Off(c, z)
    requires forall w :: w != c && w != a + 32 && w != a + 40 && w != a + 48 && !InNodes(X, w) ==> Rd(m', w) == Rd(m, w)
    ensures SameNode(m, m', z)
  {
    NotInNodes(X, z, D, z + 8);
    NotInNodes(X, z, D, z + 16);
    NotInNodes(X, z, D, z + 24);
    NotInNodes(X, z, D, z + 32);
    NotInNodes(X, z, D, z + 40);
    NotInNodes(X, z, D, z + 48);
    NotInNodes(X, z, D, z + 56);
  }

  lemma HeadSame(m: Mem, m': Mem, a: int, X: set<int>, c: int, D: map<int, int>)
    requires Apart(D) && X <= D.Keys && a in D && a !in X && Off(c, a)
    requires forall w :: w != c && w != a + 32 && w != a + 40 && w != a + 48 && !InNodes(X, w) ==> Rd(m', w) == Rd(m, w)
    ensures Rd(m', a + 8) == Rd(m, a + 8) && Rd(m', a + 16) == Rd(m, a + 16)
    ensures Rd(m', a + 24) == Rd(m, a + 24) && Rd(m', a + 56) == Rd(m, a + 56)
  {
    NotInNodes(X, a, D, a + 8);
    NotInNodes(X, a, D, a + 16);
    NotInNodes(X, a, D, a + 24);
    NotInNodes(X, a, D, a + 56);
  }

  /** The parts that the successor r brings together: its own chain and the two remaining subtrees. */
  ghost predicate Parts(C: seq<int>, l: Tree, r: Tree, x: int, D: map<int, int>) {
    && |C| > 0 && x in D
    && Elems(C) <= D.Keys && Holds(l, D) && Holds(r, D)
    && Elems(C) !! Members(l) && Elems(C) !! Members(r) && Members(l) !! Members(r)
    && x !in Elems(C) && x !in Members(l) && x !in Members(r)
    && Distinguished(l) && Distinguished(r)
  }

  lemma PartsFacts(C: seq<int>, l: Tree, r: Tree, x: int, D: map<int, int>)
    requires |C| > 0 && Parts(C, l, r, x, D)
    ensures C[0] in D && x != C[0] && C[0] !in Members(l) && C[0] !in Members(r)
    ensures Members(l) <= D.Keys && Members(r) <= D.Keys && Holds(l, D) && Holds(r, D)
    ensures x in D && x !in Members(l) && x !in Members(r) && Members(l) !! Members(r)
    ensures Distinguished(l) && Distinguished(r)
    ensures forall k :: 0 <= k < |C| ==> C[k] in D && C[k] !in Members(l) + Members(r)
  {
    hide Members, SizesOf, Distinguished, Holds;
    HoldsMembers(l, D);
    HoldsMembers(r, D);
    forall y | y in Members(l) || y in Members(r) ensures y in D.Keys { }
    assert C[0] in Elems(C);
    forall k | 0 <= k < |C| ensures C[k] in D && C[k] !in Members(l) + Members(r) {
      assert C[k] in Elems(C);
    }
  }

  /** The node that r becomes. */
  function NewNode(C: seq<int>, s: int, l: Tree, r: Tree): Tree
    requires |C| > 0
  {
    Node(C[0], s, C[1..], l, r)
  }

  lemma NewNodeFacts(C: seq<int>, s: int, l: Tree, r: Tree)
    requires |C| > 0
    ensures var t := NewNode(C, s, l, r);
            t.Node? && Chain(t) == C && t.a == C[0] && t.s == s && t.l == l && t.r == r && Root(t) == C[0]
    ensures Members(NewNode(C, s, l, r)) == Elems(C) + Members(l) + Members(r)
    ensures C[0] in Elems(C)
  {
    assert Chain(NewNode(C, s, l, r)) == C;
  }

  /** The two writes before the children are hooked. */
  lemma HookHead(m: Mem, r: int, par: int, c: int, X: set<int>, D: map<int, int>)
    requires Apart(D) && X <= D.Keys && r in D && r !in X && Clear(c, X) && Off(c, r)
    ensures forall y :: y in X ==> SameNode(m, m[c := r][r + 48 := par], y)
    ensures Rd(m[c := r][r + 48 := par], c) == r && Rd(m[c := r][r + 48 := par], r + 48) == par
    ensures Rd(m[c := r][r + 48 := par], r + 32) == Rd(m, r + 32)
      && Rd(m[c := r][r + 48 := par], r + 40) == Rd(m, r + 40)
  {
    forall y | y in X ensures SameNode(m, m[c := r][r + 48 := par], y) {
      assert Off(c, y);
    }
  }

  lemma WordElsewhere(m: Mem, m': Mem, X: set<int>, d: int, w: int)
    requires Untouched(m, m', X, d) && w != d && !InNodes(X, w)
    ensures Rd(m', w) == Rd(m, w)
  {
  }

  lemma ClearNotIn(c: int, X: set<int>)
    requires Clear(c, X)
    ensures !InNodes(X, c)
  {
    forall y | y in X ensures !(y + 16 <= c < y + 64) {
      assert Off(c, y);
    }
  }

  lemma ClearParts(c: int, X: set<int>, Y: set<int>)
    requires Clear(c, X) && Y <= X
    ensures Clear(c, Y)
  {
  }

  /** The four memories of Hook, and the words that each step leaves alone. */
  lemma HookSpec(m: Mem, x: int, C: seq<int>, s: int, l: Tree, r: Tree, par: int, idx: int, c: int, D: map<int, int>)
    requires |C| > 0 && Apart(D) && Parts(C, l, r, x, D) && C[0] != 0
    requires ChainOK(m, C, s, idx) && Rd(m, C[0] + 32) == 0 && Rd(m, C[0] + 40) == 0
    requires Rep(m, l, x, idx) && Rep(m, r, x, idx)
    requires Rd(m, x + 32) == Root(l) && Rd(m, x + 40) == Root(r)
    requires Clear(c, Elems(C) + Members(l) + Members(r) + {x})
    ensures Rep(Hook(m, x, C[0], par, c), NewNode(C, s, l, r), par, idx)
    ensures Rd(Hook(m, x, C[0], par, c), c) == C[0]
    ensures Untouched(m, Hook(m, x, C[0], par, c), Elems(C) + Members(l) + Members(r) + {x}, c)
  {
    hide *;
    PartsFacts(C, l, r, x, D);
    NewNodeFacts(C, s, l, r);
    var A := C[0];
    var all := Elems(C) + Members(l) + Members(r) + {x};
    var X := Members(l) + Members(r) + {x};
    ClearParts(c, all, X);
    ClearParts(c, all, Members(l));
    ClearParts(c, all, Members(r));
    ClearAt(c, all, A);
    ClearAt(c, all, x);
    HookUnfold(m, x, A, par, c);
    var m1 := m[c := A][A + 48 := par];
    HookHead(m, A, par, c, X, D);
    RepFrame(m, m1, l, x, idx);
    RepFrame(m, m1, r, x, idx);
    assert x in X;
    SameWords(m, m1, x);
    var m2 := HookChild(m1, x, A, 32);
    HookChildSpec(m1, x, A, 32, l, idx, D);
    NodeWordClear(A, A + 32, Members(r), D);
    RepOutside(m1, m2, Members(l), A + 32, r, x, idx, D);
    NotInNodes(Members(l), x, D, x + 40);
    WordsDiffer(x, A, D);
    WordElsewhere(m1, m2, Members(l), A + 32, x + 40);
    NotInNodes(Members(l), A, D, A + 40);
    WordElsewhere(m1, m2, Members(l), A + 32, A + 40);
    var m3 := HookChild(m2, x, A, 40);
    HookChildSpec(m2, x, A, 40, r, idx, D);
    NodeWordClear(A, A + 40, Members(l), D);
    RepOutside(m2, m3, Members(r), A + 40, l, A, idx, D);
    HookFrame(m, m1, m2, m3, A, par, c, Members(l), Members(r));
    ClearAll(C, c, all);
    ChainHooked(m, m3, C, s, idx, Members(l) + Members(r), c, D);
    NotInNodes(Members(r), A, D, A + 32);
    WordElsewhere(m2, m3, Members(r), A + 40, A + 32);
    NotInNodes(Members(l), A, D, A + 48);
    NotInNodes(Members(r), A, D, A + 48);
    WordElsewhere(m1, m2, Members(l), A + 32, A + 48);
    WordElsewhere(m2, m3, Members(r), A + 40, A + 48);
    NodeFromWords(m3, NewNode(C, s, l, r), par, idx);
    RepWhole(m3, NewNode(C, s, l, r), par, idx);
    ClearNotIn(c, Members(l));
    ClearNotIn(c, Members(r));
    OffWords(c, A);
    WordElsewhere(m1, m2, Members(l), A + 32, c);
    WordElsewhere(m2, m3, Members(r), A + 40, c);
    FrameToUntouched(m, m3, A, c, Members(l), Members(r), all);
  }

  lemma OffWords(c: int, a: int)
    requires Off(c, a)
    ensures c != a + 32 && c != a + 40 && c != a + 48
  {
  }

  lemma WordsDiffer(x: int, a: int, D: map<int, int>)
    requires Apart(D) && x in D && a in D && x != a
    ensures x + 40 != a + 32 && x + 32 != a + 40
  {
  }

  lemma SameWords(m: Mem, m': Mem, x: int)
    requires SameNode(m, m', x)
    ensures Rd(m', x + 32) == Rd(m, x + 32) && Rd(m', x + 40) == Rd(m, x + 40)
  {
  }

  lemma HookUnfold(m: Mem, x: int, r: int, par: int, c: int)
    requires r != 0
    ensures Hook(m, x, r, par, c) == HookChild(HookChild(m[c := r][r + 48 := par], x, r, 32), x, r, 40)
  {
  }

  lemma ClearAll(C: seq<int>, c: int, all: set<int>)
    requires Clear(c, all) && Elems(C) <= all
    ensures forall k :: 0 <= k < |C| ==> Off(c, C[k])
  {
    forall k | 0 <= k < |C| ensures Off(c, C[k]) {
      assert C[k] in Elems(C);
    }
  }

  lemma NodeFromWords(m: Mem, t: Tree, par: int, idx: int)
    requires t.Node? && ChainOK(m, Chain(t), t.s, idx)
    requires Rd(m, t.a + 32) == Root(t.l) && Rd(m, t.a + 40) == Root(t.r) && Rd(m, t.a + 48) == par
    ensures NodeOK(m, t, par, idx)
  {
  }

  lemma HookFrame(m: Mem, m1: Mem, m2: Mem, m3: Mem, a: int, par: int, c: int, L: set<int>, R: set<int>)
    requires m1 == m[c := a][a + 48 := par]
    requires Untouched(m1, m2, L, a + 32) && Untouched(m2, m3, R, a + 40)
    ensures forall w :: w != c && w != a + 32 && w != a + 40 && w != a + 48 && !InNodes(L + R, w) ==>
                        Rd(m3, w) == Rd(m, w)
  {
    forall w | w != c && w != a + 32 && w != a + 40 && w != a + 48 && !InNodes(L + R, w)
      ensures Rd(m3, w) == Rd(m, w)
    {
      assert forall y :: y in L || y in R ==> y in L + R;
      assert !InNodes(L, w) && !InNodes(R, w);
    }
  }

  lemma FrameToUntouched(m: Mem, m': Mem, a: int, c: int, L: set<int>, R: set<int>, all: set<int>)
    requires forall w :: w != c && w != a + 32 && w != a + 40 && w != a + 48 && !InNodes(L + R, w) ==>
                         Rd(m', w) == Rd(m, w)
    requires L + R <= all && a in all
    ensures Untouched(m, m', all, c)
  {
    forall w | w != c && !InNodes(all, w) ensures Rd(m', w) == Rd(m, w) {
      assert !InNodes(L + R, w);
    }
  }

  // ---- removing the root ----

  /** Hooking where nothing remains below: the slot is emptied. */
  lemma HookNothing(m: Mem, x: int, par: int, idx: int, c: int, X: set<int>)
    ensures Rep(Hook(m, x, 0, par, c), Leaf, par, idx) && Rd(Hook(m, x, 0, par, c), c) == 0
    ensures Untouched(m, Hook(m, x, 0, par, c), X, c)
  {
  }

  /** The chain case: the last of the ring takes over. */
  lemma DetachChained(m: Mem, t: Tree, par: int, idx: int, lo: int, w: nat, D: map<int, int>)
    requires t.Node? && t.ring != [] && Rep(m, t, par, idx) && Shape(t, lo, w) && Holds(t, D) && Apart(D)
    ensures ChainOK(Detach(m, t), Chain(RemoveRoot(t)), t.s, idx)
    ensures Rep(Detach(m, t), t.l, t.a, idx) && Rep(Detach(m, t), t.r, t.a, idx)
    ensures Rd(Detach(m, t), t.a + 32) == Root(t.l) && Rd(Detach(m, t), t.a + 40) == Root(t.r)
    ensures Rd(Detach(m, t), Successor(t) + 32) == 0 && Rd(Detach(m, t), Successor(t) + 40) == 0
    ensures Untouched(m, Detach(m, t), Elems(Chain(t)), t.a + 16)
  {
    hide *;
    var c, d, m' := Chain(t), Chain(RemoveRoot(t)), Detach(m, t);
    RepParts(m, t, par, idx);
    NodeFacts(t, lo, w, D);
    DetachRing(m, t, par, idx);
    DetachFrame(m, m', c, D, t);
    DetachTags(m, m', c, d, t.s, idx);
    NodeWordClear(t.a, t.a + 16, Members(t.l), D);
    NodeWordClear(t.a, t.a + 16, Members(t.r), D);
    RepOutside(m, m', Elems(c), t.a + 16, t.l, t.a, idx, D);
    RepOutside(m, m', Elems(c), t.a + 16, t.r, t.a, idx, D);
  }

  /** Which ring is left, and which two words change. */
  lemma DetachRing(m: Mem, t: Tree, par: int, idx: int)
    requires t.Node? && t.ring != [] && NodeOK(m, t, par, idx)
    ensures var c := Chain(t);
            |c| >= 2 && c[0] == t.a && Detach(m, t) == LinkPast(m, c[|c| - 1], c[1])
            && c[|c| - 1] == Successor(t)
            && Chain(RemoveRoot(t)) == [c[|c| - 1]] + c[1..|c| - 1]
            && Ring(Detach(m, t), Chain(RemoveRoot(t)))
            && (forall k :: 0 <= k < |c| ==> Tagged(m, c[k], t.s, idx))
            && (forall k :: 1 <= k < |c| ==> Unhooked(m, c[k]))
  {
    var c := Chain(t);
    var n := |c|;
    assert Linked(m, c[n - 1], c[Nxt(n, n - 1)]);
    assert Linked(m, c[0], c[Nxt(n, 0)]);
    RemoveAt(m, c, 0);
    var m' := Detach(m, t);
    assert Rd(m, c[0] + 24) == c[n - 1] == Successor(t);
    Rotate(m', Without(c, 0));
    assert c[1..n - 1] == t.ring[..n - 2];
    assert FromLast(Without(c, 0)) == [c[n - 1]] + c[1..n - 1];
  }

  lemma DetachTags(m: Mem, m': Mem, c: seq<int>, d: seq<int>, s: int, idx: int)
    requires |c| >= 2 && d == [c[|c| - 1]] + c[1..|c| - 1] && Ring(m', d)
    requires forall k :: 0 <= k < |c| ==> Tagged(m, c[k], s, idx)
    requires forall k :: 1 <= k < |c| ==> Unhooked(m, c[k])
    requires forall k :: 0 <= k < |c| ==> SameTags(m, m', c[k])
    ensures ChainOK(m', d, s, idx)
    ensures Rd(m', d[0] + 32) == 0 && Rd(m', d[0] + 40) == 0
    ensures Rd(m', c[0] + 32) == Rd(m, c[0] + 32) && Rd(m', c[0] + 40) == Rd(m, c[0] + 40)
  {
    forall k | 0 <= k < |d| ensures Tagged(m', d[k], s, idx) && Unhooked(m', d[k]) {
      var i := if k == 0 then |c| - 1 else k;
      assert d[k] == c[i];
      assert Tagged(m, c[i], s, idx) && Unhooked(m, c[i]) && SameTags(m, m', c[i]);
    }
    assert Unhooked(m', d[0]) && SameTags(m, m', c[0]);
  }

  predicate SameTags(m: Mem, m': Mem, x: int) {
    && Rd(m', x + 8) == Rd(m, x + 8) && Rd(m', x + 32) == Rd(m, x + 32) && Rd(m', x + 40) == Rd(m, x + 40)
    && Rd(m', x + 48) == Rd(m, x + 48) && Rd(m', x + 56) == Rd(m, x + 56)
  }

  lemma DetachFrame(m: Mem, m': Mem, c: seq<int>, D: map<int, int>, t: Tree)
    requires |c| >= 2 && Elems(c) <= D.Keys && Apart(D) && t.Node? && c[0] == t.a
    requires m' == LinkPast(m, c[|c| - 1], c[1])
    ensures forall k :: 0 <= k < |c| ==> SameTags(m, m', c[k])
    ensures Untouched(m, m', Elems(c), t.a + 16)
  {
    var e, f := c[|c| - 1], c[1];
    assert e in Elems(c) && f in Elems(c);
    forall k | 0 <= k < |c| ensures SameTags(m, m', c[k]) {
      assert c[k] in Elems(c);
    }
    assert InNodes(Elems(c), e + 16) && InNodes(Elems(c), f + 24);
  }

  lemma DistinguishedSub(t: Tree, lo: int, w: nat, D: map<int, int>)
    requires Shape(t, lo, w) && Holds(t, D)
    ensures Distinguished(t)
  {
    if t.Node? {
      NotBelow(t, lo, w, D);
      assert t.a == Chain(t)[0];
    }
  }

  lemma RemoveChainedRoot(m: Mem, t: Tree, par: int, idx: int, lo: int, w: nat, c: int, D: map<int, int>)
    requires t.Node? && t.ring != [] && Rep(m, t, par, idx) && Shape(t, lo, w) && Holds(t, D) && Apart(D)
    requires Clear(c, Members(t)) && Distinct(Chain(t))
    ensures Rep(UnlinkAt(m, t, t.a, c, par), RemoveRoot(t), par, idx)
    ensures Rd(UnlinkAt(m, t, t.a, c, par), c) == Root(RemoveRoot(t))
    ensures Untouched(m, UnlinkAt(m, t, t.a, c, par), Members(t), c)
  {
    hide *;
    NodeFacts(t, lo, w, D);
    RepParts(m, t, par, idx);
    DetachChained(m, t, par, idx, lo, w, D);
    ChainedFacts(m, t, par, idx, D);
    SubtreesDistinguished(t, lo, w, D);
    var C := Chain(RemoveRoot(t));
    ChainedParts(t, C, D, lo, w);
    var m1 := Detach(m, t);
    UnlinkAtRoot(m, t, c, par);
    SameSet(Elems(C) + Members(t.l) + Members(t.r) + {t.a}, Members(t), c);
    HookSpec(m1, t.a, C, t.s, t.l, t.r, par, idx, c, D);
    NewNodeFacts(C, t.s, t.l, t.r);
    NodeWordIn(t, t.a + 16);
    UntouchedGrows(m, m1, Elems(Chain(t)), t.a + 16, Members(t), c);
    UntouchedTrans(m, m1, Hook(m1, t.a, C[0], par, c), Members(t), c);
  }

  lemma SameSet(X: set<int>, Y: set<int>, c: int)
    requires X == Y && Clear(c, Y)
    ensures Clear(c, X)
  {
  }

  lemma UntouchedTrans(m: Mem, m1: Mem, m2: Mem, X: set<int>, c: int)
    requires Untouched(m, m1, X, c) && Untouched(m1, m2, X, c)
    ensures Untouched(m, m2, X, c)
  {
  }

  lemma UnlinkAtRoot(m: Mem, t: Tree, c: int, par: int)
    requires t.Node?
    ensures UnlinkAt(m, t, t.a, c, par) == Hook(Detach(m, t), t.a, Successor(t), par, c)
  {
  }

  lemma SubtreesDistinguished(t: Tree, lo: int, w: nat, D: map<int, int>)
    requires t.Node? && Shape(t, lo, w) && Holds(t, D)
    ensures Distinguished(t.l) && Distinguished(t.r)
  {
    hide *;
    NodeFacts(t, lo, w, D);
    if w > 0 {
      DistinguishedSub(t.l, lo, w - 1, D);
      DistinguishedSub(t.r, lo + Pow2(w - 1), w - 1, D);
    } else {
      DistinguishedLeaf();
    }
  }

  lemma DistinguishedLeaf()
    ensures Distinguished(Leaf)
  {
  }

  lemma ChainedFacts(m: Mem, t: Tree, par: int, idx: int, D: map<int, int>)
    requires t.Node? && t.ring != [] && NodeOK(m, t, par, idx)
    ensures RemoveRoot(t).Node? && Chain(RemoveRoot(t))[0] == Successor(t) != 0
    ensures NewNode(Chain(RemoveRoot(t)), t.s, t.l, t.r) == RemoveRoot(t)
  {
    var n := |t.ring|;
    assert t.ring[n - 1] == Chain(t)[n];
    assert Tagged(m, Chain(t)[n], t.s, idx);
    var C := Chain(RemoveRoot(t));
    assert C == [t.ring[n - 1]] + t.ring[..n - 1];
  }

  lemma ChainedParts(t: Tree, C: seq<int>, D: map<int, int>, lo: int, w: nat)
    requires t.Node? && t.ring != [] && Distinct(Chain(t)) && C == Chain(RemoveRoot(t))
    requires Holds(t.l, D) && Holds(t.r, D) && Elems(Chain(t)) <= D.Keys && t.a in D
    requires Elems(Chain(t)) !! Members(t.l) && Elems(Chain(t)) !! Members(t.r) && Members(t.l) !! Members(t.r)
    requires t.a in Elems(Chain(t)) && Members(t) == Elems(Chain(t)) + Members(t.l) + Members(t.r)
    requires Distinguished(t.l) && Distinguished(t.r)
    ensures |C| > 0 && Parts(C, t.l, t.r, t.a, D)
    ensures Elems(C) + Members(t.l) + Members(t.r) + {t.a} == Members(t)
  {
    hide *;
    ChainedElems(t, C);
    AddHead(Elems(C), Elems(Chain(t)), Members(t.l), Members(t.r), t.a);
    MakeParts(C, t.l, t.r, t.a, D);
  }

  lemma AddHead(C: set<int>, E: set<int>, L: set<int>, R: set<int>, a: int)
    requires E == C + {a}
    ensures C + L + R + {a} == E + L + R
    ensures E !! L ==> C !! L && a !in L
    ensures E !! R ==> C !! R && a !in R
  {
  }

  lemma ChainedElems(t: Tree, C: seq<int>)
    requires t.Node? && t.ring != [] && Distinct(Chain(t)) && C == Chain(RemoveRoot(t))
    ensures |C| > 0 && Elems(Chain(t)) == Elems(C) + {t.a} && t.a !in Elems(C)
  {
    var n := |t.ring|;
    assert t.ring == t.ring[..n - 1] + [t.ring[n - 1]];
    assert C == [t.ring[n - 1]] + t.ring[..n - 1];
    forall k | 0 <= k < n ensures t.ring[k] != t.a {
      assert Chain(t)[0] != Chain(t)[k + 1];
    }
    forall y ensures y in Elems(C) <==> y in t.ring {
    }
  }

  lemma MakeParts(C: seq<int>, l: Tree, r: Tree, x: int, D: map<int, int>)
    requires |C| > 0 && x in D && Elems(C) <= D.Keys && Holds(l, D) && Holds(r, D)
    requires Elems(C) !! Members(l) && Elems(C) !! Members(r) && Members(l) !! Members(r)
    requires x !in Elems(C) && x !in Members(l) && x !in Members(r)
    requires Distinguished(l) && Distinguished(r)
    ensures Parts(C, l, r, x, D)
  {
  }

  /** The leaf case: the rightmost leaf of a subtree takes over. */
  lemma RemoveLoneRoot(m: Mem, t: Tree, par: int, idx: int, lo: int, w: nat, c: int, D: map<int, int>)
    requires t.Node? && t.ring == [] && Rep(m, t, par, idx) && Shape(t, lo, w) && Holds(t, D) && Apart(D)
    requires Clear(c, Members(t))
    ensures Rep(UnlinkAt(m, t, t.a, c, par), RemoveRoot(t), par, idx)
    ensures Rd(UnlinkAt(m, t, t.a, c, par), c) == Root(RemoveRoot(t))
    ensures Untouched(m, UnlinkAt(m, t, t.a, c, par), Members(t), c)
  {
    hide *;
    UnlinkAtRoot(m, t, c, par);
    LoneUnfold(m, t);
    if t.r.Node? {
      LoneRight(m, t, par, idx, lo, w, c, D);
    } else if t.l.Node? {
      LoneLeft(m, t, par, idx, lo, w, c, D);
    } else {
      HookNothing(m, t.a, par, idx, c, Members(t));
      RootOfLeaf();
    }
  }

  lemma RootOfLeaf()
    ensures Root(Leaf) == 0
  {
  }

  lemma LoneUnfold(m: Mem, t: Tree)
    requires t.Node? && t.ring == []
    ensures t.r.Node? ==> Successor(t) == RightTip(t.r).a && Detach(m, t) == m[TipSlot(t.r, t.a + 40) := 0]
    ensures t.r.Node? ==> RemoveRoot(t) == NewNode(Chain(RightTip(t.r)), RightTip(t.r).s, t.l, DropTip(t.r))
    ensures t.r.Leaf? && t.l.Node? ==> Successor(t) == RightTip(t.l).a && Detach(m, t) == m[TipSlot(t.l, t.a + 32) := 0]
    ensures t.r.Leaf? && t.l.Node? ==> RemoveRoot(t) ==
                                       NewNode(Chain(RightTip(t.l)), RightTip(t.l).s, DropTip(t.l), Leaf)
    ensures t.r.Leaf? && t.l.Leaf? ==> Successor(t) == 0 && Detach(m, t) == m && RemoveRoot(t) == Leaf
    ensures forall q: Tree :: q.Node? ==> |Chain(q)| > 0 && Chain(q)[0] == q.a
  {
  }

  lemma TipAddress(m: Mem, C: seq<int>, s: int, idx: int)
    requires |C| > 0 && ChainOK(m, C, s, idx)
    ensures C[0] != 0
  {
    assert Tagged(m, C[0], s, idx);
  }

  lemma LoneParts(t: Tree, sub: Tree, l: Tree, r: Tree, D: map<int, int>)
    requires t.Node? && sub.Node? && t.a in D
    requires Elems(Chain(RightTip(sub))) <= D.Keys && Holds(l, D) && Holds(r, D)
    requires Elems(Chain(RightTip(sub))) <= Members(sub) && Members(l) !! Members(r)
    requires Elems(Chain(RightTip(sub))) !! Members(l) && Elems(Chain(RightTip(sub))) !! Members(r)
    requires t.a !in Members(sub) && t.a !in Members(l) && t.a !in Members(r)
    requires Distinguished(l) && Distinguished(r)
    ensures |Chain(RightTip(sub))| > 0 && Parts(Chain(RightTip(sub)), l, r, t.a, D)
  {
  }

  lemma LoneRight(m: Mem, t: Tree, par: int, idx: int, lo: int, w: nat, c: int, D: map<int, int>)
    requires t.Node? && t.ring == [] && t.r.Node?
    requires Rep(m, t, par, idx) && Shape(t, lo, w) && Holds(t, D) && Apart(D) && Clear(c, Members(t))
    ensures Rep(Hook(Detach(m, t), t.a, Successor(t), par, c), RemoveRoot(t), par, idx)
    ensures Rd(Hook(Detach(m, t), t.a, Successor(t), par, c), c) == Root(RemoveRoot(t))
    ensures Untouched(m, Hook(Detach(m, t), t.a, Successor(t), par, c), Members(t), c)
  {
    hide *;
    LoneUnfold(m, t);
    NodeFacts(t, lo, w, D);
    RepParts(m, t, par, idx);
    SubtreesDistinguished(t, lo, w, D);
    var m1 := Detach(m, t);
    var C := Chain(RightTip(t.r));
    NodeWordClear(t.a, t.a + 40, Members(t.r), D);
    CutTip(m, t.r, t.a, idx, lo + Pow2(w - 1), w - 1, t.a + 40, D);
    TipFacts(t.r, t.a + 40, lo + Pow2(w - 1), w - 1, D);
    DistinguishedSub(DropTip(t.r), lo + Pow2(w - 1), w - 1, D);
    LoneParts(t, t.r, t.l, DropTip(t.r), D);
    TipAddress(m1, C, RightTip(t.r).s, idx);
    NodeWordClear(t.a, t.a + 40, Members(t.l), D);
    RepOutside(m, m1, Members(t.r), t.a + 40, t.l, t.a, idx, D);
    NotInNodes(Members(t.r), t.a, D, t.a + 32);
    WordElsewhere(m, m1, Members(t.r), t.a + 40, t.a + 32);
    var all := Elems(C) + Members(t.l) + Members(DropTip(t.r)) + {t.a};
    ClearParts(c, Members(t), all);
    HookSpec(m1, t.a, C, RightTip(t.r).s, t.l, DropTip(t.r), par, idx, c, D);
    NewNodeFacts(C, RightTip(t.r).s, t.l, DropTip(t.r));
    NodeWordIn(t, t.a + 40);
    UntouchedGrows(m, m1, Members(t.r), t.a + 40, Members(t), c);
    UntouchedGrows(m1, Hook(m1, t.a, C[0], par, c), all, c, Members(t), c);
    UntouchedTrans(m, m1, Hook(m1, t.a, C[0], par, c), Members(t), c);
  }

  lemma LoneLeft(m: Mem, t: Tree, par: int, idx: int, lo: int, w: nat, c: int, D: map<int, int>)
    requires t.Node? && t.ring == [] && t.r.Leaf? && t.l.Node?
    requires Rep(m, t, par, idx) && Shape(t, lo, w) && Holds(t, D) && Apart(D) && Clear(c, Members(t))
    ensures Rep(Hook(Detach(m, t), t.a, Successor(t), par, c), RemoveRoot(t), par, idx)
    ensures Rd(Hook(Detach(m, t), t.a, Successor(t), par, c), c) == Root(RemoveRoot(t))
    ensures Untouched(m, Hook(Detach(m, t), t.a, Successor(t), par, c), Members(t), c)
  {
    hide *;
    LoneUnfold(m, t);
    NodeFacts(t, lo, w, D);
    RepParts(m, t, par, idx);
    SubtreesDistinguished(t, lo, w, D);
    var m1 := Detach(m, t);
    var C := Chain(RightTip(t.l));
    NodeWordClear(t.a, t.a + 32, Members(t.l), D);
    CutTip(m, t.l, t.a, idx, lo, w - 1, t.a + 32, D);
    TipFacts(t.l, t.a + 32, lo, w - 1, D);
    DistinguishedSub(DropTip(t.l), lo, w - 1, D);
    LeafFacts(lo, w, D);
    RootOfLeaf();
    LoneParts(t, t.l, DropTip(t.l), Leaf, D);
    TipAddress(m1, C, RightTip(t.l).s, idx);
    RepLeaf(m1, t.a, idx);
    NotInNodes(Members(t.l), t.a, D, t.a + 40);
    WordElsewhere(m, m1, Members(t.l), t.a + 32, t.a + 40);
    var all := Elems(C) + Members(DropTip(t.l)) + Members(Leaf) + {t.a};
    ClearParts(c, Members(t), all);
    HookSpec(m1, t.a, C, RightTip(t.l).s, DropTip(t.l), Leaf, par, idx, c, D);
    NewNodeFacts(C, RightTip(t.l).s, DropTip(t.l), Leaf);
    NodeWordIn(t, t.a + 32);
    UntouchedGrows(m, m1, Members(t.l), t.a + 32, Members(t), c);
    UntouchedGrows(m1, Hook(m1, t.a, C[0], par, c), all, c, Members(t), c);
    UntouchedTrans(m, m1, Hook(m1, t.a, C[0], par, c), Members(t), c);
  }

  // ---- removing a chained chunk ----

  lemma DropFromRingIs(ring: seq<int>, x: int, k: int)
    requires 0 <= k < |ring| && ring[k] == x && Distinct(ring)
    ensures x in ring && DropFromRing(ring, x) == ring[..k] + ring[k + 1..]
  {
  }

  lemma RemoveChained(m: Mem, t: Tree, x: int, par: int, idx: int, lo: int, w: nat, c: int, D: map<int, int>)
    requires t.Node? && Rep(m, t, par, idx) && Shape(t, lo, w) && Holds(t, D) && Apart(D)
    requires x in t.ring && Distinct(t.ring) && x != t.a && Clear(c, Members(t)) && Rd(m, c) == Root(t)
    ensures Rep(UnlinkAt(m, t, x, c, par), t.(ring := DropFromRing(t.ring, x)), par, idx)
    ensures Rd(UnlinkAt(m, t, x, c, par), c) == Root(t)
    ensures Untouched(m, UnlinkAt(m, t, x, c, par), Members(t), c)
    ensures Linked(m, x, Rd(m, x + 16)) && Linked(m, Rd(m, x + 24), x) && Rd(m, x + 48) == 0
    ensures Rd(m, x + 24) != x && Rd(m, x + 16) >= HEAP_FLOOR && Rd(m, x + 24) >= HEAP_FLOOR
  {
    hide *;
    NodeFacts(t, lo, w, D);
    RepParts(m, t, par, idx);
    ChainMember(m, t, x, par, idx);
    var k :| 1 <= k < |Chain(t)| && Chain(t)[k] == x;
    ChainedUnlink(m, t, x, k, par, idx, c, D);
    var u := t.(ring := DropFromRing(t.ring, x));
    var m' := UnlinkAt(m, t, x, c, par);
    NodeWordClear(t.a, t.a + 16, Members(t.l), D);
    NodeWordClear(t.a, t.a + 16, Members(t.r), D);
    RepOutside(m, m', Elems(Chain(t)), t.a + 16, t.l, t.a, idx, D);
    RepOutside(m, m', Elems(Chain(t)), t.a + 16, t.r, t.a, idx, D);
    RepWhole(m', u, par, idx);
    NodeWordIn(t, t.a + 16);
    UntouchedGrows(m, m', Elems(Chain(t)), t.a + 16, Members(t), c);
    SlotUntouched(m, m', Elems(Chain(t)), t.a + 16, Members(t), c, t.a);
  }

  lemma ChainMember(m: Mem, t: Tree, x: int, par: int, idx: int)
    requires t.Node? && NodeOK(m, t, par, idx) && x in t.ring
    ensures exists k :: 1 <= k < |Chain(t)| && Chain(t)[k] == x
  {
    var j :| 0 <= j < |t.ring| && t.ring[j] == x;
    assert Chain(t)[j + 1] == x;
  }

  lemma ChainedUnlink(m: Mem, t: Tree, x: int, k: int, par: int, idx: int, c: int, D: map<int, int>)
    requires t.Node? && NodeOK(m, t, par, idx) && Apart(D) && Elems(Chain(t)) <= D.Keys
    requires 1 <= k < |Chain(t)| && Chain(t)[k] == x && Distinct(t.ring) && x != t.a && x in t.ring
    ensures NodeOK(UnlinkAt(m, t, x, c, par), t.(ring := DropFromRing(t.ring, x)), par, idx)
    ensures Untouched(m, UnlinkAt(m, t, x, c, par), Elems(Chain(t)), t.a + 16)
    ensures Linked(m, x, Rd(m, x + 16)) && Linked(m, Rd(m, x + 24), x) && Rd(m, x + 48) == 0
    ensures Rd(m, x + 24) != x && Rd(m, x + 16) >= HEAP_FLOOR && Rd(m, x + 24) >= HEAP_FLOOR
  {
    hide *;
    var C := Chain(t);
    NodeOKIs(m, t, par, idx);
    ChainNeighbours(m, C, k, t.s, idx);
    var f, b := Rd(m, x + 16), Rd(m, x + 24);
    var m' := UnlinkAt(m, t, x, c, par);
    ChainedIs(m, t, x, c, par);
    ChainIs(t);
    DropFromRingIs(t.ring, x, k - 1);
    var u := t.(ring := DropFromRing(t.ring, x));
    ChainWithout(t, u, k);
    LinkPastTags(m, m', C, b, f, D);
    ShrunkChain(m, m', C, k, t.s, idx);
    SameTagsIs(m, m', C[0]);
    NodeOKIs(m', u, par, idx);
    PastUntouched(m, m', C, b, f, t.a + 16);
  }

  /** The neighbours of a chained node, and the ring without it. */
  lemma ChainNeighbours(m: Mem, C: seq<int>, k: int, s: int, idx: int)
    requires ChainOK(m, C, s, idx) && 1 <= k < |C|
    ensures var f, b := Rd(m, C[k] + 16), Rd(m, C[k] + 24);
            f in C && b in C && b != C[k] && f >= HEAP_FLOOR && b >= HEAP_FLOOR
            && Linked(m, C[k], f) && Linked(m, b, C[k]) && Rd(m, C[k] + 48) == 0
            && Ring(LinkPast(m, b, f), Without(C, k))
  {
    hide LinkPast;
    var n := |C|;
    RemoveAt(m, C, k);
    assert Linked(m, C[k], C[Nxt(n, k)]) && Linked(m, C[k - 1], C[Nxt(n, k - 1)]);
    assert Tagged(m, C[Nxt(n, k)], s, idx) && Tagged(m, C[k - 1], s, idx) && Unhooked(m, C[k]);
  }

  lemma ChainedIs(m: Mem, t: Tree, x: int, c: int, par: int)
    requires t.Node? && x != t.a
    ensures UnlinkAt(m, t, x, c, par) == LinkPast(m, Rd(m, x + 24), Rd(m, x + 16))
  {
  }

  lemma ChainIs(t: Tree)
    requires t.Node?
    ensures Chain(t) == [t.a] + t.ring
  {
  }

  lemma SameTagsIs(m: Mem, m': Mem, x: int)
    ensures SameTags(m, m', x) <==>
      && Rd(m', x + 8) == Rd(m, x + 8) && Rd(m', x + 32) == Rd(m, x + 32) && Rd(m', x + 40) == Rd(m, x + 40)
      && Rd(m', x + 48) == Rd(m, x + 48) && Rd(m', x + 56) == Rd(m, x + 56)
  {
  }

  lemma ChainWithout(t: Tree, u: Tree, k: int)
    requires t.Node? && u.Node? && 1 <= k <= |t.ring| && u == t.(ring := t.ring[..k - 1] + t.ring[k..])
    ensures Chain(u) == Without(Chain(t), k)
  {
    var c, d := Chain(t), Chain(u);
    assert forall j :: 0 <= j < |d| ==> d[j] == if j < k then c[j] else c[j + 1];
  }

  lemma PastUntouched(m: Mem, m': Mem, C: seq<int>, b: int, f: int, c: int)
    requires m' == LinkPast(m, b, f) && b in C && f in C
    ensures Untouched(m, m', Elems(C), c)
  {
    assert b in Elems(C) && f in Elems(C);
    assert InNodes(Elems(C), b + 16) && InNodes(Elems(C), f + 24);
  }

  lemma LinkPastTags(m: Mem, m': Mem, C: seq<int>, b: int, f: int, D: map<int, int>)
    requires m' == LinkPast(m, b, f) && Apart(D) && Elems(C) <= D.Keys && b in C && f in C
    ensures forall k :: 0 <= k < |C| ==> SameTags(m, m', C[k])
  {
    assert b in Elems(C) && f in Elems(C);
    forall k | 0 <= k < |C| ensures SameTags(m, m', C[k]) {
      assert C[k] in Elems(C);
    }
  }

  lemma ShrunkChain(m: Mem, m': Mem, C: seq<int>, k: int, s: int, idx: int)
    requires 1 <= k < |C| && Ring(m', Without(C, k)) && ChainOK(m, C, s, idx)
    requires forall j :: 0 <= j < |C| ==> SameTags(m, m', C[j])
    ensures ChainOK(m', Without(C, k), s, idx)
  {
    var d := Without(C, k);
    forall j | 0 <= j < |d| ensures Tagged(m', d[j], s, idx) && (j >= 1 ==> Unhooked(m', d[j])) {
      var i := if j < k then j else j + 1;
      assert d[j] == C[i];
      assert SameTags(m, m', C[i]) && Tagged(m, C[i], s, idx);
    }
  }

  // ---- removing from the whole tree ----

  /** At the located node, the writes turn the image of that subtree into the image of it without x. */
  lemma UnlinkHere(m: Mem, t: Tree, x: int, par: int, idx: int, lo: int, w: nat, c: int, D: map<int, int>)
    requires t.Node? && Rep(m, t, par, idx) && Shape(t, lo, w) && Holds(t, D) && Apart(D)
    requires x in Chain(t) && Distinct(Chain(t)) && Distinct(t.ring) && Clear(c, Members(t)) && Rd(m, c) == Root(t)
    ensures Rep(UnlinkAt(m, t, x, c, par), Remove(t, x, t.s, lo, w), par, idx)
    ensures Rd(UnlinkAt(m, t, x, c, par), c) == Root(Remove(t, x, t.s, lo, w))
    ensures Untouched(m, UnlinkAt(m, t, x, c, par), Members(t), c)
  {
    hide *;
    RemoveHere(t, x, lo, w);
    if x == t.a {
      if t.ring != [] {
        RemoveChainedRoot(m, t, par, idx, lo, w, c, D);
      } else {
        RemoveLoneRoot(m, t, par, idx, lo, w, c, D);
      }
    } else {
      RemoveChained(m, t, x, par, idx, lo, w, c, D);
    }
  }

  lemma RemoveHere(t: Tree, x: int, lo: int, w: nat)
    requires t.Node? && x in Chain(t)
    ensures x == t.a ==> Remove(t, x, t.s, lo, w) == RemoveRoot(t)
    ensures x != t.a ==> x in t.ring && Remove(t, x, t.s, lo, w) == t.(ring := DropFromRing(t.ring, x))
    ensures x != t.a ==> Root(Remove(t, x, t.s, lo, w)) == Root(t)
  {
  }

  function UnlinkMem(m: Mem, t: Tree, x: int, S: int, lo: int, w: nat, c: int, par: int): Mem {
    var p := Locate(t, S, lo, w, c, par);
    if p.t.Node? then UnlinkAt(m, p.t, x, p.c, p.par) else m
  }

  lemma LocateUnfold(m: Mem, t: Tree, x: int, S: int, lo: int, w: nat, c: int, par: int)
    requires t.Node?
    ensures t.s == S ==> Locate(t, S, lo, w, c, par) == Spot(t, c, par)
    ensures t.s == S ==> UnlinkMem(m, t, x, S, lo, w, c, par) == UnlinkAt(m, t, x, c, par)
    ensures t.s != S && w > 0 && S < lo + Pow2(w - 1) ==>
      Locate(t, S, lo, w, c, par) == Locate(t.l, S, lo, w - 1, t.a + 32, t.a)
      && UnlinkMem(m, t, x, S, lo, w, c, par) == UnlinkMem(m, t.l, x, S, lo, w - 1, t.a + 32, t.a)
    ensures t.s != S && w > 0 && S >= lo + Pow2(w - 1) ==>
      Locate(t, S, lo, w, c, par) == Locate(t.r, S, lo + Pow2(w - 1), w - 1, t.a + 40, t.a)
      && UnlinkMem(m, t, x, S, lo, w, c, par) == UnlinkMem(m, t.r, x, S, lo + Pow2(w - 1), w - 1, t.a + 40, t.a)
  {
  }

  lemma ChainsUnfold(t: Tree)
    requires t.Node? && ChainsDistinct(t)
    ensures Distinct(Chain(t)) && Distinct(t.ring) && ChainsDistinct(t.l) && ChainsDistinct(t.r)
  {
  }

  lemma {:induction false} RepChainsDistinct(m: Mem, t: Tree, par: int, idx: int)
    requires Rep(m, t, par, idx)
    ensures ChainsDistinct(t)
  {
    if t.Node? {
      forall i, j | 0 <= i < j < |t.ring| ensures t.ring[i] != t.ring[j] {
        assert Chain(t)[i + 1] != Chain(t)[j + 1];
      }
      RepChainsDistinct(m, t.l, t.a, idx);
      RepChainsDistinct(m, t.r, t.a, idx);
    }
  }

  /** Unlinking x turns the image of t into the image of t with x removed. */
  lemma {:induction false} UnlinkSpec(m: Mem, t: Tree, x: int, S: int, idx: int, lo: int, w: nat, c: int, par: int,
                                      D: map<int, int>)
    requires Rep(m, t, par, idx) && Shape(t, lo, w) && Holds(t, D) && Apart(D)
    requires x in Members(t) && x in D && D[x] == S
    requires Clear(c, Members(t)) && Rd(m, c) == Root(t)
    ensures Rep(UnlinkMem(m, t, x, S, lo, w, c, par), Remove(t, x, S, lo, w), par, idx)
    ensures Rd(UnlinkMem(m, t, x, S, lo, w, c, par), c) == Root(Remove(t, x, S, lo, w))
    ensures Untouched(m, UnlinkMem(m, t, x, S, lo, w, c, par), Members(t), c)
    decreases t
  {
    hide *;
    IsNode(t, x);
    NodeFacts(t, lo, w, D);
    RepParts(m, t, par, idx);
    Located(t, x, lo, w, D);
    LocateUnfold(m, t, x, S, lo, w, c, par);
    var m' := UnlinkMem(m, t, x, S, lo, w, c, par);
    if t.s == S {
      RepChainsDistinct(m, t, par, idx);
      ChainsUnfold(t);
      UnlinkHere(m, t, x, par, idx, lo, w, c, D);
    } else {
      RemoveStep(t, x, S, lo, w);
      RootOfNode(Remove(t, x, S, lo, w));
      RootOfNode(t);
      if S < lo + Pow2(w - 1) {
        NodeWordClear(t.a, t.a + 32, Members(t.l), D);
        UnlinkSpec(m, t.l, x, S, idx, lo, w - 1, t.a + 32, t.a, D);
        var u := t.(l := Remove(t.l, x, S, lo, w - 1));
        ChildChanged(m, m', t, u, par, idx, Members(t.l), t.a + 32, D);
        NodeWordClear(t.a, t.a + 32, Members(t.r), D);
        RepOutside(m, m', Members(t.l), t.a + 32, t.r, t.a, idx, D);
        RepWhole(m', u, par, idx);
        NodeWordIn(t, t.a + 32);
        UntouchedGrows(m, m', Members(t.l), t.a + 32, Members(t), c);
        SlotUntouched(m, m', Members(t.l), t.a + 32, Members(t), c, t.a);
      } else {
        NodeWordClear(t.a, t.a + 40, Members(t.r), D);
        UnlinkSpec(m, t.r, x, S, idx, lo + Pow2(w - 1), w - 1, t.a + 40, t.a, D);
        var u := t.(r := Remove(t.r, x, S, lo + Pow2(w - 1), w - 1));
        ChildChanged(m, m', t, u, par, idx, Members(t.r), t.a + 40, D);
        NodeWordClear(t.a, t.a + 40, Members(t.l), D);
        RepOutside(m, m', Members(t.r), t.a + 40, t.l, t.a, idx, D);
        RepWhole(m', u, par, idx);
        NodeWordIn(t, t.a + 40);
        UntouchedGrows(m, m', Members(t.r), t.a + 40, Members(t), c);
        SlotUntouched(m, m', Members(t.r), t.a + 40, Members(t), c, t.a);
      }
    }
  }

  /** What the source reads to find x's slot: x's parent word, and which child word of the parent points at x. */
  lemma {:induction false} LocateSpec(m: Mem, t: Tree, x: int, S: int, idx: int, lo: int, w: nat, c: int, par: int,
                                      D: map<int, int>)
    requires Rep(m, t, par, idx) && Shape(t, lo, w) && Holds(t, D)
    requires x in Members(t) && x in D && D[x] == S && Rd(m, c) == Root(t)
    ensures var p := Locate(t, S, lo, w, c, par);
            p.t.Node? && p.t.s == S && x in Chain(p.t) && Rep(m, p.t, p.par, idx) && Rd(m, p.c) == p.t.a
            && (p.t == t ==> p.c == c && p.par == par)
            && Members(p.t) <= Members(t)
            && (p.t != t ==> p.par in Members(t) && p.par !in Members(p.t) && p.t.a in Members(t) && p.t.a != t.a
                             && (p.c == p.par + 32 || (p.c == p.par + 40 && Rd(m, p.par + 32) != p.t.a)))
    decreases t
  {
    hide *;
    IsNode(t, x);
    NodeFacts(t, lo, w, D);
    RepParts(m, t, par, idx);
    Located(t, x, lo, w, D);
    LocateUnfold(m, t, x, S, lo, w, c, par);
    RootOfNode(t);
    if t.s != S {
      if S < lo + Pow2(w - 1) {
        LocateSpec(m, t.l, x, S, idx, lo, w - 1, t.a + 32, t.a, D);
        IsNode(t.l, x);
        NodeWordIn(t.l, t.l.a + 16);
      } else {
        LocateSpec(m, t.r, x, S, idx, lo + Pow2(w - 1), w - 1, t.a + 40, t.a, D);
        IsNode(t.r, x);
        NodeWordIn(t.r, t.r.a + 16);
        RootOfNode(t.r);
        RepParts(m, t.r, t.a, idx);
        LeftRootDiffers(t);
      }
    }
  }

  lemma LeftRootDiffers(t: Tree)
    requires t.Node? && t.r.Node? && Members(t.l) !! Members(t.r) && t.r.a > 0
    ensures Root(t.l) != t.r.a
  {
    assert t.r.a == Chain(t.r)[0] && t.r.a in Members(t.r);
    if t.l.Node? { assert t.l.a == Chain(t.l)[0] && t.l.a in Members(t.l); }
  }
}
