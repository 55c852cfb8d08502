/**
 * The treebins as values: binary tries of distinct sizes, each node heading a chain of chunks of its size.
 * A subtree covers the sizes in [lo, lo + 2^w); its left half hangs on the left, its right half on the right,
 * and the node at its root is anywhere in the range.
 */
module Tries {
  import opened Sequences
  import opened Words

  datatype Tree = Leaf | Node(a: int, s: int, ring: seq<int>, l: Tree, r: Tree)

  function Root(t: Tree): int {
    if t.Leaf? then 0 else t.a
  }

  function Chain(t: Tree): seq<int>
    requires t.Node?
  {
    [t.a] + t.ring
  }

  ghost function Elems(c: seq<int>): set<int> {
    set x | x in c
  }

  /** Every chunk in the tree, chained ones included. */
  ghost function Members(t: Tree): set<int> {
    if t.Leaf? then {} else Elems(Chain(t)) + Members(t.l) + Members(t.r)
  }

  ghost function SizesOf(t: Tree): set<int> {
    if t.Leaf? then {} else {t.s} + SizesOf(t.l) + SizesOf(t.r)
  }

  /** The trie ordering, with each size at one node only. */
  ghost predicate Shape(t: Tree, lo: int, w: nat)
    decreases t
  {
    t.Node? ==>
      && lo <= t.s < lo + Pow2(w)
      && t.s !in SizesOf(t.l)
      && t.s !in SizesOf(t.r)
      && (w == 0 ==> t.l.Leaf? && t.r.Leaf?)
      && (w > 0 ==> Shape(t.l, lo, w - 1) && Shape(t.r, lo + Pow2(w - 1), w - 1))
  }

  /** The tree's chunks have the sizes that D records for them. */
  ghost predicate Holds(t: Tree, D: map<int, int>) {
    t.Node? ==>
      && (forall x :: x in Chain(t) ==> x in D && D[x] == t.s)
      && Holds(t.l, D)
      && Holds(t.r, D)
  }

  lemma {:induction false} HoldsMembers(t: Tree, D: map<int, int>)
    requires Holds(t, D)
    ensures forall x :: x in Members(t) ==> x in D && D[x] in SizesOf(t)
  {
    if t.Node? {
      HoldsMembers(t.l, D);
      HoldsMembers(t.r, D);
    }
  }

  lemma {:induction false} HoldsExtends(t: Tree, D: map<int, int>, E: map<int, int>)
    requires Holds(t, D)
    requires forall x :: x in Members(t) ==> x in E && (x in D ==> E[x] == D[x])
    ensures Holds(t, E)
  {
    if t.Node? {
      forall x | x in Chain(t) ensures x in E && E[x] == t.s {
        assert x in Members(t);
      }
      HoldsExtends(t.l, D, E);
      HoldsExtends(t.r, D, E);
    }
  }

  lemma {:induction false} ShapeSizes(t: Tree, lo: int, w: nat)
    requires Shape(t, lo, w)
    ensures forall s :: s in SizesOf(t) ==> lo <= s < lo + Pow2(w)
    decreases t
  {
    if t.Node? && w > 0 {
      ShapeSizes(t.l, lo, w - 1);
      ShapeSizes(t.r, lo + Pow2(w - 1), w - 1);
    }
  }

  lemma {:induction false} ShapeWidens(t: Tree, lo: int, w: nat)
    requires Shape(t, lo, w)
    ensures t.Node? ==> forall s :: s in SizesOf(t.l) && w > 0 ==> lo <= s < lo + Pow2(w - 1)
    ensures t.Node? ==> forall s :: s in SizesOf(t.r) && w > 0 ==> lo + Pow2(w - 1) <= s < lo + Pow2(w)
  {
    if t.Node? && w > 0 {
      ShapeSizes(t.l, lo, w - 1);
      ShapeSizes(t.r, lo + Pow2(w - 1), w - 1);
    }
  }

  // ---- insertion ----

  function Insert(t: Tree, x: int, S: int, lo: int, w: nat): Tree
    decreases t
  {
    match t
    case Leaf => Node(x, S, [], Leaf, Leaf)
    case Node(a, s, ring, l, r) =>
      if s == S then Node(a, s, [x] + ring, l, r)
      else if w == 0 then t
      else if S < lo + Pow2(w - 1) then Node(a, s, ring, Insert(l, x, S, lo, w - 1), r)
      else Node(a, s, ring, l, Insert(r, x, S, lo + Pow2(w - 1), w - 1))
  }

  /** Where the descent for size S stops: an empty child word, or the node that heads S's chain. */
  datatype Slot = At(c: int, par: int) | Behind(a: int)

  function FindSlot(t: Tree, S: int, lo: int, w: nat, c: int, par: int): Slot
    decreases t
  {
    if t.Leaf? then At(c, par)
    else if t.s == S then Behind(t.a)
    else if w == 0 then At(c, par)
    else if S < lo + Pow2(w - 1) then FindSlot(t.l, S, lo, w - 1, t.a + 32, t.a)
    else FindSlot(t.r, S, lo + Pow2(w - 1), w - 1, t.a + 40, t.a)
  }

  /** Inserting adds the one chunk and the one size and keeps the trie. */
  lemma {:induction false} InsertSpec(t: Tree, x: int, S: int, lo: int, w: nat)
    requires Shape(t, lo, w) && lo <= S < lo + Pow2(w)
    ensures Shape(Insert(t, x, S, lo, w), lo, w)
    ensures Members(Insert(t, x, S, lo, w)) == Members(t) + {x}
    ensures SizesOf(Insert(t, x, S, lo, w)) == SizesOf(t) + {S}
    decreases t
  {
    if t.Node? {
      if t.s == S {
        assert Elems([t.a] + ([x] + t.ring)) == Elems(Chain(t)) + {x};
      } else if S < lo + Pow2(w - 1) {
        InsertSpec(t.l, x, S, lo, w - 1);
      } else {
        InsertSpec(t.r, x, S, lo + Pow2(w - 1), w - 1);
      }
    } else {
      assert Elems([x] + []) == {x};
    }
  }

  lemma {:induction false} InsertHolds(t: Tree, x: int, S: int, lo: int, w: nat, D: map<int, int>)
    requires Shape(t, lo, w) && lo <= S < lo + Pow2(w)
    requires Holds(t, D) && x in D && D[x] == S
    ensures Holds(Insert(t, x, S, lo, w), D)
    decreases t
  {
    if t.Node? && t.s != S {
      if S < lo + Pow2(w - 1) {
        InsertHolds(t.l, x, S, lo, w - 1, D);
      } else {
        InsertHolds(t.r, x, S, lo + Pow2(w - 1), w - 1, D);
      }
    }
  }

  // ---- removal ----

  predicate IsTip(t: Tree) {
    t.Node? && t.l.Leaf? && t.r.Leaf?
  }

  /** The leaf reached by going right when possible and left otherwise. */
  function RightTip(t: Tree): (q: Tree)
    requires t.Node?
    ensures q.Node? && IsTip(q)
  {
    if t.r.Node? then RightTip(t.r)
    else if t.l.Node? then RightTip(t.l)
    else t
  }

  function DropTip(t: Tree): Tree
    requires t.Node?
  {
    if t.r.Node? then t.(r := DropTip(t.r))
    else if t.l.Node? then t.(l := DropTip(t.l))
    else Leaf
  }

  /** The child word through which that leaf is reached, when t itself is reached through c. */
  function TipSlot(t: Tree, c: int): int
    requires t.Node?
  {
    if t.r.Node? then TipSlot(t.r, t.a + 40)
    else if t.l.Node? then TipSlot(t.l, t.a + 32)
    else c
  }

  /** Remove the root chunk: by the last of its chain, or by the rightmost leaf below it. */
  function RemoveRoot(t: Tree): (u: Tree)
    requires t.Node?
    ensures t.ring != [] ==> u.Node?
  {
    if t.ring != [] then
      Node(t.ring[|t.ring| - 1], t.s, t.ring[..|t.ring| - 1], t.l, t.r)
    else if t.r.Node? then
      var q := RightTip(t.r);
      Node(q.a, q.s, q.ring, t.l, DropTip(t.r))
    else if t.l.Node? then
      var q := RightTip(t.l);
      Node(q.a, q.s, q.ring, DropTip(t.l), Leaf)
    else
      Leaf
  }

  ghost function DropFromRing(ring: seq<int>, x: int): seq<int>
    requires x in ring
  {
    var k :| 0 <= k < |ring| && ring[k] == x;
    ring[..k] + ring[k + 1..]
  }

  ghost function Remove(t: Tree, x: int, S: int, lo: int, w: nat): Tree
    decreases t
  {
    if t.Leaf? then Leaf
    else if t.s == S then
      if x == t.a then RemoveRoot(t)
      else if x in t.ring then t.(ring := DropFromRing(t.ring, x))
      else t
    else if w == 0 then t
    else if S < lo + Pow2(w - 1) then t.(l := Remove(t.l, x, S, lo, w - 1))
    else t.(r := Remove(t.r, x, S, lo + Pow2(w - 1), w - 1))
  }

  lemma {:induction false} DropTipSpec(t: Tree, lo: int, w: nat, D: map<int, int>)
    requires t.Node? && Shape(t, lo, w) && Holds(t, D)
    ensures Shape(DropTip(t), lo, w) && Holds(DropTip(t), D)
    ensures RightTip(t).s in SizesOf(t) && RightTip(t).s !in SizesOf(DropTip(t))
    ensures SizesOf(DropTip(t)) + {RightTip(t).s} == SizesOf(t)
    ensures Members(t) == Members(DropTip(t)) + Elems(Chain(RightTip(t)))
    ensures forall x :: x in Chain(RightTip(t)) ==> x in D && D[x] == RightTip(t).s
    decreases t
  {
    hide *;
    TipStep(t);
    MembersOfNode(t);
    Halves(t, lo, w, D);
    HoldsHere(t, D);
    ShapeHere(t, lo, w);
    if t.r.Node? {
      DropTipSpec(t.r, lo + Pow2(w - 1), w - 1, D);
      NewRoot(t.l, DropTip(t.r), t, lo, w, D);
    } else if t.l.Node? {
      DropTipSpec(t.l, lo, w - 1, D);
      NewRoot(DropTip(t.l), t.r, t, lo, w, D);
    } else {
      LeafFacts(lo, w, D);
    }
  }

  lemma TipStep(t: Tree)
    requires t.Node?
    ensures RightTip(t) == if t.r.Node? then RightTip(t.r) else if t.l.Node? then RightTip(t.l) else t
    ensures DropTip(t) ==
      if t.r.Node? then Node(t.a, t.s, t.ring, t.l, DropTip(t.r))
      else if t.l.Node? then Node(t.a, t.s, t.ring, DropTip(t.l), t.r)
      else Leaf
  {
  }

  lemma HoldsHere(t: Tree, D: map<int, int>)
    requires t.Node? && Holds(t, D)
    ensures forall x :: x in Chain(t) ==> x in D && D[x] == t.s
  {
  }

  lemma ShapeHere(t: Tree, lo: int, w: nat)
    requires t.Node? && Shape(t, lo, w)
    ensures lo <= t.s < lo + Pow2(w)
  {
  }

  /** Replacing the root keeps the trie and takes away exactly the root chunk. */
  lemma RemoveRootSpec(t: Tree, lo: int, w: nat, D: map<int, int>)
    requires t.Node? && Shape(t, lo, w) && Holds(t, D)
    requires t.a !in t.ring
    ensures Shape(RemoveRoot(t), lo, w) && Holds(RemoveRoot(t), D)
    ensures Members(RemoveRoot(t)) == Members(t) - {t.a}
    ensures SizesOf(RemoveRoot(t)) <= SizesOf(t)
  {
    NotBelow(t, lo, w, D);
    if t.ring != [] {
      var n := |t.ring|;
      assert t.ring == t.ring[..n - 1] + [t.ring[n - 1]];
      assert Elems(Chain(RemoveRoot(t))) == Elems(Chain(t)) - {t.a};
    } else {
      PromoteSpec(t, lo, w, D);
    }
  }

  lemma PromoteSpec(t: Tree, lo: int, w: nat, D: map<int, int>)
    requires t.Node? && Shape(t, lo, w) && Holds(t, D)
    requires t.ring == [] && t.a !in Members(t.l) && t.a !in Members(t.r)
    ensures Shape(RemoveRoot(t), lo, w) && Holds(RemoveRoot(t), D)
    ensures Members(RemoveRoot(t)) == Members(t) - {t.a}
    ensures SizesOf(RemoveRoot(t)) <= SizesOf(t)
  {
    hide *;
    RemoveRootIs(t);
    MembersOfNode(t);
    Halves(t, lo, w, D);
    if t.r.Node? {
      DropTipSpec(t.r, lo + Pow2(w - 1), w - 1, D);
      NewRoot(t.l, DropTip(t.r), RightTip(t.r), lo, w, D);
    } else if t.l.Node? {
      DropTipSpec(t.l, lo, w - 1, D);
      NewRoot(DropTip(t.l), Leaf, RightTip(t.l), lo, w, D);
    } else {
      LeafFacts(lo, w, D);
    }
  }

  lemma RemoveRootIs(t: Tree)
    requires t.Node? && t.ring == []
    ensures RemoveRoot(t) ==
      if t.r.Node? then Node(RightTip(t.r).a, RightTip(t.r).s, RightTip(t.r).ring, t.l, DropTip(t.r))
      else if t.l.Node? then Node(RightTip(t.l).a, RightTip(t.l).s, RightTip(t.l).ring, DropTip(t.l), Leaf)
      else Leaf
    ensures Elems(Chain(t)) == {t.a}
  {
  }

  /** The two subtrees of a node that has one: their shapes and ranges. */
  lemma Halves(t: Tree, lo: int, w: nat, D: map<int, int>)
    requires t.Node? && Shape(t, lo, w) && Holds(t, D)
    ensures Holds(t.l, D) && Holds(t.r, D) && Holds(Leaf, D) && Members(Leaf) == {} && SizesOf(Leaf) == {}
    ensures SizesOf(t) == {t.s} + SizesOf(t.l) + SizesOf(t.r) && t.s !in SizesOf(t.l) && t.s !in SizesOf(t.r)
    ensures t.l.Node? || t.r.Node? ==> w > 0
    ensures w > 0 ==> Shape(t.l, lo, w - 1) && Shape(t.r, lo + Pow2(w - 1), w - 1)
                      && Shape(Leaf, lo + Pow2(w - 1), w - 1)
    ensures w > 0 ==> Pow2(w) == 2 * Pow2(w - 1)
    ensures w > 0 ==> forall s :: s in SizesOf(t.l) ==> lo <= s < lo + Pow2(w - 1)
    ensures w > 0 ==> forall s :: s in SizesOf(t.r) ==> lo + Pow2(w - 1) <= s < lo + Pow2(w)
  {
    ShapeWidens(t, lo, w);
  }

  lemma LeafFacts(lo: int, w: nat, D: map<int, int>)
    ensures Shape(Leaf, lo, w) && Holds(Leaf, D) && Members(Leaf) == {} && SizesOf(Leaf) == {}
  {
  }

  /** A node may head any two subtrees of the right ranges that lack its size. */
  lemma NewRoot(l: Tree, r: Tree, q: Tree, lo: int, w: nat, D: map<int, int>)
    requires w > 0 && Shape(l, lo, w - 1) && Shape(r, lo + Pow2(w - 1), w - 1)
    requires q.Node? && lo <= q.s < lo + Pow2(w) && q.s !in SizesOf(l) && q.s !in SizesOf(r)
    requires Holds(l, D) && Holds(r, D) && forall x :: x in Chain(q) ==> x in D && D[x] == q.s
    ensures Shape(Node(q.a, q.s, q.ring, l, r), lo, w) && Holds(Node(q.a, q.s, q.ring, l, r), D)
    ensures Members(Node(q.a, q.s, q.ring, l, r)) == Elems(Chain(q)) + Members(l) + Members(r)
    ensures SizesOf(Node(q.a, q.s, q.ring, l, r)) == {q.s} + SizesOf(l) + SizesOf(r)
  {
    assert Chain(Node(q.a, q.s, q.ring, l, r)) == Chain(q);
  }

  /** The root's chunks have a size of their own, so none of them is in a subtree. */
  lemma NotBelow(t: Tree, lo: int, w: nat, D: map<int, int>)
    requires t.Node? && Shape(t, lo, w) && Holds(t, D)
    ensures forall x :: x in Chain(t) ==> x !in Members(t.l) && x !in Members(t.r)
    ensures Members(t.l) !! Members(t.r)
  {
    HoldsMembers(t.l, D);
    HoldsMembers(t.r, D);
    ShapeWidens(t, lo, w);
    if w > 0 {
      forall x | x in Members(t.l) ensures x !in Members(t.r) {
        var s := D[x];
        assert s in SizesOf(t.l) && s < lo + Pow2(w - 1);
      }
    }
  }

  lemma RemoveHereSpec(t: Tree, x: int, lo: int, w: nat, D: map<int, int>)
    requires t.Node? && Shape(t, lo, w) && Holds(t, D) && ChainsDistinct(t)
    requires x in Members(t) && x in D && D[x] == t.s
    ensures Shape(Remove(t, x, t.s, lo, w), lo, w) && Holds(Remove(t, x, t.s, lo, w), D)
    ensures Members(Remove(t, x, t.s, lo, w)) == Members(t) - {x}
    ensures SizesOf(Remove(t, x, t.s, lo, w)) <= SizesOf(t)
  {
    hide *;
    Located(t, x, lo, w, D);
    MembersOfNode(t);
    NotBelow(t, lo, w, D);
    RemoveHereIs(t, x, lo, w);
    if x == t.a {
      HeadOnce(t);
      RemoveRootSpec(t, lo, w, D);
    } else {
      RingSplit(t, x);
      var u := t.(ring := DropFromRing(t.ring, x));
      DropFromRingSpec(t.ring, x);
      ChainElems(t);
      ChainElems(u);
      HoldsHere(t, D);
      ShapeHere(t, lo, w);
      SameChildren(t, u, lo, w, D);
    }
  }

  lemma RemoveHereIs(t: Tree, x: int, lo: int, w: nat)
    requires t.Node?
    ensures x == t.a ==> Remove(t, x, t.s, lo, w) == RemoveRoot(t)
    ensures x != t.a && x in t.ring ==> Remove(t, x, t.s, lo, w) == t.(ring := DropFromRing(t.ring, x))
  {
  }

  lemma HeadOnce(t: Tree)
    requires t.Node? && ChainsDistinct(t)
    ensures t.a !in t.ring
  {
    forall k | 0 <= k < |t.ring| ensures t.ring[k] != t.a {
      assert Chain(t)[0] != Chain(t)[k + 1];
    }
  }

  lemma RingSplit(t: Tree, x: int)
    requires t.Node? && ChainsDistinct(t) && x in Chain(t) && x != t.a
    ensures x in t.ring && Distinct(t.ring)
  {
  }

  lemma ChainElems(t: Tree)
    requires t.Node?
    ensures Elems(Chain(t)) == {t.a} + Elems(t.ring) && forall y :: y in Chain(t) <==> y in Elems(Chain(t))
  {
  }

  /** A node with other chunks of its size in its chain. */
  lemma SameChildren(t: Tree, u: Tree, lo: int, w: nat, D: map<int, int>)
    requires t.Node? && Shape(t, lo, w) && Holds(t, D) && u.Node? && u.s == t.s && u.l == t.l && u.r == t.r
    requires forall x :: x in Chain(u) ==> x in D && D[x] == u.s
    ensures Shape(u, lo, w) && Holds(u, D) && SizesOf(u) == SizesOf(t)
    ensures Members(u) == Elems(Chain(u)) + Members(t.l) + Members(t.r)
  {
  }

  /** A member is in the chain, the left subtree or the right subtree, as its size says, and in no other. */
  lemma Located(t: Tree, x: int, lo: int, w: nat, D: map<int, int>)
    requires t.Node? && Shape(t, lo, w) && Holds(t, D)
    requires x in Members(t)
    ensures x in D && D[x] in SizesOf(t) && (x in Chain(t) <==> D[x] == t.s)
    ensures D[x] != t.s ==> w > 0
    ensures D[x] != t.s && D[x] < lo + Pow2(w - 1) ==> x in Members(t.l) && x !in Members(t.r)
    ensures D[x] != t.s && D[x] >= lo + Pow2(w - 1) ==> x in Members(t.r) && x !in Members(t.l)
  {
    HoldsMembers(t.l, D);
    HoldsMembers(t.r, D);
    ShapeWidens(t, lo, w);
    NotBelow(t, lo, w, D);
  }

  lemma Subtrees(t: Tree, lo: int, w: nat, D: map<int, int>)
    requires t.Node? && w > 0 && Shape(t, lo, w) && Holds(t, D) && ChainsDistinct(t)
    ensures Shape(t.l, lo, w - 1) && Holds(t.l, D) && ChainsDistinct(t.l)
    ensures Shape(t.r, lo + Pow2(w - 1), w - 1) && Holds(t.r, D) && ChainsDistinct(t.r)
  {
  }

  lemma MembersOfNode(t: Tree)
    ensures t.Node? ==> Members(t) == Elems(Chain(t)) + Members(t.l) + Members(t.r)
    ensures t.Node? ==> (forall y :: y in Elems(Chain(t)) <==> y in Chain(t)) && Chain(t) == [t.a] + t.ring
  {
  }

  lemma {:induction false} RemoveElement(t: Tree, x: int, S: int, lo: int, w: nat, D: map<int, int>, y: int)
    requires Shape(t, lo, w) && Holds(t, D) && ChainsDistinct(t)
    requires x in Members(t) && x in D && D[x] == S
    ensures y in Members(Remove(t, x, S, lo, w)) <==> y in Members(t) && y != x
    decreases t
  {
    hide *;
    IsNode(t, x);
    Located(t, x, lo, w, D);
    if t.s == S {
      RemoveHereSpec(t, x, lo, w, D);
    } else {
      Subtrees(t, lo, w, D);
      RemoveStep(t, x, S, lo, w);
      MembersOfNode(t);
      MembersOfNode(Remove(t, x, S, lo, w));
      if S < lo + Pow2(w - 1) {
        RemoveElement(t.l, x, S, lo, w - 1, D, y);
      } else {
        RemoveElement(t.r, x, S, lo + Pow2(w - 1), w - 1, D, y);
      }
    }
  }

  lemma IsNode(t: Tree, x: int)
    requires x in Members(t)
    ensures t.Node?
  {
  }

  /** Removal takes away exactly the named chunk. */
  lemma RemoveMembers(t: Tree, x: int, S: int, lo: int, w: nat, D: map<int, int>)
    requires Shape(t, lo, w) && Holds(t, D) && ChainsDistinct(t)
    requires x in Members(t) && x in D && D[x] == S
    ensures Members(Remove(t, x, S, lo, w)) == Members(t) - {x}
  {
    hide *;
    forall y ensures y in Members(Remove(t, x, S, lo, w)) <==> y in Members(t) && y != x {
      RemoveElement(t, x, S, lo, w, D, y);
    }
  }

  lemma RemoveStep(t: Tree, x: int, S: int, lo: int, w: nat)
    requires t.Node? && t.s != S && w > 0
    ensures Remove(t, x, S, lo, w) ==
      if S < lo + Pow2(w - 1) then t.(l := Remove(t.l, x, S, lo, w - 1))
      else t.(r := Remove(t.r, x, S, lo + Pow2(w - 1), w - 1))
  {
  }

  /** Removal keeps the trie ordering and the recorded sizes. */
  lemma {:induction false} RemoveKeepsShape(t: Tree, x: int, S: int, lo: int, w: nat, D: map<int, int>)
    requires Shape(t, lo, w) && Holds(t, D) && ChainsDistinct(t)
    requires x in Members(t) && x in D && D[x] == S
    ensures Shape(Remove(t, x, S, lo, w), lo, w) && Holds(Remove(t, x, S, lo, w), D)
    ensures SizesOf(Remove(t, x, S, lo, w)) <= SizesOf(t)
    decreases t
  {
    hide *;
    IsNode(t, x);
    Located(t, x, lo, w, D);
    if t.s == S {
      RemoveHereSpec(t, x, lo, w, D);
    } else {
      Subtrees(t, lo, w, D);
      RemoveStep(t, x, S, lo, w);
      Halves(t, lo, w, D);
      HoldsHere(t, D);
      ShapeHere(t, lo, w);
      if S < lo + Pow2(w - 1) {
        RemoveKeepsShape(t.l, x, S, lo, w - 1, D);
        NewRoot(Remove(t.l, x, S, lo, w - 1), t.r, t, lo, w, D);
      } else {
        RemoveKeepsShape(t.r, x, S, lo + Pow2(w - 1), w - 1, D);
        NewRoot(t.l, Remove(t.r, x, S, lo + Pow2(w - 1), w - 1), t, lo, w, D);
      }
    }
  }

  ghost predicate ChainsDistinct(t: Tree) {
    t.Node? ==> Distinct(Chain(t)) && Distinct(t.ring) && ChainsDistinct(t.l) && ChainsDistinct(t.r)
  }

  lemma DropFromRingSpec(ring: seq<int>, x: int)
    requires x in ring && Distinct(ring)
    ensures Elems(DropFromRing(ring, x)) == Elems(ring) - {x}
  {
    var k :| 0 <= k < |ring| && ring[k] == x && DropFromRing(ring, x) == ring[..k] + ring[k + 1..];
    var d := DropFromRing(ring, x);
    assert forall j :: 0 <= j < |ring| && j != k ==> ring[j] in d by {
      forall j | 0 <= j < |ring| && j != k ensures ring[j] in d {
        if j < k { assert d[j] == ring[j]; } else { assert d[j - 1] == ring[j]; }
      }
    }
  }
}
