/** Circular doubly linked lists through the fd and bk words of chunks, refined to sequences. */
module Rings {
  import opened Memory
  import opened Sequences

  function Nxt(n: int, k: int): int {
    if k + 1 == n then 0 else k + 1
  }

  ghost predicate Aligned(c: seq<int>) {
    forall k :: 0 <= k < |c| ==> c[k] % 16 == 0
  }

  /** fd links go once around c, and bk links go around the other way. */
  ghost predicate Ring(m: Mem, c: seq<int>) {
    && |c| > 0
    && Aligned(c)
    && Distinct(c)
    && forall k :: 0 <= k < |c| ==> Linked(m, c[k], c[Nxt(|c|, k)])
  }

  predicate Linked(m: Mem, x: int, y: int) {
    Rd(m, x + 16) == y && Rd(m, y + 24) == x
  }

  lemma RingFrame(m: Mem, m': Mem, c: seq<int>)
    requires Ring(m, c)
    requires forall k :: 0 <= k < |c| ==> Rd(m', c[k] + 16) == Rd(m, c[k] + 16) && Rd(m', c[k] + 24) == Rd(m, c[k] + 24)
    ensures Ring(m', c)
  {
    forall k | 0 <= k < |c|
      ensures Linked(m', c[k], c[Nxt(|c|, k)])
    {
      assert Linked(m, c[k], c[Nxt(|c|, k)]);
    }
  }

  lemma SingleRing(m: Mem, p: int)
    requires p % 16 == 0
    ensures Ring(m[p + 16 := p][p + 24 := p], [p])
  {
  }

  /** The writes that link p in just after b, where f follows b. */
  function LinkAfter(m: Mem, b: int, f: int, p: int): Mem {
    m[b + 16 := p][f + 24 := p][p + 16 := f][p + 24 := b]
  }

  /** The writes that close the gap between b and f. */
  function LinkPast(m: Mem, b: int, f: int): Mem {
    m[f + 24 := b][b + 16 := f]
  }

  lemma InsertAfterHead(m: Mem, c: seq<int>, p: int)
    requires Ring(m, c) && p !in c && p % 16 == 0
    ensures Ring(LinkAfter(m, c[0], Rd(m, c[0] + 16), p), [c[0], p] + c[1..])
  {
    var n := |c|;
    var b := c[0];
    var f := Rd(m, b + 16);
    var m' := LinkAfter(m, b, f, p);
    var d := [b, p] + c[1..];
    assert Linked(m, c[0], c[Nxt(n, 0)]);
    assert f == c[Nxt(n, 0)];
    assert Distinct(d);
    assert Aligned(d);
    forall k | 0 <= k < |d|
      ensures Linked(m', d[k], d[Nxt(|d|, k)])
    {
      if k >= 2 {
        assert Linked(m, c[k - 1], c[Nxt(n, k - 1)]);
      }
    }
  }

  ghost function Without(c: seq<int>, k: int): seq<int>
    requires 0 <= k < |c|
  {
    c[..k] + c[k + 1..]
  }

  lemma WithoutFacts(c: seq<int>, k: int)
    requires Aligned(c) && Distinct(c) && 0 <= k < |c|
    ensures |Without(c, k)| == |c| - 1 && Aligned(Without(c, k)) && Distinct(Without(c, k))
    ensures forall j :: 0 <= j < |c| - 1 ==> Without(c, k)[j] == c[if j < k then j else j + 1]
  {
    var d := Without(c, k);
    assert forall j :: 0 <= j < |d| ==> d[j] == c[if j < k then j else j + 1];
  }

  lemma RemoveAt(m: Mem, c: seq<int>, k: int)
    requires Ring(m, c) && |c| >= 2 && 0 <= k < |c|
    ensures Rd(m, c[k] + 16) != c[k] && Rd(m, c[k] + 24) != c[k]
    ensures Linked(m, c[k], Rd(m, c[k] + 16)) && Linked(m, Rd(m, c[k] + 24), c[k])
    ensures Ring(LinkPast(m, Rd(m, c[k] + 24), Rd(m, c[k] + 16)), Without(c, k))
  {
    var n := |c|;
    var prev := if k == 0 then n - 1 else k - 1;
    assert Linked(m, c[k], c[Nxt(n, k)]);
    assert Linked(m, c[prev], c[Nxt(n, prev)]);
    var f, b := Rd(m, c[k] + 16), Rd(m, c[k] + 24);
    assert f == c[Nxt(n, k)] && b == c[prev];
    assert c[prev] != c[k] && c[Nxt(n, k)] != c[k];
    var d := Without(c, k);
    WithoutFacts(c, k);
    hide Aligned, Without;
    forall j | 0 <= j < |d|
      ensures Linked(LinkPast(m, b, f), d[j], d[Nxt(|d|, j)])
    {
      StillLinked(m, c, k, if j < k then j else j + 1, prev);
    }
  }

  /** Closing the gap leaves every other link alone and links b with f. */
  lemma PastLinks(m: Mem, b: int, f: int, x: int, y: int)
    requires b % 16 == 0 && f % 16 == 0 && x % 16 == 0 && y % 16 == 0
    ensures Linked(m, x, y) && x != b && y != f ==> Linked(LinkPast(m, b, f), x, y)
    ensures Linked(LinkPast(m, b, f), b, f)
  {
  }

  /** The links of the ring that do not touch element k, and the one that skips it. */
  lemma StillLinked(m: Mem, c: seq<int>, k: int, i: int, prev: int)
    requires Ring(m, c) && |c| >= 2 && 0 <= k < |c| && 0 <= i < |c| && i != k
      && prev == if k == 0 then |c| - 1 else k - 1
    ensures Linked(LinkPast(m, c[prev], c[Nxt(|c|, k)]), c[i], c[if i == prev then Nxt(|c|, k) else Nxt(|c|, i)])
  {
    hide Linked, LinkPast;
    var n := |c|;
    assert Linked(m, c[i], c[Nxt(n, i)]);
    PastLinks(m, c[prev], c[Nxt(n, k)], c[i], c[Nxt(n, i)]);
    if i != prev { assert c[i] != c[prev] && c[Nxt(n, i)] != c[Nxt(n, k)]; }
  }

  /** The same ring read starting from its last element. */
  ghost function FromLast(c: seq<int>): seq<int>
    requires |c| > 0
  {
    [c[|c| - 1]] + c[..|c| - 1]
  }

  lemma Rotate(m: Mem, c: seq<int>)
    requires Ring(m, c)
    ensures Ring(m, FromLast(c))
  {
    var n, d := |c|, FromLast(c);
    assert Distinct(d) && Aligned(d);
    forall k | 0 <= k < n
      ensures Linked(m, d[k], d[Nxt(n, k)])
    {
      var i := if k == 0 then n - 1 else k - 1;
      assert d[k] == c[i];
      assert Linked(m, c[i], c[Nxt(n, i)]);
    }
  }
}
