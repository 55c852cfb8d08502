/**
 * Boundary tags: which chunks tile the heap, and the head and foot words that describe them.
 * A layout maps the address of each chunk to its kind, size and pinuse bit. Every chunk ends where another
 * begins, up to top or the fenceposts of its segment.
 */
module Layouts {
  import opened Memory
  import opened Sizes

  datatype Kind = Live | Free | Top | Record | Fence

  datatype Chunk = Chunk(kind: Kind, size: int, pin: bool)

  type Layout = map<int, Chunk>

  /** The cinuse bit of a chunk of this kind. */
  predicate Cin(k: Kind) {
    k.Live? || k.Record? || k.Fence?
  }

  function HeadOf(c: Chunk): int {
    HeadWord(c.size, Cin(c.kind), c.pin)
  }

  /** The bytes a chunk keeps others out of: top also owns the reserved foot of its segment. */
  function Extent(c: Chunk): int {
    if c.kind.Top? then c.size + TOP_FOOT_SIZE else c.size
  }

  predicate Sized(c: Chunk) {
    match c.kind
    case Top => c.size > 0 && c.size % 8 == 0 && c.pin
    case Fence => c.size == 8
    case Free => c.size >= MIN_CHUNK_SIZE && c.size % 16 == 0 && c.pin
    case _ => c.size >= MIN_CHUNK_SIZE && c.size % 16 == 0
  }

  predicate Placed(a: int, c: Chunk) {
    && a % 16 == 0 && HEAP_FLOOR <= a && a + Extent(c) <= ADDRESS_LIMIT
    && Sized(c)
  }

  /** The chunk is followed by a chunk whose pinuse bit reports it; free chunks have a foot and no free neighbour. */
  predicate Follows(m: Mem, L: Layout, a: int)
    requires a in L
  {
    var c := L[a];
    && (c.kind.Live? || c.kind.Free? || c.kind.Record? ==> a + c.size in L && L[a + c.size].pin == Cin(c.kind))
    && (c.kind.Free? ==> Rd(m, a + c.size) == c.size && Cin(L[a + c.size].kind))
    && (c.kind.Top? ==> Rd(m, a + c.size + 8) == TOP_FOOT_SIZE)
  }

  /** A clear pinuse bit means prev_foot leads back to a free chunk. */
  predicate Leads(m: Mem, L: Layout, a: int)
    requires a in L
  {
    !L[a].pin ==> Rd(m, a) > 0 && a - Rd(m, a) in L && L[a - Rd(m, a)].kind.Free? && L[a - Rd(m, a)].size == Rd(m, a)
  }

  ghost predicate Clears(L: Layout, a: int)
    requires a in L
  {
    forall b :: b in L && b > a ==> a + Extent(L[a]) <= b
  }

  ghost predicate At(m: Mem, L: Layout, a: int)
    requires a in L
  {
    && Placed(a, L[a])
    && Rd(m, a + 8) == HeadOf(L[a])
    && Follows(m, L, a)
    && Leads(m, L, a)
    && Clears(L, a)
  }

  ghost predicate LayoutOK(m: Mem, L: Layout) {
    forall a {:trigger At(m, L, a)} :: a in L ==> At(m, L, a)
  }

  // ---- retiling an interval ----

  /** All writes lie in [lo, hi). */
  ghost predicate Local(m: Mem, m': Mem, lo: int, hi: int) {
    forall w :: w < lo || w >= hi ==> Rd(m', w) == Rd(m, w)
  }

  ghost predicate SameOutside(L: Layout, L': Layout, q: int, n: int) {
    forall c :: c < q || c > n ==> (c in L <==> c in L') && (c in L ==> L'[c] == L[c])
  }

  ghost predicate SameWords(m: Mem, m': Mem, L: Layout, c: int)
    requires c in L
  {
    && Rd(m', c + 8) == Rd(m, c + 8)
    && Rd(m', c) == Rd(m, c)
    && (L[c].kind.Top? ==> Rd(m', c + L[c].size + 8) == Rd(m, c + L[c].size + 8))
    && (L[c].kind.Free? ==> Rd(m', c + L[c].size) == Rd(m, c + L[c].size))
  }

  lemma Before(m: Mem, L: Layout, a: int, b: int)
    requires a in L && b in L && At(m, L, a) && a < b
    ensures a + Extent(L[a]) <= b && a + L[a].size <= b
  {
  }

  lemma BelowFollows(m: Mem, L: Layout, m': Mem, L': Layout, q: int, n: int, c: int)
    requires SameOutside(L, L', q, n) && q < n && c in L && c < q && At(m, L, c)
    requires q in L && q in L' && L'[q].pin == L[q].pin && (!L[q].pin ==> Cin(L'[q].kind))
    requires SameWords(m, m', L, c)
    ensures c in L' && Follows(m', L', c)
  {
    hide HeadOf, Sized;
    Before(m, L, c, q);
    var e := c + L[c].size;
    assert e in L && e != q ==> e in L' && L'[e] == L[e];
  }

  lemma BelowLeads(m: Mem, L: Layout, m': Mem, L': Layout, q: int, n: int, c: int)
    requires SameOutside(L, L', q, n) && c in L && c < q && At(m, L, c)
    requires SameWords(m, m', L, c)
    ensures c in L' && L'[c] == L[c] && Leads(m', L', c)
  {
    hide HeadOf, Sized;
  }

  lemma BelowClears(m: Mem, L: Layout, L': Layout, q: int, n: int, c: int)
    requires SameOutside(L, L', q, n) && q < n && c in L && c < q && At(m, L, c) && q in L
    ensures c in L' && Clears(L', c)
  {
    hide HeadOf, Sized;
    Before(m, L, c, q);
    forall b | b in L' && b > c ensures c + Extent(L[c]) <= b {
      if b < q || b > n { assert b in L; }
    }
  }

  lemma AboveFollows(m: Mem, L: Layout, m': Mem, L': Layout, q: int, n: int, c: int)
    requires SameOutside(L, L', q, n) && c in L && c > n > q && At(m, L, c)
    requires SameWords(m, m', L, c)
    ensures c in L' && L'[c] == L[c] && Follows(m', L', c) && Clears(L', c)
  {
    hide HeadOf;
    forall b | b in L' && b > c ensures c + Extent(L[c]) <= b { assert b in L; }
  }

  /** The chunk that prev_foot leads back to. */
  lemma Previous(m: Mem, L: Layout, c: int)
    requires LayoutOK(m, L) && c in L && !L[c].pin
    ensures c - Rd(m, c) in L && At(m, L, c - Rd(m, c))
    ensures L[c - Rd(m, c)].kind.Free? && L[c - Rd(m, c)].size == Rd(m, c) > 0
  {
    assert At(m, L, c);
  }

  lemma AboveLeads(m: Mem, L: Layout, m': Mem, L': Layout, q: int, n: int, c: int)
    requires LayoutOK(m, L) && SameOutside(L, L', q, n) && q < n && q in L
    requires forall d :: d in L && q <= d < n ==> d + L[d].size <= n
    requires n in L ==> n in L' && L'[n].kind == L[n].kind && L'[n].size == L[n].size
    requires c in L && c > n && SameWords(m, m', L, c)
    ensures c in L' && Leads(m', L', c)
  {
    hide At, LayoutOK;
    if !L[c].pin {
      Previous(m, L, c);
      var f := c - Rd(m, c);
      if f < q { Before(m, L, f, q); }
      assert f >= n;
    }
  }

  /** Chunks outside [q, n] are untouched, so it is enough to look at those inside. */
  lemma Rebuild(m: Mem, L: Layout, m': Mem, L': Layout, q: int, n: int)
    requires LayoutOK(m, L) && SameOutside(L, L', q, n) && q < n
    requires q in L && q in L' && L'[q].pin == L[q].pin && (!L[q].pin ==> Cin(L'[q].kind))
    requires forall d :: d in L && q <= d < n ==> d + L[d].size <= n
    requires n in L ==> n in L' && L'[n].kind == L[n].kind && L'[n].size == L[n].size
    requires forall c :: c in L && (c < q || c > n) ==> SameWords(m, m', L, c)
    requires forall c :: c in L' && q <= c <= n ==> At(m', L', c)
    ensures LayoutOK(m', L')
  {
    forall c | c in L' ensures At(m', L', c) {
      if c < q || c > n {
        OutsideAt(m, L, m', L', q, n, c);
      }
    }
  }

  lemma OutsideAt(m: Mem, L: Layout, m': Mem, L': Layout, q: int, n: int, c: int)
    requires LayoutOK(m, L) && SameOutside(L, L', q, n) && q < n
    requires q in L && q in L' && L'[q].pin == L[q].pin && (!L[q].pin ==> Cin(L'[q].kind))
    requires forall d :: d in L && q <= d < n ==> d + L[d].size <= n
    requires n in L ==> n in L' && L'[n].kind == L[n].kind && L'[n].size == L[n].size
    requires c in L' && (c < q || c > n)
    requires c in L ==> SameWords(m, m', L, c)
    ensures At(m', L', c)
  {
    hide Follows, Leads, Clears, Placed, Sized, HeadOf;
    assert c in L && At(m, L, c);
    if c < q {
      BelowFollows(m, L, m', L', q, n, c);
      BelowLeads(m, L, m', L', q, n, c);
      BelowClears(m, L, L', q, n, c);
    } else {
      AboveFollows(m, L, m', L', q, n, c);
      AboveLeads(m, L, m', L', q, n, c);
    }
  }
}
