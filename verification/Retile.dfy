/** Every change the allocator makes to the layout is a retiling of one interval [q, n) of whole chunks. */
module Retile {
  import opened Words
  import opened Memory
  import opened Sizes
  import opened Layouts

  /** [q, n) becomes one chunk of kind k. */
  function One(L: Layout, q: int, n: int, k: Kind): Layout
    requires q in L
  {
    map c | c in L && !(q < c < n) ::
      if c == q then Chunk(k, n - q, L[q].pin)
      else if c == n then L[n].(pin := Cin(k))
      else L[c]
  }

  /** [q, n) becomes [q, r) of kind j and [r, n) of kind k. */
  function Two(L: Layout, q: int, r: int, n: int, j: Kind, k: Kind): Layout
    requires q in L
  {
    One(L, q, n, k)[q := Chunk(j, r - q, L[q].pin)][r := Chunk(k, n - r, Cin(j))]
  }

  /** Everything from q up joins top, which was at t. */
  function TopOne(L: Layout, q: int, t: int): Layout
    requires q in L && t in L
  {
    (map c | c in L && !(q <= c <= t) :: L[c])[q := Chunk(Top, t + L[t].size - q, L[q].pin)]
  }

  /** [q, r) becomes a live chunk and top starts at r. */
  function TopTwo(L: Layout, q: int, r: int, t: int): Layout
    requires q in L && t in L
  {
    (map c | c in L && !(q <= c <= t) :: L[c])[q := Chunk(Live, r - q,
                                                          L[q].pin)][r := Chunk(Top, t + L[t].size - r, true)]
  }

  predicate Piece(L: Layout, q: int, n: int, size: int, k: Kind) {
    && q in L && n in L && q < n
    && size >= MIN_CHUNK_SIZE && size % 16 == 0
    && (k.Live? || (k.Free? && Cin(L[n].kind)))
  }

  lemma InsideEnds(m: Mem, L: Layout, q: int, n: int)
    requires LayoutOK(m, L) && n in L
    ensures forall d :: d in L && q <= d < n ==> d + L[d].size <= n && d + Extent(L[d]) <= n
  {
    forall d | d in L && q <= d < n ensures d + L[d].size <= n && d + Extent(L[d]) <= n {
      assert At(m, L, d);
    }
  }

  lemma WordsOutside(m: Mem, L: Layout, m': Mem, lo: int, hi: int, q: int, n: int, c: int)
    requires LayoutOK(m, L) && Local(m, m', lo, hi) && c in L && q in L && (c < q || c > n)
    requires q + 8 <= lo
    requires c > n ==> c >= hi
    ensures SameWords(m, m', L, c)
  {
    assert At(m, L, c);
  }

  /** A chunk that starts a retiled interval keeps its place, its predecessor and its clearance. */
  lemma StartAt(m: Mem, L: Layout, m': Mem, L': Layout, q: int, n: int)
    requires LayoutOK(m, L) && SameOutside(L, L', q, n) && q < n && q in L && q in L'
    requires L'[q].pin == L[q].pin && Rd(m', q) == Rd(m, q)
    ensures Leads(m', L', q) && q % 16 == 0 && q >= HEAP_FLOOR
  {
    assert At(m, L, q);
    if !L[q].pin {
      Previous(m, L, q);
    }
  }

  /** The chunk at n keeps its place. */
  lemma EndAt(m: Mem, L: Layout, m': Mem, L': Layout, q: int, n: int)
    requires LayoutOK(m, L) && SameOutside(L, L', q, n) && q < n && n in L && n in L'
    requires L'[n].kind == L[n].kind && L'[n].size == L[n].size
    requires forall w :: w >= n + 16 ==> Rd(m', w) == Rd(m, w)
    ensures Follows(m', L', n) && Clears(L', n) && n % 16 == 0
    ensures n + Extent(L[n]) <= ADDRESS_LIMIT && HEAP_FLOOR <= n
    ensures Sized(L[n])
  {
    assert At(m, L, n);
    forall b | b in L' && b > n ensures n + Extent(L'[n]) <= b { assert b in L; }
  }

  /** The first piece of a retiled interval, ending at e. */
  lemma PieceAt(m: Mem, L: Layout, m': Mem, L': Layout, q: int, n: int, e: int, k: Kind)
    requires LayoutOK(m, L) && SameOutside(L, L', q, n) && q < e <= n && q in L && q in L' && e in L'
    requires L'[q] == Chunk(k, e - q, L[q].pin) && (k.Live? || (k.Free? && L[q].pin && Cin(L'[e].kind)))
    requires L'[e].pin == Cin(k) && e - q >= MIN_CHUNK_SIZE && (e - q) % 16 == 0 && e <= ADDRESS_LIMIT
    requires Rd(m', q) == Rd(m, q) && Rd(m', q + 8) == HeadOf(L'[q]) && (k.Free? ==> Rd(m', e) == e - q)
    requires forall b :: b in L' && q < b <= n ==> e <= b
    ensures At(m', L', q)
  {
    hide HeadOf;
    StartAt(m, L, m', L', q, n);
  }

  /** A later piece [r, e): the chunk before it is described by its pinuse bit. */
  lemma LaterAt(m: Mem, L': Layout, q: int, r: int, e: int, n: int, j: Kind, k: Kind)
    requires q < r < e <= n && r in L' && e in L' && q in L'
    requires q % 16 == 0 && q >= HEAP_FLOOR && e <= ADDRESS_LIMIT
    requires L'[q].kind == j && L'[q].size == r - q && (r - q) % 16 == 0
    requires L'[r] == Chunk(k, e - r, Cin(j)) && (k.Live? || (k.Free? && Cin(j) && Cin(L'[e].kind)))
    requires j.Live? || (j.Free? && Rd(m, r) == r - q)
    requires L'[e].pin == Cin(k) && e - r >= MIN_CHUNK_SIZE && (e - r) % 16 == 0
    requires Rd(m, r + 8) == HeadOf(L'[r]) && (k.Free? ==> Rd(m, e) == e - r)
    requires forall b :: b in L' && r < b ==> e <= b
    ensures At(m, L', r)
  {
    hide HeadOf;
  }

  /** The chunk at the end: only its pinuse bit may change. */
  lemma NextAt(m: Mem, L: Layout, m': Mem, L': Layout, q: int, n: int, r: int, k: Kind)
    requires LayoutOK(m, L) && SameOutside(L, L', q, n) && q <= r < n && n in L && n in L' && r in L'
    requires L'[n] == L[n].(pin := Cin(k)) && L'[r].kind == k && L'[r].size == n - r
    requires k.Live? || (k.Free? && Rd(m', n) == n - r && Cin(L[n].kind))
    requires forall w :: w >= n + 16 ==> Rd(m', w) == Rd(m, w)
    requires Rd(m', n + 8) == HeadOf(L'[n])
    ensures At(m', L', n)
  {
    hide HeadOf;
    EndAt(m, L, m', L', q, n);
  }

  lemma Untouched(m: Mem, L: Layout, m': Mem, q: int, n: int)
    requires LayoutOK(m, L) && q in L && n in L && q < n && Local(m, m', q + 8, n + 16)
    ensures forall c :: c in L && (c < q || c > n) ==> SameWords(m, m', L, c)
    ensures Rd(m', q) == Rd(m, q)
    ensures forall w :: w >= n + 16 ==> Rd(m', w) == Rd(m, w)
    ensures q % 16 == 0 && q >= HEAP_FLOOR && n <= ADDRESS_LIMIT && n % 16 == 0
  {
    hide HeadOf;
    forall c | c in L && (c < q || c > n) ensures SameWords(m, m', L, c) {
      AfterNext(m, L, n, c);
      WordsOutside(m, L, m', q + 8, n + 16, q, n, c);
    }
    assert At(m, L, q) && At(m, L, n);
  }

  lemma OneIs(L: Layout, q: int, n: int, k: Kind)
    requires q in L && n in L && q < n
    ensures SameOutside(L, One(L, q, n, k), q, n)
    ensures q in One(L, q, n, k) && One(L, q, n, k)[q] == Chunk(k, n - q, L[q].pin)
    ensures n in One(L, q, n, k) && One(L, q, n, k)[n] == L[n].(pin := Cin(k))
    ensures forall b :: b in One(L, q, n, k) && q <= b <= n ==> b == q || b == n
  {
  }

  lemma OneOK(m: Mem, L: Layout, m': Mem, q: int, n: int, k: Kind)
    requires LayoutOK(m, L) && Piece(L, q, n, n - q, k) && (k.Free? ==> L[q].pin)
    requires Local(m, m', q + 8, n + 16)
    requires Rd(m', q + 8) == HeadOf(Chunk(k, n - q, L[q].pin))
    requires Rd(m', n + 8) == HeadOf(L[n].(pin := Cin(k)))
    requires k.Free? ==> Rd(m', n) == n - q
    ensures LayoutOK(m', One(L, q, n, k))
  {
    hide One, HeadOf, LayoutOK, At, SameOutside, SameWords;
    var L' := One(L, q, n, k);
    OneIs(L, q, n, k);
    InsideEnds(m, L, q, n);
    Untouched(m, L, m', q, n);
    PieceAt(m, L, m', L', q, n, n, k);
    NextAt(m, L, m', L', q, n, q, k);
    Rebuild(m, L, m', L', q, n);
  }

  lemma AfterNext(m: Mem, L: Layout, n: int, c: int)
    requires LayoutOK(m, L) && n in L && c in L
    ensures c > n ==> c >= n + 16
  {
    assert At(m, L, n) && At(m, L, c);
  }

  lemma TwoIs(L: Layout, q: int, r: int, n: int, j: Kind, k: Kind)
    requires q in L && n in L && q < r < n
    ensures SameOutside(L, Two(L, q, r, n, j, k), q, n)
    ensures q in Two(L, q, r, n, j, k) && Two(L, q, r, n, j, k)[q] == Chunk(j, r - q, L[q].pin)
    ensures r in Two(L, q, r, n, j, k) && Two(L, q, r, n, j, k)[r] == Chunk(k, n - r, Cin(j))
    ensures n in Two(L, q, r, n, j, k) && Two(L, q, r, n, j, k)[n] == L[n].(pin := Cin(k))
    ensures forall b :: b in Two(L, q, r, n, j, k) && q <= b <= n ==> b == q || b == r || b == n
  {
  }

  lemma TwoOK(m: Mem, L: Layout, m': Mem, q: int, r: int, n: int, j: Kind, k: Kind)
    requires LayoutOK(m, L) && Piece(L, q, n, n - r, k) && q < r < n
    requires r - q >= MIN_CHUNK_SIZE && (r - q) % 16 == 0
    requires (j.Live? && (k.Live? || k.Free?)) || (j.Free? && k.Live? && L[q].pin)
    requires Local(m, m', q + 8, n + 16)
    requires Rd(m', q + 8) == HeadOf(Chunk(j, r - q, L[q].pin))
    requires Rd(m', r + 8) == HeadOf(Chunk(k, n - r, Cin(j)))
    requires Rd(m', n + 8) == HeadOf(L[n].(pin := Cin(k)))
    requires j.Free? ==> Rd(m', r) == r - q
    requires k.Free? ==> Rd(m', n) == n - r
    ensures LayoutOK(m', Two(L, q, r, n, j, k))
  {
    hide Two, HeadOf, LayoutOK, At, SameWords;
    var L' := Two(L, q, r, n, j, k);
    TwoIs(L, q, r, n, j, k);
    InsideEnds(m, L, q, n);
    Untouched(m, L, m', q, n);
    PieceAt(m, L, m', L', q, n, r, j);
    forall b | b in L' && r < b ensures n <= b { }
    LaterAt(m', L', q, r, n, n, j, k);
    NextAt(m, L, m', L', q, n, r, k);
    Rebuild(m, L, m', L', q, n);
  }

  lemma AfterTop(m: Mem, L: Layout, t: int, c: int)
    requires LayoutOK(m, L) && t in L && L[t].kind.Top? && c in L
    ensures c > t ==> c >= t + L[t].size + TOP_FOOT_SIZE
    ensures L[t].size > 0 && L[t].size % 8 == 0 && t + L[t].size + TOP_FOOT_SIZE <= ADDRESS_LIMIT
    ensures Rd(m, t + L[t].size + 8) == TOP_FOOT_SIZE
  {
    assert At(m, L, t);
  }

  lemma InsideTop(m: Mem, L: Layout, q: int, t: int)
    requires LayoutOK(m, L) && q in L && t in L && L[t].kind.Top? && q <= t
    ensures forall d :: d in L && q <= d < t + L[t].size ==> d + L[d].size <= t + L[t].size
  {
    forall d | d in L && q <= d < t + L[t].size ensures d + L[d].size <= t + L[t].size {
      AfterTop(m, L, t, d);
      if d < t { assert At(m, L, d); }
    }
  }

  lemma TopUntouched(m: Mem, L: Layout, m': Mem, q: int, t: int)
    requires LayoutOK(m, L) && q in L && t in L && L[t].kind.Top? && q <= t
    requires Local(m, m', q + 8, t + L[t].size + 8)
    ensures forall c :: c in L && (c < q || c > t + L[t].size) ==> SameWords(m, m', L, c)
    ensures forall c :: c in L && c > t ==> c >= t + L[t].size + TOP_FOOT_SIZE
    ensures t + L[t].size !in L
    ensures Rd(m', q) == Rd(m, q) && Rd(m', t + L[t].size + 8) == TOP_FOOT_SIZE
    ensures q % 16 == 0 && q >= HEAP_FLOOR && t % 16 == 0 && L[t].size > 0 && L[t].size % 8 == 0
    ensures t + L[t].size + TOP_FOOT_SIZE <= ADDRESS_LIMIT
  {
    hide HeadOf;
    var n := t + L[t].size;
    AfterTop(m, L, t, t);
    forall c | c in L && (c < q || c > n) ensures SameWords(m, m', L, c) {
      AfterTop(m, L, t, c);
      WordsOutside(m, L, m', q + 8, n + 8, q, n, c);
    }
    forall c | c in L && c > t ensures c >= n + TOP_FOOT_SIZE { AfterTop(m, L, t, c); }
    assert At(m, L, q) && At(m, L, t);
  }

  lemma TopAt(m: Mem, L: Layout, m': Mem, L': Layout, q: int, n: int, r: int)
    requires LayoutOK(m, L) && SameOutside(L, L', q, n) && q <= r < n && r in L'
    requires q in L && q in L' && (q == r ==> L[q].pin && Rd(m', q) == Rd(m, q))
    requires L'[r] == Chunk(Top, n - r, true) && (n - r) % 8 == 0 && r % 16 == 0 && r >= HEAP_FLOOR
    requires Rd(m', r + 8) == HeadOf(L'[r]) && Rd(m', n + 8) == TOP_FOOT_SIZE && n + TOP_FOOT_SIZE <= ADDRESS_LIMIT
    requires forall b :: b in L' && r < b ==> n + TOP_FOOT_SIZE <= b
    ensures At(m', L', r)
  {
    hide HeadOf;
  }

  lemma AlignedEnd(q: int, r: int, t: int, s: int)
    requires q % 16 == 0 && (r - q) % 16 == 0 && t % 16 == 0 && s % 8 == 0
    ensures (t + s - r) % 8 == 0 && r % 16 == 0
  {
    var a, b, c, d := q / 16, (r - q) / 16, t / 16, s / 8;
    assert r == 16 * (a + b) && t == 16 * c && s == 8 * d;
    DivUnique(r, 16, a + b, 0);
    DivUnique(t + s - r, 8, 2 * (c - a - b) + d, 0);
  }

  lemma TopOneOK(m: Mem, L: Layout, m': Mem, q: int, t: int)
    requires LayoutOK(m, L) && q in L && t in L && L[t].kind.Top? && q <= t && L[q].pin
    requires Local(m, m', q + 8, t + 16)
    requires Rd(m', q + 8) == HeadOf(Chunk(Top, t + L[t].size - q, true))
    ensures LayoutOK(m', TopOne(L, q, t))
  {
    hide *;
    var L' := TopOne(L, q, t);
    var n := t + L[t].size;
    AfterTop(m, L, t, t);
    InsideTop(m, L, q, t);
    LocalGrown(m, m', q + 8, t + 16, n + 8);
    TopUntouched(m, L, m', q, t);
    FootIs();
    TopOneShape(L, q, t);
    AlignedEnd(q, q, t, L[t].size);
    TopAt(m, L, m', L', q, n, q);
    Rebuild(m, L, m', L', q, n);
  }

  lemma FootIs()
    ensures TOP_FOOT_SIZE == 80
  {
  }

  lemma LocalGrown(m: Mem, m': Mem, lo: int, hi: int, hi': int)
    requires Local(m, m', lo, hi) && hi <= hi'
    ensures Local(m, m', lo, hi')
  {
  }

  lemma TopOneShape(L: Layout, q: int, t: int)
    requires q in L && t in L && q <= t && L[t].size > 0
    requires forall c :: c in L && c > t ==> c >= t + L[t].size + 80
    ensures SameOutside(L, TopOne(L, q, t), q, t + L[t].size)
    ensures q in TopOne(L, q, t) && TopOne(L, q, t)[q] == Chunk(Top, t + L[t].size - q, L[q].pin)
    ensures forall c :: c in TopOne(L, q, t) && c > q ==> c > t && c in L
  {
  }

  lemma TopTwoOK(m: Mem, L: Layout, m': Mem, q: int, r: int, t: int)
    requires LayoutOK(m, L) && q in L && t in L && L[t].kind.Top? && q <= t && q < r < t + L[t].size
    requires r - q >= MIN_CHUNK_SIZE && (r - q) % 16 == 0
    requires Local(m, m', q + 8, t + L[t].size + 8)
    requires Rd(m', q + 8) == HeadOf(Chunk(Live, r - q, L[q].pin))
    requires Rd(m', r + 8) == HeadOf(Chunk(Top, t + L[t].size - r, true))
    ensures LayoutOK(m', TopTwo(L, q, r, t))
  {
    hide HeadOf, LayoutOK, At, SameWords;
    var L' := TopTwo(L, q, r, t);
    var n := t + L[t].size;
    InsideTop(m, L, q, t);
    TopUntouched(m, L, m', q, t);
    assert SameOutside(L, L', q, n);
    PieceAt(m, L, m', L', q, n, r, Live);
    AlignedEnd(q, r, t, L[t].size);
    TopAt(m, L, m', L', q, n, r);
    Rebuild(m, L, m', L', q, n);
  }
}
