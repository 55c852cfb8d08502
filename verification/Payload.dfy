/** What a caller may do with a block: store into it. Copying and clearing bytes are such stores. */
module Payload {
  import opened Words
  import opened Memory
  import opened Layouts
  import opened Bins
  import opened State
  import opened HeapSteps
  import opened Chunks
  import opened Segments

  lemma StoreTags(m: Mem, m': Mem, L: Layout, c: int, n: int)
    requires LayoutOK(m, L) && c in L && L[c].kind.Live? && n == c + L[c].size && Local(m, m', c + 16, n + 8)
    ensures LayoutOK(m', L)
  {
    forall a | a in L ensures At(m', L, a) {
      assert At(m, L, a) && At(m, L, c);
      if a < c { Before(m, L, a, c); }
      if c < a { Before(m, L, c, a); TagAfter(m, L, c, n, a); }
      SameTag(m, m', L, c, n, a);
    }
  }

  /** The chunk after a live one does not look at its prev_foot word. */
  lemma TagAfter(m: Mem, L: Layout, c: int, n: int, a: int)
    requires c in L && At(m, L, c) && L[c].kind.Live? && n == c + L[c].size && a in L && At(m, L, a) && c < a
    ensures a == n ==> L[a].pin
    ensures a != n ==> a >= n + 8
  {
    if a != n { assert n in L && n % 16 == 0 && a % 16 == 0; }
  }

  lemma SameTag(m: Mem, m': Mem, L: Layout, c: int, n: int, a: int)
    requires a in L && At(m, L, a) && c in L && At(m, L, c) && n == c + L[c].size && Local(m, m', c + 16, n + 8)
      && L[c].kind.Live?
    requires a < c ==> a + L[a].size <= c && a + L[a].size + (if L[a].kind.Top? then 80 else 0) <= c
    requires a > c ==> a >= n && (a == n ==> L[a].pin) && (a != n ==> a >= n + 8)
    ensures At(m', L, a)
  {
    hide HeadOf;
  }

  lemma StoreStep(s: Snap, s': Snap, c: int, n: int, out: set<int>)
    requires Inv(s, out) && c in s.L && s.L[c].kind.Live? && n == c + s.L[c].size
    requires s' == s.(mem := s'.mem) && Local(s.mem, s'.mem, c + 16, n + 8)
    ensures Inv(s', out) && PayloadKept(s.mem, s'.mem, Blocks(s.L) - {c})
  {
    hide *;
    InvParts(s, out);
    SegsOKIs(s);
    StoreTags(s.mem, s'.mem, s.L, c, n);
    ChunkFacts(s, out, c);
    LocalIs(s.mem, s'.mem, c + 16, n + 8);
    FiledIs(s.L, s.D, out);
    forall d, w | d in s.L && d != c && d + 8 <= w < d + s.L[d].size + 8 ensures Rd(s'.mem, w) == Rd(s.mem, w) {
      if d < c { NotBetween(s, out, d, c); } else { NotBetween(s, out, c, d); }
    }
    StoreAway(s.mem, s'.mem, s.L, s.D, c, n);
    BinsFrame(s.mem, s'.mem, s.smallmap, s.treemap, s.D, s.rings, s.trees);
    forall d | PostAfter(s.L, d) ensures d in s.L { PostAfterIs(s.L, d); }
    RecordsKept(s.mem, s'.mem, s.L, s.L, s.segs);
    SegsOKIs(s');
    BlocksIs(s.L);
    PayloadIs(s.mem, s'.mem, Blocks(s.L) - {c});
    InvParts(s', out);
  }

  lemma StoreAway(m: Mem, m': Mem, L: Layout, D: map<int, int>, c: int, n: int)
    requires Local(m, m', c + 16, n + 8) && c >= 0x2000 && c !in D
    requires forall x :: x in D ==> x in L && L[x].size == D[x]
    requires forall d, w :: d in L && d != c && d + 8 <= w < d + L[d].size + 8 ==> Rd(m', w) == Rd(m, w)
    ensures AwayFromBins(m, m', D)
  {
  }

  /** A caller stores a word into its block. */
  method Store(m: MallocState, c: int, w: int, v: int)
    requires m.Valid() && c in Blocks(m.L) && c + 16 <= w < c + Blocks(m.L)[c] + 8
    modifies m`mem
    ensures m.Valid() && m.mem == old(m.mem)[w := v] && PayloadKept(old(m.mem), m.mem, Blocks(m.L) - {c})
  {
    hide *;
    ghost var s0 := m.Now();
    NowIs(m);
    ValidIs(m);
    ConsistentIs(m, {m.dv});
    BlocksIs(m.L);
    m.mem := m.mem[w := v];
    NowIs(m);
    LocalStore(s0.mem, w, v, c + 16, c + m.L[c].size + 8);
    StoreStep(s0, m.Now(), c, c + m.L[c].size, {m.dv});
    ConsistentIs(m, {m.dv});
    ValidIs(m);
  }

  lemma LocalStore(m: Mem, w: int, v: int, lo: int, hi: int)
    requires lo <= w < hi
    ensures Local(m, m[w := v], lo, hi)
  {
  }

  // ---- bytes, in words of eight ----

  /** The first r bytes of a word come from src, the others from dst. */
  function Merged(dst: int, src: int, r: nat): int {
    src % Pow2(8 * r) + dst - dst % Pow2(8 * r)
  }

  /** The first n bytes at a in m and at b in m' agree. */
  ghost predicate SameBytes(m: Mem, a: int, m': Mem, b: int, n: nat) {
    && (forall k {:trigger Word(a, k)} :: 0 <= k < n / 8 ==> Rd(m', Word(b, k)) == Rd(m, Word(a, k)))
    && (n % 8 != 0 ==> Rd(m', Word(b, n / 8)) % Pow2(8 * (n % 8)) == Rd(m, Word(a, n / 8)) % Pow2(8 * (n % 8)))
  }

  /** The first n bytes at b are zero. */
  ghost predicate ZeroBytes(m: Mem, b: int, n: nat) {
    && (forall k {:trigger Word(b, k)} :: 0 <= k < n / 8 ==> Rd(m, Word(b, k)) == 0)
    && (n % 8 != 0 ==> Rd(m, Word(b, n / 8)) % Pow2(8 * (n % 8)) == 0)
  }

  function Word(a: int, k: int): int {
    a + 8 * k
  }

  lemma MergedBytes(dst: int, src: int, r: nat)
    ensures Merged(dst, src, r) % Pow2(8 * r) == src % Pow2(8 * r)
  {
    var p := Pow2(8 * r);
    var q := dst / p;
    assert dst == p * q + dst % p;
    ModOfSum(p, q, src % p);
  }

  lemma ModOfSum(p: int, q: int, x: int)
    requires p > 0 && 0 <= x < p
    ensures (x + p * q) % p == x
  {
    DivUnique(x + p * q, p, q, x);
  }

  /** memcpy of n bytes between different blocks. */
  method CopyBytes(m: MallocState, dst: int, src: int, n: nat)
    requires src + n + 8 <= dst || dst + n + 8 <= src
    modifies m`mem
    ensures Local(old(m.mem), m.mem, dst, dst + n)
    ensures SameBytes(old(m.mem), src, m.mem, dst, n)
  {
    ghost var m0 := m.mem;
    var k := 0;
    while k < n / 8
      invariant 0 <= k <= n / 8
      invariant Local(m0, m.mem, dst, dst + 8 * k)
      invariant forall j {:trigger Word(src, j)} :: 0 <= j < k ==> Rd(m.mem, Word(dst, j)) == Rd(m0, Word(src, j))
    {
      m.mem := m.mem[Word(dst, k) := Rd(m.mem, Word(src, k))];
      k := k + 1;
    }
    if n % 8 != 0 {
      MergedBytes(Rd(m.mem, Word(dst, k)), Rd(m.mem, Word(src, k)), n % 8);
      m.mem := m.mem[Word(dst, k) := Merged(Rd(m.mem, Word(dst, k)), Rd(m.mem, Word(src, k)), n % 8)];
    }
  }

  /** memset of n bytes to zero. */
  method ClearBytes(m: MallocState, dst: int, n: nat)
    modifies m`mem
    ensures Local(old(m.mem), m.mem, dst, dst + n)
    ensures ZeroBytes(m.mem, dst, n)
  {
    ghost var m0 := m.mem;
    var k := 0;
    while k < n / 8
      invariant 0 <= k <= n / 8
      invariant Local(m0, m.mem, dst, dst + 8 * k)
      invariant forall j {:trigger Word(dst, j)} :: 0 <= j < k ==> Rd(m.mem, Word(dst, j)) == 0
    {
      m.mem := m.mem[Word(dst, k) := 0];
      k := k + 1;
    }
    if n % 8 != 0 {
      MergedBytes(Rd(m.mem, Word(dst, k)), 0, n % 8);
      ZeroMod(Pow2(8 * (n % 8)));
      m.mem := m.mem[Word(dst, k) := Merged(Rd(m.mem, Word(dst, k)), 0, n % 8)];
    }
  }

  lemma ZeroMod(p: int)
    requires p > 0
    ensures 0 % p == 0
  {
    DivUnique(0, p, 0, 0);
  }

  /** Writes that stay in one block leave the heap valid and the other blocks as they were. */
  lemma BlockWrites(m: MallocState, s0: Snap, c: int, lo: int, hi: int)
    requires Inv(s0, {m.dv}) && DvOK(s0.L, m.dv, m.dvsize) && m.footprint == TotalSize(m.segs)
      && m.footprint <= m.maxFootprint
    requires m.Now() == s0.(mem := m.mem) && Local(s0.mem, m.mem, lo, hi)
    requires c in Blocks(s0.L) && c + 16 <= lo && hi <= c + Blocks(s0.L)[c] + 8
    ensures m.Valid() && PayloadKept(s0.mem, m.mem, Blocks(s0.L) - {c})
  {
    hide *;
    BlocksIs(s0.L);
    NowIs(m);
    LocalIs(s0.mem, m.mem, lo, hi);
    LocalIs(s0.mem, m.mem, c + 16, c + s0.L[c].size + 8);
    StoreStep(s0, m.Now(), c, c + s0.L[c].size, {m.dv});
    ConsistentIs(m, {m.dv});
    ValidIs(m);
  }
}
