/** Runs of two and three chunks, and what stays when one is released. */
module Runs {
  import opened Memory
  import opened Sizes
  import opened Layouts
  import opened State
  import opened HeapSteps
  import opened Chunks
  import opened Carve

  /** In use, or free and in no bin. */
  predicate Loose(s: Snap, c: int) {
    c in s.L && (s.L[c].kind.Live? || (s.L[c].kind.Free? && c !in s.D))
  }

  lemma LooseIs(s: Snap, c: int)
    ensures Loose(s, c) <==> c in s.L && (s.L[c].kind.Live? || (s.L[c].kind.Free? && c !in s.D))
  {
  }

  lemma RunOf2(s: Snap, out: set<int>, a: int, b: int, n: int)
    requires Inv(s, out) && Loose(s, a) && Loose(s, b) && b == a + s.L[a].size && n == b + s.L[b].size
    ensures Run(s, a, n) && n in s.L
    ensures forall c :: c in s.L && a <= c < n ==> c == a || c == b
  {
    hide *;
    LooseIs(s, a);
    LooseIs(s, b);
    ChunkFacts(s, out, b);
    RunOf1(s, out, a);
    RunOf1(s, out, b);
    RunAppend(s, out, a, b, n);
  }

  lemma BeyondSame(out: set<int>, q: int, n: int)
    requires forall x :: x in out ==> x < q || x >= n
    ensures Beyond(out, q, n) == out
  {
  }

  lemma BeyondOne(d: int, q: int, n: int)
    requires q <= d < n
    ensures Beyond({d}, q, n) == {}
  {
  }

  lemma BeyondPair(d: int, x: int, q: int, n: int)
    requires q <= x < n
    ensures d < q || d >= n ==> Beyond({d} + {x}, q, n) == {d}
    ensures q <= d < n ==> Beyond({d} + {x}, q, n) == {}
  {
  }

  lemma BeyondThree(d: int, x: int, y: int, q: int, n: int)
    requires q <= x < n && q <= y < n
    ensures d < q || d >= n ==> Beyond({d} + {x} + {y}, q, n) == {d}
    ensures q <= d < n ==> Beyond({d} + {x} + {y}, q, n) == {}
  {
  }

  /** The designated victim is not inside a run it is not part of. */
  lemma DvOutside(s: Snap, out: set<int>, dv: int, dvsize: int, q: int, n: int)
    requires Inv(s, out) && DvOK(s.L, dv, dvsize) && q > 0
    requires dv in s.L && q <= dv < n ==> !s.L[dv].kind.Free?
    ensures dv < q || dv >= n
  {
    hide *;
    DvIs(s.L, dv, dvsize);
  }

  /** The flags a head word shows. */
  lemma HeadShows(s: Snap, out: set<int>, c: int)
    requires Inv(s, out) && c in s.L
    ensures ChunkSize(Rd(s.mem, c + 8)) == s.L[c].size && Cinuse(Rd(s.mem, c + 8)) == Cin(s.L[c].kind)
    ensures Pinuse(Rd(s.mem, c + 8)) == s.L[c].pin && IsInuse(Rd(s.mem, c + 8)) == (Cin(s.L[c].kind) || !s.L[c].pin)
    ensures s.L[c].kind.Live? ==> Cin(s.L[c].kind)
    ensures !Cin(s.L[c].kind) <==> s.L[c].kind.Free? || s.L[c].kind.Top?
    ensures c >= 0x2000 && c >= s.least
  {
    hide *;
    ChunkFacts(s, out, c);
    LiveHead(s.L[c]);
    HeadOfIs(s.L[c]);
  }
}
