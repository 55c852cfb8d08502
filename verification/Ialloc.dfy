/** independent_calloc and independent_comalloc: one chunk, cut into adjacent blocks that can be freed one by one. */
module Ialloc {
  import opened Words
  import opened Memory
  import opened Sizes
  import opened Layouts
  import opened Retile
  import opened State
  import opened HeapSteps
  import opened Chunks
  import opened Carve
  import opened Binning
  import opened Runs
  import opened Segments
  import opened Payload
  import opened SystemMemory
  import opened Allocate
  import opened Free
  import opened Calloc
  import opened Realloc

  // ---- the sizes ----

  function Sum(xs: seq<int>): int {
    if xs == [] then 0 else Sum(xs[..|xs| - 1]) + xs[|xs| - 1]
  }

  /** The chunk sizes of n elements, all of the first size or each of its own. */
  function ElementSizes(n: nat, sizes: seq<U64>, same: bool): seq<int>
    requires if same then |sizes| >= 1 else |sizes| >= n
  {
    seq(n, i requires 0 <= i < n => Request2Size(if same then sizes[0] else sizes[i]))
  }

  /** B with adjacent blocks of the sizes xs from p on. */
  function AddBlocks(B: map<int, int>, p: int, xs: seq<int>): map<int, int> {
    if xs == [] then B else AddBlocks(B, p, xs[..|xs| - 1])[p + Sum(xs[..|xs| - 1]) := xs[|xs| - 1]]
  }

  lemma AddOne(B: map<int, int>, p: int, xs: seq<int>, x: int)
    ensures Sum(xs + [x]) == Sum(xs) + x
    ensures AddBlocks(B, p, xs + [x]) == AddBlocks(B, p, xs)[p + Sum(xs) := x]
  {
    assert (xs + [x])[..|xs|] == xs;
  }

  lemma {:induction false} SumBounds(xs: seq<int>, k: nat)
    requires k <= |xs| && forall i :: 0 <= i < |xs| ==> xs[i] >= 32 && xs[i] % 16 == 0
    ensures Sum(xs) >= Sum(xs[..k]) + 32 * (|xs| - k) && Sum(xs) % 16 == 0 && Sum(xs[..k]) >= 32 * k
    ensures k < |xs| ==> Sum(xs[..k + 1]) == Sum(xs[..k]) + xs[k]
    decreases |xs|
  {
    hide Sum;
    SumIs(xs);
    if xs != [] {
      var ys := xs[..|xs| - 1];
      SumBounds(ys, if k < |xs| then k else k - 1);
      SumOfMultiples(Sum(ys), xs[|xs| - 1], 16);
      assert k < |xs| ==> ys[..k] == xs[..k];
      if k == |xs| {
        assert xs[..k] == xs && ys[..k - 1] == ys;
      } else if k < |ys| {
        assert ys[..k + 1] == xs[..k + 1];
      } else {
        assert xs[..k + 1] == xs && xs[..k] == ys;
      }
    } else {
      assert xs[..k] == xs;
    }
  }

  lemma SumIs(xs: seq<int>)
    ensures Sum(xs) == if xs == [] then 0 else Sum(xs[..|xs| - 1]) + xs[|xs| - 1]
  {
  }

  // ---- cutting one element off ----

  /** The head of the element and a head for the rest: a heap again. */
  lemma CutStep(s: Snap, s': Snap, dv: int, dvsize: int, p: int, size: int, rem: int)
    requires Inv(s, {dv}) && DvOK(s.L, dv, dvsize) && p in s.L && s.L[p] == Chunk(Live, rem, true)
    requires size >= 32 && size % 16 == 0 && rem - size >= 32
    requires s' == s.(mem := s.mem[p + 8 := size + 3][p + size + 8 := rem - size + 3],
                      L := Two(s.L, p, p + size, p + rem, Live, Live))
    ensures Inv(s', {dv}) && DvOK(s'.L, dv, dvsize) && PayloadKept(s.mem, s'.mem, Blocks(s.L) - {p})
    ensures p in Blocks(s.L) && Blocks(s'.L) == (Blocks(s.L) - {p})[p := size][p + size := rem - size]
    ensures p + size in s'.L && s'.L[p + size] == Chunk(Live, rem - size, true) && p + size !in Blocks(s.L)
    ensures forall c :: c in s.L && (c < p || c >= p + rem) ==>
                        c in s'.L && s'.L[c].kind == s.L[c].kind && s'.L[c].size == s.L[c].size
  {
    hide *;
    var n := p + rem;
    ChunkFacts(s, {dv}, p);
    HeadOfIs(s.L[p]);
    RunOf1(s, {dv}, p);
    RunEnd(s, {dv}, p, n);
    BlocksIs(s.L);
    OnlyLive(s.L, p, n, {p});
    DvOutside(s, {dv}, dv, dvsize, p, n);
    BeyondSame({dv}, p, n);
    HeadOfIs(Chunk(Live, size, true));
    HeadOfIs(Chunk(Live, rem - size, true));
    HeadOfIs(s.L[n].(pin := true));
    HeadOfIs(s.L[n]);
    Segments.TwoWrites(s.mem, p + 8, size + 3, p + size + 8, rem - size + 3);
    SplitDone(s, s', p, size, n, {dv});
    DvElsewhere(s.L, s'.L, p, n, dv, dvsize);
    SameOutsideIs(s.L, s'.L, p, n);
    NotInside(s.L, p, n, p + size);
  }

  /** The heap as it will be once the rest, at p, has its head: what is still to be cut counts as one block. */
  ghost function Virtual(m: MallocState, p: int, rem: int): Snap
    reads m
  {
    m.Now().(mem := m.mem[p + 8 := rem + 3])
  }

  ghost predicate Cutting(m: MallocState, p: int, rem: int)
    reads m
  {
    && Inv(Virtual(m, p, rem), {m.dv}) && DvOK(m.L, m.dv, m.dvsize)
    && m.footprint == TotalSize(m.segs) && m.footprint <= m.maxFootprint
    && p in m.L && m.L[p] == Chunk(Live, rem, true)
  }

  lemma CuttingIs(m: MallocState, p: int, rem: int)
    ensures Cutting(m, p, rem) <==>
      && Inv(Virtual(m, p, rem), {m.dv}) && DvOK(m.L, m.dv, m.dvsize)
      && m.footprint == TotalSize(m.segs) && m.footprint <= m.maxFootprint
      && p in m.L && m.L[p] == Chunk(Live, rem, true)
    ensures Virtual(m, p, rem) == m.Now().(mem := m.mem[p + 8 := rem + 3])
  {
  }

  lemma SameUpdate(m: Mem, a: int, v: int)
    requires Rd(m, a) == v && v != 0
    ensures m[a := v] == m
  {
  }

  /** A live chunk of a valid heap is ready to be cut; one whose head is written is back in a valid heap. */
  lemma StartCutting(m: MallocState, p: int, rem: int)
    requires p in m.L && m.L[p] == Chunk(Live, rem, true) && rem >= 0 && Rd(m.mem, p + 8) == rem + 3
    ensures Cutting(m, p, rem) <==> m.Valid()
  {
    hide *;
    SameUpdate(m.mem, p + 8, rem + 3);
    CuttingIs(m, p, rem);
    NowIs(m);
    ValidIs(m);
    ConsistentIs(m, {m.dv});
  }

  /** The first size bytes of the rest become an element. */
  method CutElement(m: MallocState, p: int, size: int, rem: int)
    requires Cutting(m, p, rem) && size >= 32 && size % 16 == 0 && rem - size >= 32
    modifies m`mem, m`L
    ensures Cutting(m, p + size, rem - size) && m.mem == old(m.mem)[p + 8 := size + 3]
    ensures p in Blocks(old(m.L)) && Blocks(m.L) == (Blocks(old(m.L)) - {p})[p := size][p + size := rem - size]
    ensures p + size !in Blocks(old(m.L))
  {
    hide *;
    ghost var s := Virtual(m, p, rem);
    CuttingIs(m, p, rem);
    NowIs(m);
    SetInuseHead(m, p, size);
    m.L := Two(m.L, p, p + size, p + rem, Live, Live);
    NowIs(m);
    CuttingIs(m, p + size, rem - size);
    Overwrite(s.mem, old(m.mem), p + 8, rem + 3, size + 3, p + size + 8, rem - size + 3);
    CutStep(s, Virtual(m, p + size, rem - size), m.dv, m.dvsize, p, size, rem);
  }

  lemma Overwrite(v: Mem, m: Mem, a: int, x: int, y: int, b: int, z: int)
    requires v == m[a := x] && a != b
    ensures v[a := y][b := z] == m[a := y][b := z] && v[a := y][b := z] == m[b := z][a := y]
  {
  }

  /** The last size bytes of the rest, for the pointer array, are split off first. */
  method CutArray(m: MallocState, p: int, contents: int, rem: int)
    requires Cutting(m, p, rem) && contents >= 32 && contents % 16 == 0 && rem - contents >= 32
    modifies m`mem, m`L
    ensures Cutting(m, p, contents) && m.mem == old(m.mem)[p + contents + 8 := rem - contents + 3]
    ensures p in Blocks(old(m.L))
      && Blocks(m.L) == (Blocks(old(m.L)) - {p})[p := contents][p + contents := rem - contents]
    ensures p + contents !in Blocks(old(m.L)) && p + contents in m.L
      && m.L[p + contents] == Chunk(Live, rem - contents, true)
  {
    hide *;
    ghost var s := Virtual(m, p, rem);
    CuttingIs(m, p, rem);
    NowIs(m);
    SetInuseHead(m, p + contents, rem - contents);
    m.L := Two(m.L, p, p + contents, p + rem, Live, Live);
    NowIs(m);
    CuttingIs(m, p, contents);
    Overwrite(s.mem, old(m.mem), p + 8, rem + 3, contents + 3, p + contents + 8, rem - contents + 3);
    CutStep(s, Virtual(m, p, contents), m.dv, m.dvsize, p, contents, rem);
    FirstPiece(s.L, m.L, p, p + contents, p + rem, contents);
  }

  lemma FirstPiece(L: Layout, L': Layout, p: int, r: int, n: int, size: int)
    requires p in L && L[p].pin && L' == Two(L, p, r, n, Live, Live) && p < r < n && size == r - p
    ensures p in L' && L'[p] == Chunk(Live, size, true)
  {
  }

  /** A word of the pointer array is filled in. */
  method FillSlot(m: MallocState, p: int, rem: int, arr: int, w: int, v: int)
    requires Cutting(m, p, rem) && arr in Blocks(m.L) && arr + 16 <= w < arr + Blocks(m.L)[arr] + 8 && p != arr
    modifies m`mem
    ensures Cutting(m, p, rem) && m.mem == old(m.mem)[w := v]
  {
    hide *;
    BlocksIs(m.L);
    ghost var s := Virtual(m, p, rem);
    CuttingIs(m, p, rem);
    NowIs(m);
    ChunkFacts(s, {m.dv}, p);
    ChunkFacts(s, {m.dv}, arr);
    TwoBlocksApart(s, {m.dv}, p, arr);
    m.mem := m.mem[w := v];
    NowIs(m);
    CuttingIs(m, p, rem);
    Commute(old(m.mem), w, v, p + 8, rem + 3);
    LocalStore(s.mem, w, v, arr + 16, arr + m.L[arr].size + 8);
    StoreStep(s, Virtual(m, p, rem), arr, arr + m.L[arr].size, {m.dv});
  }

  lemma Commute(m: Mem, a: int, x: int, b: int, y: int)
    requires a != b
    ensures m[a := x][b := y] == m[b := y][a := x]
  {
  }

  // ---- the loop over the elements ----

  /** The sizes the elements end up with: the last absorbs what is left. */
  function Actual(xs: seq<int>, rem: int): seq<int>
    requires xs != []
  {
    xs[..|xs| - 1] + [rem - Sum(xs[..|xs| - 1])]
  }

  /** The elements are one behind the other from p on. */
  ghost predicate Laid(elems: seq<int>, p: int, xs: seq<int>) {
    |elems| <= |xs| && forall i :: 0 <= i < |elems| ==> elems[i] == p + Sum(xs[..i]) + 16
  }

  lemma LaidIs(elems: seq<int>, p: int, xs: seq<int>)
    ensures Laid(elems, p, xs) <==> |elems| <= |xs| && forall i ::
                                      0 <= i < |elems| ==> elems[i] == p + Sum(xs[..i]) + 16
  {
  }

  lemma TakeActual(xs: seq<int>, rem: int, k: nat)
    requires xs != [] && k < |xs|
    ensures |Actual(xs, rem)| == |xs| && Actual(xs, rem)[..k] == xs[..k]
    ensures Sum(Actual(xs, rem)) == rem
  {
    AddOne(map[], 0, xs[..|xs| - 1], rem - Sum(xs[..|xs| - 1]));
  }

  lemma LaidActual(elems: seq<int>, p: int, xs: seq<int>, rem: int)
    requires xs != [] && |elems| == |xs| && Laid(elems, p, xs)
    ensures Laid(elems, p, Actual(xs, rem))
  {
    hide Sum, Actual;
    TakeActual(xs, rem, 0);
    forall i | 0 <= i < |elems| ensures elems[i] == p + Sum(Actual(xs, rem)[..i]) + 16 { TakeActual(xs, rem, i); }
  }

  /** One more block done. */
  lemma DoneOne(B: map<int, int>, p0: int, xs: seq<int>, k: nat, q: int, rem: int, B1: map<int, int>, B2: map<int, int>)
    requires k < |xs| && q == p0 + Sum(xs[..k])
    requires B1 == AddBlocks(B, p0, xs[..k])[q := rem]
    requires B2 == (B1 - {q})[q := xs[k]][q + xs[k] := rem - xs[k]]
    ensures B2 == AddBlocks(B, p0, xs[..k + 1])[q + xs[k] := rem - xs[k]]
    ensures Sum(xs[..k + 1]) == Sum(xs[..k]) + xs[k]
  {
    assert xs[..k + 1] == xs[..k] + [xs[k]];
    AddOne(B, p0, xs[..k], xs[k]);
    var A := AddBlocks(B, p0, xs[..k]);
    assert (A[q := rem] - {q})[q := xs[k]] == A[q := xs[k]];
  }

  lemma AddNone(B: map<int, int>, p: int, xs: seq<int>)
    ensures xs[..0] == [] && Sum(xs[..0]) == 0 && AddBlocks(B, p, xs[..0]) == B
  {
  }

  lemma LastSize(B: map<int, int>, p0: int, xs: seq<int>, rem: int)
    requires xs != []
    ensures var init := xs[..|xs| - 1];
            AddBlocks(B, p0, Actual(xs, rem)) == AddBlocks(B, p0, init)[p0 + Sum(init) := rem - Sum(init)]
  {
    AddOne(B, p0, xs[..|xs| - 1], rem - Sum(xs[..|xs| - 1]));
  }

  lemma PutAgain(B: map<int, int>, p: int, size: int)
    requires p in B && B[p] == size
    ensures (B - {p})[p := size] == B
  {
  }

  /** Only heads of the elements and words in [lo, hi) were written. */
  ghost predicate OnlyHeads(m: Mem, m': Mem, elems: seq<int>, lo: int, hi: int) {
    forall w :: w + 8 !in elems && !(lo <= w < hi) ==> Rd(m', w) == Rd(m, w)
  }

  lemma OnlyHeadsMore(m: Mem, m1: Mem, elems: seq<int>, lo: int, hi: int, e: int, w: int, v: int)
    requires OnlyHeads(m, m1, elems, lo, hi) && (w == e - 8 || lo <= w < hi)
    ensures OnlyHeads(m, m1[w := v], elems + [e], lo, hi)
  {
    Longer(elems, e);
    forall x | x + 8 !in elems + [e] && !(lo <= x < hi) ensures Rd(m1[w := v], x) == Rd(m, x) {
      assert x + 8 !in elems && x + 8 != e;
    }
  }

  lemma Longer(elems: seq<int>, e: int)
    ensures forall y :: y in elems + [e] <==> y in elems || y == e
  {
  }

  lemma OnlyHeadsStill(m: Mem, m1: Mem, elems: seq<int>, lo: int, hi: int, w: int, v: int)
    requires OnlyHeads(m, m1, elems, lo, hi) && w + 8 in elems
    ensures OnlyHeads(m, m1[w := v], elems, lo, hi)
  {
  }

  /** The loop of ialloc. */
  method CutAll(m: MallocState, p0: int, rem0: int, xs: seq<int>, own: bool, arr: int) returns (elems: seq<int>)
    requires Cutting(m, p0, rem0) && xs != [] && (forall i :: 0 <= i < |xs| ==> xs[i] >= 32 && xs[i] % 16 == 0)
      && rem0 >= Sum(xs)
    requires own ==> arr == p0 + rem0 && arr in Blocks(m.L) && Blocks(m.L)[arr] >= 8 * |xs| + 8
    modifies m`mem, m`L
    ensures m.Valid() && Blocks(m.L) == AddBlocks(Blocks(old(m.L)) - {p0}, p0, Actual(xs, rem0))
    ensures |elems| == |xs| && Laid(elems, p0, Actual(xs, rem0))
    ensures OnlyHeads(old(m.mem), m.mem, elems, p0 + rem0 + 16, p0 + rem0 + 16 + (if own then 8 * |xs| else 0))
    ensures own ==> forall i :: 0 <= i < |elems| ==> Rd(m.mem, arr + 16 + 8 * i) == elems[i]
  {
    hide *;
    ghost var m0, B := m.mem, Blocks(m.L) - {p0};
    ghost var lo := p0 + rem0 + 16;
    ghost var hi := lo + if own then 8 * |xs| else 0;
    elems := [];
    var p, rem, i := p0, rem0, 0;
    AddNone(B, p0, xs);
    CuttingIs(m, p0, rem0);
    BlocksIs(m.L);
    PutAgain(Blocks(m.L), p0, rem0);
    Nothing(m0, lo, hi);
    while true
      invariant 0 <= i < |xs| && Cutting(m, p, rem) && p == p0 + Sum(xs[..i]) && rem == rem0 - Sum(xs[..i])
      invariant Blocks(m.L) == AddBlocks(B, p0, xs[..i])[p := rem]
      invariant |elems| == i && (forall j :: 0 <= j < i ==> elems[j] == p0 + Sum(xs[..j]) + 16)
      invariant OnlyHeads(m0, m.mem, elems, lo, hi)
      invariant own ==> arr in Blocks(m.L) && Blocks(m.L)[arr] >= 8 * |xs| + 8
      invariant own ==> forall j :: 0 <= j < i ==> Rd(m.mem, arr + 16 + 8 * j) == elems[j]
      decreases |xs| - i
    {
      SumBounds(xs, i);
      elems := NoteElement(m, p, rem, elems, own, arr, m0, lo, hi);
      ghost var m2 := m.mem;
      assert elems[i] == p + 16 && p + 16 in elems;
      if i != |xs| - 1 {
        ghost var B1 := Blocks(m.L);
        var size := xs[i];
        SumBounds(xs, i + 1);
        CutElement(m, p, size, rem);
        DoneOne(B, p0, xs, i, p, rem, B1, Blocks(m.L));
        OnlyHeadsStill(m0, m2, elems, lo, hi, p + 8, size + 3);
        WriteOne(m2, p + 8, size + 3);
        rem := rem - size;
        p := p + size;
      } else {
        LastElement(m, p, rem);
        OnlyHeadsStill(m0, m2, elems, lo, hi, p + 8, rem + 3);
        WriteOne(m2, p + 8, rem + 3);
        LastSize(B, p0, xs, rem0);
        LaidIs(elems, p0, xs);
        LaidActual(elems, p0, xs, rem0);
        break;
      }
      i := i + 1;
    }
  }

  /** marray[i] := chunk2mem(p), in the heap when the array is ours. */
  method NoteElement(m: MallocState, p: int, rem: int, elems0: seq<int>, own: bool, arr: int, ghost m0: Mem,
                     ghost lo: int, ghost hi: int)
    returns (elems: seq<int>)
    requires Cutting(m, p, rem) && OnlyHeads(m0, m.mem, elems0, lo, hi)
    requires own ==> arr in Blocks(m.L) && Blocks(m.L)[arr] >= 8 * |elems0| + 16 && p != arr && lo == arr + 16
                     && hi >= lo + 8 * |elems0| + 8
    modifies m`mem
    ensures elems == elems0 + [p + 16] && Cutting(m, p, rem) && OnlyHeads(m0, m.mem, elems, lo, hi)
    ensures forall w :: !(own && w == arr + 16 + 8 * |elems0|) ==> Rd(m.mem, w) == Rd(old(m.mem), w)
    ensures own ==> Rd(m.mem, arr + 16 + 8 * |elems0|) == p + 16
  {
    hide *;
    ghost var m1 := m.mem;
    if own {
      FillSlot(m, p, rem, arr, arr + 16 + 8 * |elems0|, p + 16);
      OnlyHeadsMore(m0, m1, elems0, lo, hi, p + 16, arr + 16 + 8 * |elems0|, p + 16);
      WriteOne(m1, arr + 16 + 8 * |elems0|, p + 16);
    } else {
      OneMore(m0, m1, elems0, lo, hi, p + 16);
    }
    elems := elems0 + [p + 16];
  }

  /** The final element absorbs what is left. */
  method LastElement(m: MallocState, p: int, rem: int)
    requires Cutting(m, p, rem) && rem >= 0
    modifies m`mem
    ensures m.Valid() && m.mem == old(m.mem)[p + 8 := rem + 3]
  {
    hide *;
    ghost var m1 := m.mem;
    CuttingIs(m, p, rem);
    NowIs(m);
    SetInuseHead(m, p, rem);
    NowIs(m);
    LastHead(m, m1, p, rem);
  }

  lemma Nothing(m: Mem, lo: int, hi: int)
    ensures OnlyHeads(m, m, [], lo, hi)
  {
  }

  lemma WriteOne(m: Mem, w: int, v: int)
    ensures Rd(m[w := v], w) == v && forall x :: x != w ==> Rd(m[w := v], x) == Rd(m, x)
  {
  }

  lemma OneMore(m: Mem, m1: Mem, elems: seq<int>, lo: int, hi: int, e: int)
    requires OnlyHeads(m, m1, elems, lo, hi)
    ensures OnlyHeads(m, m1, elems + [e], lo, hi)
  {
    Longer(elems, e);
    forall x | x + 8 !in elems + [e] && !(lo <= x < hi) ensures Rd(m1, x) == Rd(m, x) {
      assert x + 8 !in elems;
    }
  }

  lemma LastHead(m: MallocState, m1: Mem, p: int, rem: int)
    requires m.mem == m1[p + 8 := rem + 3] && rem >= 0 && p in m.L && m.L[p] == Chunk(Live, rem, true)
    requires Inv(m.Now().(mem := m1[p + 8 := rem + 3]), {m.dv}) && DvOK(m.L, m.dv, m.dvsize)
    requires m.footprint == TotalSize(m.segs) && m.footprint <= m.maxFootprint
    ensures m.Valid()
  {
    hide *;
    NowIs(m);
    ConsistentIs(m, {m.dv});
    ValidIs(m);
  }

  // ---- the whole of ialloc ----

  lemma ElementsAre(n: nat, sizes: seq<U64>, same: bool)
    requires if same then |sizes| >= 1 else |sizes| >= n
    ensures var xs := ElementSizes(n, sizes, same);
            |xs| == n && forall i :: 0 <= i < n ==> xs[i] >= 32 && xs[i] % 16 == 0
                                                    && xs[i] == Request2Size(if same then sizes[0] else sizes[i])
  {
    forall i | 0 <= i < n ensures ElementSizes(n, sizes, same)[i] >= 32 && ElementSizes(n, sizes, same)[i] % 16 == 0 {
      Request2SizeFits(if same then sizes[0] else sizes[i]);
    }
  }

  lemma {:induction false} SumSame(xs: seq<int>, x: int)
    requires forall i :: 0 <= i < |xs| ==> xs[i] == x
    ensures Sum(xs) == |xs| * x
  {
    if xs != [] {
      SumSame(xs[..|xs| - 1], x);
      assert |xs| * x == (|xs| - 1) * x + x;
    }
  }

  /** The total size of the elements, in 64-bit arithmetic. */
  method ContentsSize(n: nat, sizes: seq<U64>, same: bool) returns (contents: int)
    requires if same then |sizes| >= 1 else |sizes| >= n
    ensures contents == Sum(ElementSizes(n, sizes, same)) % 0x1_0000_0000_0000_0000
  {
    ghost var xs := ElementSizes(n, sizes, same);
    ElementsAre(n, sizes, same);
    if same {
      contents := n * Request2Size(sizes[0]) % 0x1_0000_0000_0000_0000;
      SumSame(xs, Request2Size(sizes[0]));
    } else {
      contents := 0;
      var i := 0;
      while i != n
        invariant 0 <= i <= n && contents == Sum(xs[..i]) % 0x1_0000_0000_0000_0000
      {
        SumBounds(xs, i);
        WrappedSum(Sum(xs[..i]), Request2Size(sizes[i]));
        contents := (contents + Request2Size(sizes[i])) % 0x1_0000_0000_0000_0000;
        i := i + 1;
      }
      assert xs[..n] == xs;
    }
  }

  lemma WrappedSum(a: nat, b: nat)
    ensures (a % 0x1_0000_0000_0000_0000 + b) % 0x1_0000_0000_0000_0000 == (a + b) % 0x1_0000_0000_0000_0000
  {
  }

  /** The size of the pointer array, for a product in 64-bit arithmetic. */
  function WrappedArray(n: nat, own: bool): nat {
    if own then Request2Size(8 * n % 0x1_0000_0000_0000_0000) else 0
  }

  /** The size that ialloc asks for. */
  function Asked(n: nat, sizes: seq<U64>, same: bool, own: bool): int
    requires if same then |sizes| >= 1 else |sizes| >= n
  {
    (Sum(ElementSizes(n, sizes, same)) % 0x1_0000_0000_0000_0000 + WrappedArray(n, own)) % 0x1_0000_0000_0000_0000
  }

  /** The bytes that ialloc asks malloc for. */
  function AskedBytes(n: nat, sizes: seq<U64>, same: bool, own: bool): U64
    requires if same then |sizes| >= 1 else |sizes| >= n
  {
    (Asked(n, sizes, same, own) - 8) % 0x1_0000_0000_0000_0000
  }

  /**
   * The chunk that malloc gives for them has room for the elements and the array exactly when their sum fits 64 bits.
   */
  lemma RoomUnlessWrapped(n: nat, sizes: seq<U64>, same: bool, own: bool, total: int)
    requires if same then |sizes| >= 1 else |sizes| >= n
    requires var bytes := AskedBytes(n, sizes, same, own);
             bytes < 0xFFFF_FFFF_FFFF_FF80 && ChunkRequest(bytes) <= total < ChunkRequest(bytes) + 32
    ensures var need := Sum(ElementSizes(n, sizes, same)) + ArraySize(n, own);
            need <= total <==> need < 0x1_0000_0000_0000_0000
  {
    hide *;
    var xs := ElementSizes(n, sizes, same);
    ElementsAre(n, sizes, same);
    SumBounds(xs, 0);
    SumIs(xs[..0]);
    assert xs[..0] == [];
    ArrayFits(n, own);
    Request2SizeFits(8 * n % 0x1_0000_0000_0000_0000);
    AskedParts(n, sizes, same, own);
    GivenFor(Asked(n, sizes, same, own), AskedBytes(n, sizes, same, own), total);
    if 8 * n < 0x1_0000_0000_0000_0000 {
      NoWrap(8 * n);
      WrappedSum(Sum(xs), ArraySize(n, own));
      WrappedRoom(Sum(xs) + ArraySize(n, own), total);
    }
  }

  lemma WrappedRoom(need: nat, total: int)
    requires need % 0x1_0000_0000_0000_0000 <= total < need % 0x1_0000_0000_0000_0000 + 48
    ensures need <= total <==> need < 0x1_0000_0000_0000_0000
  {
  }

  lemma AskedParts(n: nat, sizes: seq<U64>, same: bool, own: bool)
    requires if same then |sizes| >= 1 else |sizes| >= n
    ensures var a := if own then Request2Size(8 * n % 0x1_0000_0000_0000_0000) else 0;
            Asked(n, sizes, same, own)
              == (Sum(ElementSizes(n, sizes, same)) % 0x1_0000_0000_0000_0000 + a) % 0x1_0000_0000_0000_0000
    ensures AskedBytes(n, sizes, same, own) == (Asked(n, sizes, same, own) - 8) % 0x1_0000_0000_0000_0000
    ensures Asked(n, sizes, same, own) % 16 == 0
  {
    hide *;
    AskedUnfold(n, sizes, same, own);
    var xs := ElementSizes(n, sizes, same);
    ElementsAre(n, sizes, same);
    SumBounds(xs, |xs|);
    assert xs[..|xs|] == xs;
    var b := 8 * n % 0x1_0000_0000_0000_0000;
    Request2SizeFits(b);
    var a := if own then Request2Size(b) else 0;
    AlignedTotal(Sum(xs), a);
  }

  lemma AskedUnfold(n: nat, sizes: seq<U64>, same: bool, own: bool)
    requires if same then |sizes| >= 1 else |sizes| >= n
    ensures var a := if own then Request2Size(8 * n % 0x1_0000_0000_0000_0000) else 0;
            Asked(n, sizes, same, own)
              == (Sum(ElementSizes(n, sizes, same)) % 0x1_0000_0000_0000_0000 + a) % 0x1_0000_0000_0000_0000
    ensures AskedBytes(n, sizes, same, own) == (Asked(n, sizes, same, own) - 8) % 0x1_0000_0000_0000_0000
  {
    hide Sum, ElementSizes, Request2Size;
  }

  lemma AlignedTotal(x: int, a: int)
    requires x % 16 == 0 && a % 16 == 0
    ensures (x % 0x1_0000_0000_0000_0000 + a) % 0x1_0000_0000_0000_0000 % 16 == 0
  {
    StillAligned(x);
    SumOfMultiples(x % 0x1_0000_0000_0000_0000, a, 16);
    StillAligned(x % 0x1_0000_0000_0000_0000 + a);
  }

  lemma StillAligned(x: int)
    requires x % 16 == 0
    ensures x % 0x1_0000_0000_0000_0000 % 16 == 0
  {
  }

  /**
   * malloc's chunk for eight bytes less than an aligned size: the size, or the least chunk for the smallest of them.
   */
  lemma GivenFor(asked: int, bytes: U64, total: int)
    requires 0 <= asked < 0x1_0000_0000_0000_0000 && asked % 16 == 0 && bytes == (asked - 8) % 0x1_0000_0000_0000_0000
    requires bytes < 0xFFFF_FFFF_FFFF_FF80 && ChunkRequest(bytes) <= total < ChunkRequest(bytes) + 32
    ensures 16 <= asked <= total < asked + 48
  {
  }

  lemma AskedIs(n: nat, sizes: seq<U64>, same: bool, own: bool)
    requires if same then |sizes| >= 1 else |sizes| >= n
    requires Sum(ElementSizes(n, sizes, same)) + ArraySize(n, own) < 0x1_0000_0000_0000_0000
    ensures 32 * n <= Sum(ElementSizes(n, sizes, same))
    ensures Sum(ElementSizes(n, sizes, same)) % 0x1_0000_0000_0000_0000 == Sum(ElementSizes(n, sizes, same))
    ensures WrappedArray(n, own) == ArraySize(n, own)
  {
    hide Sum, ElementSizes, Request2Size;
    var xs := ElementSizes(n, sizes, same);
    ElementsAre(n, sizes, same);
    SumBounds(xs, 0);
    assert xs[..0] == [];
    ArrayFits(n, own);
  }

  /** Two elements of half the address space: ialloc asks for the least chunk. */
  lemma TwoHalvesWrap()
    ensures var sizes: seq<U64> := [0x8000_0000_0000_0000, 0x8000_0000_0000_0000]; Asked(2, sizes, false, false) == 32
  {
    var sizes: seq<U64> := [0x8000_0000_0000_0000, 0x8000_0000_0000_0000];
    var xs := ElementSizes(2, sizes, false);
    ElementsAre(2, sizes, false);
    assert xs[..1][..0] == [] && xs == [0x8000_0000_0000_0010, 0x8000_0000_0000_0010];
    assert Sum(xs[..1]) == 0x8000_0000_0000_0010;
  }

  /** Every element's usable words are zero. */
  ghost predicate AllZero(m: Mem, elems: seq<int>, xs: seq<int>) {
    |elems| == |xs| && forall i, k {:trigger Word(elems[i], k)} ::
          0 <= i < |elems| && 0 <= 8 * k < xs[i] - 8 ==> Rd(m, Word(elems[i], k)) == 0
  }

  lemma Between(xs: seq<int>, i: nat, j: nat)
    requires i <= j <= |xs| && forall k :: 0 <= k < |xs| ==> xs[k] >= 32 && xs[k] % 16 == 0
    ensures i < j ==> Sum(xs[..i]) + xs[i] <= Sum(xs[..j])
    ensures Sum(xs[..j]) <= Sum(xs) && Sum(xs[..i]) >= 0 && Sum(xs[..i]) % 16 == 0
  {
    hide Sum;
    Prefix(xs, j);
    Prefix(xs, i);
    SumBounds(xs, i);
    SumBounds(xs, j);
    if i < j {
      Prefix(xs, i + 1);
      SumBounds(xs[..j], i + 1);
      assert xs[..j][..i + 1] == xs[..i + 1];
    }
  }

  lemma Prefix(xs: seq<int>, i: nat)
    requires i <= |xs| && forall k :: 0 <= k < |xs| ==> xs[k] >= 32 && xs[k] % 16 == 0
    ensures Sum(xs[..i]) % 16 == 0 && Sum(xs[..i]) >= 0
  {
    hide Sum;
    SumBounds(xs[..i], i);
    assert xs[..i][..i] == xs[..i];
  }

  lemma ElementsZero(m: Mem, m': Mem, p: int, zn: nat, elems: seq<int>, xs: seq<int>, lo: int, hi: int)
    requires ZeroBytes(m, p + 16, zn) && OnlyHeads(m, m', elems, lo, hi) && |elems| == |xs| && xs != []
    requires forall i :: 0 <= i < |elems| ==> elems[i] == p + Sum(xs[..i]) + 16
    requires forall k :: 0 <= k < |xs| ==> xs[k] >= 32 && xs[k] % 16 == 0
    requires zn >= Sum(xs) - 8 && zn % 8 == 0 && (lo >= p + Sum(xs) + 16 || lo == hi)
    ensures AllZero(m', elems, xs)
  {
    hide *;
    AllZeroIs(m', elems, xs);
    forall i, k {:trigger Word(elems[i], k)} | 0 <= i < |elems| && 0 <= 8 * k < xs[i] - 8
      ensures Rd(m', Word(elems[i], k)) == 0
    {
      var w := Word(elems[i], k);
      Between(xs, i, i + 1);
      WordOf(p, Sum(xs[..i]), k, zn);
      WordIs(elems[i], k);
      ZeroAt(m, p + 16, zn, Sum(xs[..i]) / 8 + k);
      forall j | 0 <= j < |elems| ensures elems[j] != w + 8 {
        if j <= i { Between(xs, j, i); } else { Between(xs, i, j); }
      }
      assert w + 8 !in elems;
      OnlyHeadsAt(m, m', elems, lo, hi, w);
    }
  }

  lemma AllZeroIs(m: Mem, elems: seq<int>, xs: seq<int>)
    ensures AllZero(m, elems, xs) <==>
      && |elems| == |xs|
      && forall i, k {:trigger Word(elems[i], k)} :: 0 <= i < |elems| && 0 <= 8 * k < xs[i] - 8 ==>
           Rd(m, Word(elems[i], k)) == 0
  {
  }

  /** Word k of an element that begins q bytes into the chunk is a word of the chunk. */
  lemma WordOf(p: int, q: int, k: int, zn: nat)
    requires q % 16 == 0 && zn % 8 == 0
    ensures p + q + 16 + 8 * k == Word(p + 16, q / 8 + k)
    ensures q >= 0 && k >= 0 && q + 8 * k < zn ==> 0 <= q / 8 + k < zn / 8
  {
    var h := q / 16;
    DivUnique(q, 8, 2 * h, 0);
  }

  lemma ZeroAt(m: Mem, b: int, n: nat, k: int)
    requires ZeroBytes(m, b, n) && 0 <= k < n / 8
    ensures Rd(m, Word(b, k)) == 0
  {
  }

  lemma OthersKept(s: Snap, out: set<int>, m': Mem, p: int, elems: seq<int>, lo: int, hi: int, B: map<int, int>)
    requires Inv(s, out) && p in s.L && s.L[p].kind.Live? && OnlyHeads(s.mem, m', elems, lo, hi)
    requires forall e :: e in elems ==> p + 16 <= e <= p + s.L[p].size
    requires lo == hi || (lo >= p + 8 && hi <= p + s.L[p].size + 8)
    requires p !in B && forall c :: c in B ==> c in s.L && s.L[c].size == B[c]
    ensures PayloadKept(s.mem, m', B)
  {
    hide *;
    PayloadIs(s.mem, m', B);
    forall c, w | c in B && c + 16 <= w < c + B[c] + 8 ensures Rd(m', w) == Rd(s.mem, w) {
      TwoBlocksApart(s, out, p, c);
      OnlyHeadsAt(s.mem, m', elems, lo, hi, w);
    }
  }

  lemma OnlyHeadsAt(m: Mem, m': Mem, elems: seq<int>, lo: int, hi: int, w: int)
    requires OnlyHeads(m, m', elems, lo, hi) && w + 8 !in elems && !(lo <= w < hi)
    ensures Rd(m', w) == Rd(m, w)
  {
  }

  function ArraySize(n: nat, own: bool): nat {
    if own then Request2Size(8 * n) else 0
  }

  lemma ArrayFits(n: nat, own: bool)
    ensures ArraySize(n, own) % 16 == 0 && (own ==> ArraySize(n, own) >= 8 * n + 8 && ArraySize(n, own) >= 32)
    ensures ArraySize(n, own) == if own then Request2Size(8 * n) else 0
  {
    Request2SizeFits(8 * n);
  }

  /** A request of eight less than an aligned size is for exactly that size. */
  lemma ExactRequest(size: int)
    requires size % 16 == 0 && 32 <= size < 0x1_0000_0000_0000_0000
    ensures size - 8 < 0xFFFF_FFFF_FFFF_FF80 ==> ChunkRequest(size - 8) == size
  {
  }

  /**
   * The blocks B' are the blocks B and, cut out of one chunk of total bytes, the elements, each of its size but the
   * last, which with the slop fills the chunk, unless the pointer array does.
   */
  ghost predicate Cut(B: map<int, int>, B': map<int, int>, elems: seq<int>, xs: seq<int>, own: bool, marray: int,
                      total: int)
  {
    xs != [] && |elems| == |xs| &&
    var p := elems[0] - 16;
    var rem := if own then Sum(xs) else total;
    && Sum(xs) + ArraySize(|xs|, own) <= total < Sum(xs) + ArraySize(|xs|, own) + 32
    && B' == AddBlocks(if own then B[p + Sum(xs) := total - Sum(xs)] else B, p, Actual(xs, rem))
    && Laid(elems, p, Actual(xs, rem)) && (own ==> marray == p + Sum(xs) + 16)
    && (forall c :: c in B ==> c < p || c >= p + total)
  }

  lemma CutIs(B: map<int, int>, B': map<int, int>, elems: seq<int>, xs: seq<int>, own: bool, marray: int, total: int,
              p: int, rem: int)
    requires xs != [] && |elems| == |xs| && p == elems[0] - 16 && rem == if own then Sum(xs) else total
    ensures Cut(B, B', elems, xs, own, marray, total) <==>
      && Sum(xs) + ArraySize(|xs|, own) <= total < Sum(xs) + ArraySize(|xs|, own) + 32
      && B' == AddBlocks(if own then B[p + Sum(xs) := total - Sum(xs)] else B, p, Actual(xs, rem))
      && Laid(elems, p, Actual(xs, rem)) && (own ==> marray == p + Sum(xs) + 16)
      && (forall c :: c in B ==> c < p || c >= p + total)
  {
  }

  lemma FirstElement(elems: seq<int>, p: int, xs: seq<int>, rem: int)
    requires xs != [] && |elems| == |xs| && Laid(elems, p, Actual(xs, rem))
    ensures elems[0] == p + 16
    ensures forall i :: 0 <= i < |elems| ==> elems[i] == p + Sum(xs[..i]) + 16
  {
    hide Sum, Actual;
    TakeActual(xs, rem, 0);
    AddNone(map[], p, xs);
    forall i | 0 <= i < |elems| ensures elems[i] == p + Sum(xs[..i]) + 16 { TakeActual(xs, rem, i); }
  }

  /** Cut a fresh chunk of total bytes at p into the elements and perhaps the pointer array. */
  method CutChunk(m: MallocState, p: int, total: int, xs: seq<int>, own: bool, ghost B: map<int, int>)
      returns (marray: int, elems: seq<int>)
    requires m.Valid() && xs != [] && (forall i :: 0 <= i < |xs| ==> xs[i] >= 32 && xs[i] % 16 == 0)
    requires p in m.L && m.L[p] == Chunk(Live, total, true) && p !in B && Blocks(m.L) == B[p := total]
    requires Sum(xs) + ArraySize(|xs|, own) <= total < Sum(xs) + ArraySize(|xs|, own) + 32
    modifies m`mem, m`L
    ensures m.Valid() && PayloadKept(old(m.mem), m.mem, B) && |elems| == |xs|
    ensures elems[0] == p + 16
    ensures Cut(B, Blocks(m.L), elems, xs, own, marray, total)
    ensures own ==> forall i :: 0 <= i < |elems| ==> Rd(m.mem, marray + 8 * i) == elems[i]
    ensures forall zn: nat :: ZeroBytes(old(m.mem), p + 16, zn) && zn % 8 == 0 && zn >= Sum(xs) - 8 ==>
                              AllZero(m.mem, elems, xs)
  {
    hide *;
    ghost var s0, out, m0 := m.Now(), {m.dv}, m.mem;
    NowIs(m);
    ValidIs(m);
    ConsistentIs(m, {m.dv});
    ChunkFacts(s0, out, p);
    HeadOfIs(m.L[p]);
    StartCutting(m, p, total);
    ArrayFits(|xs|, own);
    BlocksIs(m.L);
    var contents := Sum(xs);
    SumBounds(xs, |xs|);
    assert xs[..|xs|] == xs;
    SumBounds(xs, 0);
    var rem := total;
    var arr := 0;
    marray := 0;
    DropPut(B, p, total);
    if own {
      arr := p + contents;
      marray := arr + 16;
      CutArray(m, p, contents, total);
      rem := contents;
      WriteOne(m0, arr + 8, total - contents + 3);
    }
    ghost var B1, m1 := Blocks(m.L), m.mem;
    RemoveP(B, p, contents, arr, total - contents);
    elems := CutAll(m, p, rem, xs, own, arr);
    FirstElement(elems, p, xs, rem);
    Aside(s0, out, p, B);
    CutIs(B, Blocks(m.L), elems, xs, own, marray, total, p, rem);
    ghost var lo := p + rem + 16;
    ghost var hi := lo + if own then 8 * |xs| else 0;
    ElementsInside(elems, p, xs, total);
    ghost var es := elems + if own then [arr + 16] else [];
    AllHeads(m0, m1, m.mem, elems, es, lo, hi, own, arr, total - contents + 3);
    OthersKept(s0, out, m.mem, p, es, lo, hi, B);
    ChunkZero(m0, m1, m.mem, p, contents, own, total - contents + 3, elems, xs, lo, hi);
  }

  lemma ChunkZero(m0: Mem, m1: Mem, m2: Mem, p: int, contents: int, own: bool, v: int, elems: seq<int>, xs: seq<int>,
                  lo: int, hi: int)
    requires xs != [] && contents == Sum(xs) >= 32 && contents % 16 == 0 && OnlyHeads(m1, m2, elems, lo, hi)
      && |elems| == |xs|
    requires forall i :: 0 <= i < |elems| ==> elems[i] == p + Sum(xs[..i]) + 16
    requires forall k :: 0 <= k < |xs| ==> xs[k] >= 32 && xs[k] % 16 == 0
    requires m1 == (if own then m0[p + contents + 8 := v] else m0) && (lo >= p + contents + 16 || lo == hi)
    ensures forall zn: nat :: ZeroBytes(m0, p + 16, zn) && zn % 8 == 0 && zn >= Sum(xs) - 8 ==> AllZero(m2, elems, xs)
  {
    hide *;
    forall zn: nat | ZeroBytes(m0, p + 16, zn) && zn % 8 == 0 && zn >= Sum(xs) - 8 ensures AllZero(m2, elems, xs) {
      ZeroThrough(m0, m1, p, contents, own, v, zn);
      Eighths(contents, zn);
      ElementsZero(m1, m2, p, contents - 8, elems, xs, lo, hi);
    }
  }

  lemma DropPut(B: map<int, int>, p: int, total: int)
    requires p !in B
    ensures B[p := total] - {p} == B
  {
  }

  lemma RemoveP(B: map<int, int>, p: int, contents: int, arr: int, x: int)
    requires p !in B
    ensures arr != p ==> B[p := contents][arr := x] - {p} == B[arr := x]
  {
  }

  lemma Aside(s: Snap, out: set<int>, p: int, B: map<int, int>)
    requires Inv(s, out) && p in s.L && s.L[p].kind.Live? && p !in B && Blocks(s.L) == B[p := s.L[p].size]
    ensures forall c :: c in B ==> c in s.L && s.L[c].size == B[c] && (c < p || c >= p + s.L[p].size)
  {
    hide *;
    BlocksIs(s.L);
    forall c | c in B ensures c in s.L && s.L[c].size == B[c] && (c < p || c >= p + s.L[p].size) {
      assert c in Blocks(s.L) && Blocks(s.L)[c] == B[c];
      ChunkFacts(s, out, c);
      TwoBlocksApart(s, out, p, c);
    }
  }

  lemma ElementsInside(elems: seq<int>, p: int, xs: seq<int>, total: int)
    requires |elems| == |xs| && (forall i :: 0 <= i < |elems| ==> elems[i] == p + Sum(xs[..i]) + 16)
    requires forall k :: 0 <= k < |xs| ==> xs[k] >= 32 && xs[k] % 16 == 0
    ensures forall e :: e in elems ==> p + 16 <= e <= p + Sum(xs)
  {
    hide Sum;
    forall e | e in elems ensures p + 16 <= e <= p + Sum(xs) {
      var i :| 0 <= i < |elems| && elems[i] == e;
      Between(xs, i, i + 1);
    }
  }

  lemma AllHeads(m0: Mem, m1: Mem, m2: Mem, elems: seq<int>, es: seq<int>, lo: int, hi: int, own: bool, arr: int,
                 v: int)
    requires m1 == (if own then m0[arr + 8 := v] else m0) && OnlyHeads(m1, m2, elems, lo, hi)
    requires es == elems + if own then [arr + 16] else []
    ensures OnlyHeads(m0, m2, es, lo, hi)
  {
    if own { Longer(elems, arr + 16); }
    forall w | w + 8 !in es && !(lo <= w < hi) ensures Rd(m2, w) == Rd(m0, w) {
      assert Rd(m2, w) == Rd(m1, w);
    }
  }

  lemma ZeroThrough(m0: Mem, m1: Mem, p: int, contents: int, own: bool, v: int, zn: nat)
    requires ZeroBytes(m0, p + 16, zn) && zn % 8 == 0 && contents % 16 == 0 && 32 <= contents <= zn + 8
    requires m1 == if own then m0[p + contents + 8 := v] else m0
    ensures ZeroBytes(m1, p + 16, contents - 8)
  {
    hide *;
    Eighths(contents, zn);
    ZeroBytesIs(m0, p + 16, zn);
    ZeroBytesIs(m1, p + 16, contents - 8);
    if own { WriteOne(m0, p + contents + 8, v); }
    forall k {:trigger Word(p + 16, k)} | 0 <= k < (contents - 8) / 8 ensures Rd(m1, Word(p + 16, k)) == 0 {
      WordIs(p + 16, k);
      assert Rd(m0, Word(p + 16, k)) == 0;
    }
  }

  lemma Eighths(contents: int, zn: nat)
    requires contents % 16 == 0 && 32 <= contents <= zn + 8
    ensures (contents - 8) % 8 == 0 && (contents - 8) / 8 <= zn / 8
    ensures forall k :: 0 <= k < (contents - 8) / 8 ==> 8 * k < contents - 8
  {
  }

  lemma WordIs(a: int, k: int)
    ensures Word(a, k) == a + 8 * k
  {
  }

  lemma ZeroBytesIs(m: Mem, b: int, n: nat)
    ensures n % 8 == 0 ==> (ZeroBytes(m, b, n) <==> forall k {:trigger Word(b, k)} ::
                                                      0 <= k < n / 8 ==> Rd(m, Word(b, k)) == 0)
  {
  }

  /**
   * ialloc, with the caller's array (the results are elems) or one of our own (they are also stored from marray on).
   * The sizes must not overflow when added up: the source does not check.
   */
  method IallocMem(m: MallocState, n: nat, sizes: seq<U64>, same: bool, clear: bool, own: bool)
    returns (ok: bool, marray: int, elems: seq<int>, ghost total: int)
    requires m.Valid() && (if same then |sizes| >= 1 else |sizes| >= n)
    requires Sum(ElementSizes(n, sizes, same)) + ArraySize(n, own) < 0x1_0000_0000_0000_0000
    modifies m
    ensures m.Valid() && PayloadKept(old(m.mem), m.mem, Blocks(old(m.L)))
    ensures !ok ==> Blocks(m.L) == Blocks(old(m.L))
    ensures !ok <==> (n > 0 || own) && Denied(old(m.L), old(m.Side()), ChunkRequest(Needed(n, sizes, same, own)))
    ensures n == 0 ==> elems == []
    ensures n == 0 && own ==> Served(old(m.L), m.L, marray, 32) && (ok <==> marray != 0)
    ensures n == 0 && !own ==> ok && Blocks(m.L) == Blocks(old(m.L))
    ensures ok && n > 0 ==> |elems| == n && Cut(Blocks(old(m.L)), Blocks(m.L), elems, ElementSizes(n, sizes, same), own,
                                                marray, total)
    ensures ok && n > 0 && own ==> forall i :: 0 <= i < n ==> Rd(m.mem, marray + 8 * i) == elems[i]
    ensures ok && n > 0 && clear ==> AllZero(m.mem, elems, ElementSizes(n, sizes, same))
  {
    hide *;
    ghost var L0, m0 := m.L, m.mem;
    ok, marray, elems, total := false, 0, [], 0;
    PayloadRefl(m.mem, Blocks(m.L));
    NeededIs(n, sizes, same, own);
    if n == 0 {
      ok := true;
      if own {
        SmallestRequest();
        marray := Malloc(m, 0);
        ok := marray != 0;
        if !ok { ServedSameLive(L0, m.L, marray, 32); }
      }
      return;
    }
    ghost var xs := ElementSizes(n, sizes, same);
    ElementsAre(n, sizes, same);
    AskedIs(n, sizes, same, own);
    var arraySize := WrappedArray(n, own);
    ArrayFits(n, own);
    var contents := ContentsSize(n, sizes, same);
    SumBounds(xs, |xs|);
    assert xs[..|xs|] == xs;
    SumBounds(xs, 0);
    var size := (contents + arraySize) % 0x1_0000_0000_0000_0000;
    NoWrap(contents + arraySize);
    OverheadIs();
    ExactRequest(size);
    var mem := Malloc(m, size - CHUNK_OVERHEAD);
    if mem == 0 {
      ServedSameLive(L0, m.L, mem, ChunkRequest(size - 8));
      return;
    }
    var p := mem - 16;
    ServedRoom(m, L0, mem, size - 8);
    ServedIs(L0, m.L, mem, ChunkRequest(size - 8));
    ghost var n0 := p + m.L[p].size;
    LiveFacts(m, p, n0);
    var remainder := ChunkSize(Rd(m.mem, p + 8));
    total := remainder;
    if clear {
      ClearBlock(m, p, remainder - 8 - arraySize, Blocks(L0), m0);
    }
    ghost var m1 := m.mem;
    EightDivides(remainder, arraySize);
    marray, elems := CutChunk(m, p, remainder, ElementSizes(n, sizes, same), own, Blocks(L0));
    PayloadThen(m0, m1, m.mem, Blocks(L0), Blocks(L0), Blocks(L0));
    ok := true;
  }

  /** The bytes to ask malloc for. */
  function Needed(n: nat, sizes: seq<U64>, same: bool, own: bool): U64
    requires if same then |sizes| >= 1 else |sizes| >= n
    requires Sum(ElementSizes(n, sizes, same)) + ArraySize(n, own) < 0x1_0000_0000_0000_0000
  {
    if n == 0 then 0 else AskedIs(n, sizes, same, own); Sum(ElementSizes(n, sizes, same)) + ArraySize(n, own) - 8
  }

  lemma NeededIs(n: nat, sizes: seq<U64>, same: bool, own: bool)
    requires if same then |sizes| >= 1 else |sizes| >= n
    requires Sum(ElementSizes(n, sizes, same)) + ArraySize(n, own) < 0x1_0000_0000_0000_0000
    ensures Needed(n, sizes, same, own) == if n == 0 then 0
      else Sum(ElementSizes(n, sizes, same)) + ArraySize(n, own) - 8
  {
  }

  lemma NoWrap(x: int)
    requires 0 <= x < 0x1_0000_0000_0000_0000
    ensures x % 0x1_0000_0000_0000_0000 == x
  {
  }

  /** A new block is cleared. */
  method ClearBlock(m: MallocState, p: int, n: nat, ghost B: map<int, int>, ghost m0: Mem)
    requires m.Valid() && p !in B && p in Blocks(m.L) && n + 8 <= Blocks(m.L)[p] && PayloadKept(m0, m.mem, B)
    requires forall c :: c in B ==> c in Blocks(m.L) && Blocks(m.L)[c] == B[c]
    modifies m`mem
    ensures m.Valid() && ZeroBytes(m.mem, p + 16, n) && PayloadKept(m0, m.mem, B)
  {
    hide *;
    ghost var s1 := m.Now();
    NowIs(m);
    ValidIs(m);
    ConsistentIs(m, {m.dv});
    ClearBytes(m, p + 16, n);
    NowIs(m);
    BlockWrites(m, s1, p, p + 16, p + 16 + n);
    PayloadThen(m0, s1.mem, m.mem, B, B, Blocks(m.L) - {p});
  }

  lemma SmallestRequest()
    ensures ChunkRequest(0) == 32
  {
  }

  lemma EightDivides(a: int, b: int)
    requires a % 16 == 0 && b % 16 == 0
    ensures (a - 8 - b) % 8 == 0
  {
  }
}
