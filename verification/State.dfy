/**
 * The allocator's state: memory, bin maps, designated victim, top, segments and statistics, with the ghost view
 * they refine, and the invariant that ties the two together.
 */
module State {
  import opened Words
  import opened Memory
  import opened Tries
  import opened Layouts
  import opened Bins

  /** A segment of memory obtained from the system, and the address of its record (0 for the one held in the state). */
  datatype Seg = Seg(base: int, size: int, rec: int)

  /** A snapshot of the fields that the invariant speaks of. */
  datatype Snap = Snap(mem: Mem, smallmap: U32, treemap: U32, D: map<int, int>, rings: seq<seq<int>>, trees: seq<Tree>,
                       L: Layout, least: int, top: int, topsize: int,
                       segs: seq<Seg>, segBase: int, segSize: int, segNext: int)

  /** The system: what MORECORE answers, given every size asked of it so far, the present one last. */
  type System = seq<int> -> int

  /** What a request to the system depends on. */
  datatype Outside = Outside(system: System, asked: seq<int>, segs: seq<Seg>, topsize: int, footprint: int, limit: int,
                       noncontiguous: bool)

  class MallocState {
    var mem: Mem
    var smallmap: U32
    var treemap: U32
    var dv: int
    var dvsize: int
    var top: int
    var topsize: int
    var leastAddr: int
    var trimCheck: int
    var footprint: int
    var maxFootprint: int
    var footprintLimit: U64
    var noncontiguous: bool
    var segBase: int
    var segSize: int
    var segNext: int

    /** The chunks that tile the segments. */
    ghost var L: Layout
    /** The binned chunks and their sizes, and the bins that hold them. */
    ghost var D: map<int, int>
    ghost var rings: seq<seq<int>>
    ghost var trees: seq<Tree>

    /** The segments as the system granted them, most recent first: what it keeps new regions away from. */
    var segs: seq<Seg>

    /** The system, and the sizes asked of it so far. */
    const system: System
    var asked: seq<int>

    /** The state as static storage leaves it, with nothing but the footprint limit set. */
    constructor (limit: U64, sys: System)
      ensures mem == map[] && smallmap == 0 && treemap == 0 && dv == 0 && dvsize == 0 && top == 0 && topsize == 0
      ensures footprint == 0 && maxFootprint == 0 && footprintLimit == limit && segs == [] && segNext == 0 && L == map[]
        && D == map[]
      ensures |rings| == 32 && |trees| == 32 && system == sys && asked == [] && !noncontiguous
      ensures (forall i :: 0 <= i < 32 ==> rings[i] == []) && (forall i :: 0 <= i < 32 ==> trees[i] == Leaf)
    {
      mem, smallmap, treemap := map[], 0, 0;
      dv, dvsize, top, topsize, leastAddr, trimCheck := 0, 0, 0, 0, 0, 0;
      footprint, maxFootprint, footprintLimit, noncontiguous := 0, 0, limit, false;
      segBase, segSize, segNext, segs := 0, 0, 0, [];
      system, asked := sys, [];
      L, D := map[], map[];
      rings, trees := seq(32, i => []), seq(32, i => Leaf);
    }

    ghost predicate BinsValid()
      reads this
    {
      && BinsOK(mem, smallmap, treemap, D, rings, trees)
      && (forall x :: x in D ==> x >= leastAddr)
    }

    ghost function Now(): Snap
      reads this
    {
      Snap(mem, smallmap, treemap, D, rings, trees, L, leastAddr, top, topsize, segs, segBase, segSize, segNext)
    }

    ghost function Side(): Outside
      reads this
    {
      Outside(system, asked, segs, topsize, footprint, footprintLimit, noncontiguous)
    }

    /** The invariant of malloc_state, with every free chunk outside `out` in its bin. */
    ghost predicate Consistent(out: set<int>)
      reads this
    {
      Inv(Now(), out) && footprint == TotalSize(segs) && footprint <= maxFootprint
    }

    ghost predicate Valid()
      reads this
    {
      Consistent({dv}) && DvOK(L, dv, dvsize)
    }
  }

  // ---- the invariant ----

  /** The free chunks are the binned ones and those in `out`. */
  ghost predicate Filed(L: Layout, D: map<int, int>, out: set<int>) {
    && (forall p :: p in D ==> p in L && L[p].kind.Free? && L[p].size == D[p] && p !in out)
    && (forall p :: p in L && L[p].kind.Free? && p !in out ==> p in D)
  }

  /** The designated victim is a free chunk of the cached size. */
  predicate DvOK(L: Layout, dv: int, dvsize: int) {
    if dv == 0 then dvsize == 0 else dv in L && L[dv].kind.Free? && L[dv].size == dvsize
  }

  ghost predicate TopOK(L: Layout, top: int, topsize: int) {
    && (top == 0 ==> topsize == 0 && L == map[])
    && (top != 0 ==> top in L && L[top].kind.Top? && L[top].size == topsize)
    && (forall c :: c in L && L[c].kind.Top? ==> c == top)
  }

  /** How far a chunk reaches, the head of the chunk after it included. */
  function Reach(c: Chunk): int {
    match c.kind
    case Top => Extent(c)
    case Fence => 16
    case _ => c.size + 16
  }

  predicate InSeg(g: Seg, a: int, e: int) {
    g.base <= a && e <= g.base + g.size
  }

  ghost predicate Within(segs: seq<Seg>, a: int, e: int) {
    exists k :: 0 <= k < |segs| && InSeg(segs[k], a, e)
  }

  function AlignUp(a: int): int {
    (a + 15) / 16 * 16
  }

  predicate SegShape(g: Seg) {
    && g.base % 8 == 0 && g.size % 8 == 0 && g.size > 80
    && HEAP_FLOOR <= g.base && g.base + g.size <= ADDRESS_LIMIT
  }

  /** The first aligned address of a segment starts a chunk, and nothing free precedes it. */
  predicate FirstOK(L: Layout, g: Seg) {
    AlignUp(g.base) in L && L[AlignUp(g.base)].pin
  }

  /** No chunk lies behind a fencepost of the segment. */
  ghost predicate FenceEnds(L: Layout, g: Seg) {
    forall f, c :: f in L && L[f].kind.Fence? && c in L && g.base <= f < c ==> c >= g.base + g.size
  }

  /** Every chunk marked as a record is that of a segment. */
  ghost predicate RecordsNamed(L: Layout, segs: seq<Seg>) {
    forall c :: c in L && L[c].kind.Record? ==> Named(segs, c)
  }

  ghost predicate Named(segs: seq<Seg>, c: int) {
    exists k :: 1 <= k < |segs| && segs[k].rec - 16 == c
  }

  ghost predicate Separate(segs: seq<Seg>) {
    forall j, k :: 0 <= j < k < |segs| ==>
      segs[j].base + segs[j].size <= segs[k].base || segs[k].base + segs[k].size <= segs[j].base
  }

  /**
   * The record of segment k is held in a chunk of its own, just before the fenceposts of the segment, and links to the
   * next.
   */
  predicate RecordOK(m: Mem, L: Layout, segs: seq<Seg>, k: int)
    requires 1 <= k < |segs|
  {
    var r := segs[k].rec;
    && r != 0 && r - 16 in L && L[r - 16] == Chunk(Record, 48, L[r - 16].pin)
    && r + 32 in L && L[r + 32] == Chunk(Fence, 8, true)
    && segs[k].base <= r - 16 && r + 48 <= segs[k].base + segs[k].size
    && Rd(m, r) == segs[k].base && Rd(m, r + 8) == segs[k].size
    && Rd(m, r + 16) == (if k + 1 < |segs| then segs[k + 1].rec else 0)
  }

  ghost predicate RecordsOK(m: Mem, L: Layout, segs: seq<Seg>) {
    forall k :: 1 <= k < |segs| ==> RecordOK(m, L, segs, k)
  }

  /**
   * The segments: disjoint, tiled by chunks, top at the end of the first; records and fenceposts only in the others.
   */
  ghost predicate SegsTiled(L: Layout, segs: seq<Seg>, top: int, topsize: int) {
    && (top == 0 <==> segs == [])
    && (forall k :: 0 <= k < |segs| ==> SegShape(segs[k]) && FirstOK(L, segs[k]) && FenceEnds(L, segs[k]))
    && Separate(segs) && RecordsNamed(L, segs)
    && (forall c :: c in L ==> Within(segs, c, c + Reach(L[c])))
    && (segs != [] ==> segs[0].base <= top && top + topsize + 80 == segs[0].base + segs[0].size)
    && (segs != [] ==> NoRecordIn(L, segs[0]))
  }

  ghost predicate NoRecordIn(L: Layout, g: Seg) {
    forall c :: c in L && (L[c].kind.Record? || L[c].kind.Fence?) ==> c < g.base || c >= g.base + g.size
  }

  /** The first segment's record is the one held in the state. */
  predicate HeadSeg(segs: seq<Seg>, segBase: int, segSize: int, segNext: int) {
    && (segs != [] ==> segBase == segs[0].base && segSize == segs[0].size)
    && segNext == (if |segs| > 1 then segs[1].rec else 0)
  }

  ghost predicate SegsOK(s: Snap) {
    && SegsTiled(s.L, s.segs, s.top, s.topsize)
    && HeadSeg(s.segs, s.segBase, s.segSize, s.segNext)
    && RecordsOK(s.mem, s.L, s.segs)
  }

  function TotalSize(segs: seq<Seg>): int {
    if segs == [] then 0 else segs[0].size + TotalSize(segs[1..])
  }

  ghost predicate Inv(s: Snap, out: set<int>) {
    && BinsOK(s.mem, s.smallmap, s.treemap, s.D, s.rings, s.trees)
    && LayoutOK(s.mem, s.L)
    && Filed(s.L, s.D, out)
    && (forall c :: c in s.L ==> c >= s.least)
    && TopOK(s.L, s.top, s.topsize)
    && SegsOK(s)
  }

  // ---- what callers see ----

  /** The live blocks: chunk address to chunk size. The user's part runs from 16 past the address to 8 past the end. */
  ghost function Blocks(L: Layout): map<int, int> {
    map c | c in L && L[c].kind.Live? :: L[c].size
  }

  /** Every word of the user's part of the blocks B keeps its value. */
  ghost predicate PayloadKept(m: Mem, m': Mem, B: map<int, int>) {
    forall c, w :: c in B && c + 16 <= w < c + B[c] + 8 ==> Rd(m', w) == Rd(m, w)
  }

  /** What a request for a chunk of nb bytes comes to: null and the same blocks, or one new block that fits closely. */
  ghost predicate Served(L: Layout, L': Layout, mem: int, nb: int) {
    if mem == 0 then Blocks(L') == Blocks(L)
    else
      var p := mem - 16;
      && p !in Blocks(L) && p in L' && L'[p].kind.Live? && L'[p].pin && nb <= L'[p].size < nb + 32
      && Blocks(L') == Blocks(L)[p := L'[p].size]
  }

  // ---- bin operations, seen from outside ----

  /** A bin operation changes only static words and words inside binned chunks, past their heads. */
  ghost predicate BinWrites(m: Mem, m': Mem, D: map<int, int>) {
    forall w :: w >= HEAP_FLOOR && !InBinned(D, w) ==> Rd(m', w) == Rd(m, w)
  }

  ghost predicate InBinned(D: map<int, int>, w: int) {
    exists y :: y in D && y + 16 <= w < y + D[y]
  }

  lemma OnlyInIsBinWrites(m: Mem, m': Mem, D: map<int, int>, X: set<int>, lo: int, hi: int)
    requires OnlyIn(m, m', D, X, lo, hi) && hi <= HEAP_FLOOR
    ensures BinWrites(m, m', D)
  {
    forall w | w >= HEAP_FLOOR && !InBinned(D, w) ensures Rd(m', w) == Rd(m, w) {
      assert !Interior(D, X, w);
    }
  }
}
