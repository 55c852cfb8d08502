/** The linked list of segments, headed by the record in the state, and the walks over it. */
module SegmentList {
  import opened Memory
  import opened Layouts
  import opened State
  import opened HeapSteps
  import opened Chunks
  import opened Segments
  import opened Prepend

  /** The address of m->seg; the other records live in chunks of the heap. */
  const SEG_AT: int := 0x1A00

  function SegBase(m: MallocState, sp: int): int
    reads m
  {
    if sp == 0x1A00 then m.segBase else Rd(m.mem, sp)
  }

  function SegSize(m: MallocState, sp: int): int
    reads m
  {
    if sp == 0x1A00 then m.segSize else Rd(m.mem, sp + 8)
  }

  function SegNext(m: MallocState, sp: int): int
    reads m
  {
    if sp == 0x1A00 then m.segNext else Rd(m.mem, sp + 16)
  }

  /** The address of record k, and null past the last. */
  function SpAt(segs: seq<Seg>, k: int): int {
    if k <= 0 then 0x1A00 else if k < |segs| then segs[k].rec else 0
  }

  lemma NodeIs(m: MallocState, out: set<int>, k: int)
    requires Inv(m.Now(), out) && 0 <= k < |m.segs|
    ensures SpAt(m.segs, k) != 0 && SegNext(m, SpAt(m.segs, k)) == SpAt(m.segs, k + 1)
    ensures SegBase(m, SpAt(m.segs, k)) == m.segs[k].base && SegSize(m, SpAt(m.segs, k)) == m.segs[k].size
    ensures SpAt(m.segs, k) == 0x1A00 <==> k == 0
  {
    hide *;
    NowIs(m);
    InvParts(m.Now(), out);
    SegsOKIs(m.Now());
    SpAtIs(m, k);
    SpAtIs(m, k + 1);
    HeadSegIs(m.segs, m.segBase, m.segSize, m.segNext);
    if k > 0 {
      RecordChunk(m.mem, m.L, m.segs, k);
      RecordWords(m.mem, m.L, m.segs, k);
    }
  }

  lemma SpAtIs(m: MallocState, k: int)
    ensures SpAt(m.segs, k) == if k <= 0 then 0x1A00 else if k < |m.segs| then m.segs[k].rec else 0
    ensures var sp := SpAt(m.segs, k);
            SegBase(m, sp) == (if sp == 0x1A00 then m.segBase else Rd(m.mem, sp))
            && SegSize(m, sp) == (if sp == 0x1A00 then m.segSize else Rd(m.mem, sp + 8))
            && SegNext(m, sp) == (if sp == 0x1A00 then m.segNext else Rd(m.mem, sp + 16))
  {
  }

  lemma RecordWords(m: Mem, L: Layout, segs: seq<Seg>, k: int)
    requires RecordsOK(m, L, segs) && 1 <= k < |segs|
    ensures Rd(m, segs[k].rec) == segs[k].base && Rd(m, segs[k].rec + 8) == segs[k].size
    ensures Rd(m, segs[k].rec + 16) == if k + 1 < |segs| then segs[k + 1].rec else 0
  {
    assert RecordOK(m, L, segs, k);
  }

  /** segment_holding: the record of the segment that holds addr, which is segment k, or null when none does. */
  method SegmentHolding(m: MallocState, addr: int, ghost out: set<int>) returns (sp: int, k: int)
    requires Inv(m.Now(), out) && m.segs != []
    ensures sp != 0 ==> 0 <= k < |m.segs| && sp == SpAt(m.segs, k)
                        && m.segs[k].base <= addr < m.segs[k].base + m.segs[k].size
    ensures sp == 0 ==> forall j :: 0 <= j < |m.segs| ==> !(m.segs[j].base <= addr < m.segs[j].base + m.segs[j].size)
  {
    hide *;
    sp, k := SEG_AT, 0;
    SpAtIs(m, 0);
    SegAtIs();
    while true
      invariant 0 <= k < |m.segs| && sp == SpAt(m.segs, k)
      invariant forall j :: 0 <= j < k ==> !(m.segs[j].base <= addr < m.segs[j].base + m.segs[j].size)
      decreases |m.segs| - k
    {
      NodeIs(m, out, k);
      SpAtIs(m, k + 1);
      if SegBase(m, sp) <= addr < SegBase(m, sp) + SegSize(m, sp) {
        return;
      }
      sp := SegNext(m, sp);
      k := k + 1;
      if sp == 0 {
        Exhausted(m, out, k);
        return;
      }
      Continues(m, k);
    }
  }

  lemma SegAtIs()
    ensures SEG_AT == 0x1A00
  {
  }

  lemma Continues(m: MallocState, k: int)
    requires SpAt(m.segs, k) != 0 && k > 0
    ensures k < |m.segs|
  {
  }

  lemma Exhausted(m: MallocState, out: set<int>, k: int)
    requires Inv(m.Now(), out) && SpAt(m.segs, k) == 0 && 0 <= k <= |m.segs|
    ensures k == |m.segs|
  {
    hide *;
    if k < |m.segs| {
      NodeIs(m, out, k);
    }
  }

  /** The walk for a segment that ends at tbase. */
  method SegmentEndingAt(m: MallocState, tbase: int, ghost out: set<int>) returns (sp: int, k: int)
    requires Inv(m.Now(), out) && m.segs != []
    ensures sp != 0 ==> 0 <= k < |m.segs| && sp == SpAt(m.segs, k) && m.segs[k].base + m.segs[k].size == tbase
    ensures sp != 0 ==> forall j :: 0 <= j < k ==> m.segs[j].base + m.segs[j].size != tbase
    ensures sp == 0 ==> forall j :: 0 <= j < |m.segs| ==> m.segs[j].base + m.segs[j].size != tbase
  {
    hide *;
    sp, k := SEG_AT, 0;
    SpAtIs(m, 0);
    SegAtIs();
    NodeIs(m, out, 0);
    while sp != 0 && tbase != SegBase(m, sp) + SegSize(m, sp)
      invariant 0 <= k <= |m.segs| && sp == SpAt(m.segs, k)
      invariant sp != 0 ==> k < |m.segs| && SegBase(m, sp) == m.segs[k].base && SegSize(m, sp) == m.segs[k].size
      invariant forall j :: 0 <= j < k ==> m.segs[j].base + m.segs[j].size != tbase
      decreases |m.segs| - k
    {
      NodeIs(m, out, k);
      sp := SegNext(m, sp);
      k := k + 1;
      if sp != 0 { Continues(m, k); NodeIs(m, out, k); }
    }
    if sp == 0 { Exhausted(m, out, k); }
  }

  /** The walk for a segment that begins where the new region ends. */
  method SegmentStartingAt(m: MallocState, end: int, ghost out: set<int>) returns (sp: int, k: int)
    requires Inv(m.Now(), out) && m.segs != []
    ensures sp != 0 ==> 0 <= k < |m.segs| && sp == SpAt(m.segs, k) && m.segs[k].base == end
    ensures sp == 0 ==> forall j :: 0 <= j < |m.segs| ==> m.segs[j].base != end
  {
    hide *;
    sp, k := SEG_AT, 0;
    SpAtIs(m, 0);
    SegAtIs();
    NodeIs(m, out, 0);
    while sp != 0 && SegBase(m, sp) != end
      invariant 0 <= k <= |m.segs| && sp == SpAt(m.segs, k)
      invariant sp != 0 ==> k < |m.segs| && SegBase(m, sp) == m.segs[k].base
      invariant forall j :: 0 <= j < k ==> m.segs[j].base != end
      decreases |m.segs| - k
    {
      NodeIs(m, out, k);
      sp := SegNext(m, sp);
      k := k + 1;
      if sp != 0 { Continues(m, k); NodeIs(m, out, k); }
    }
    if sp == 0 { Exhausted(m, out, k); }
  }

  lemma FirstHoldsTop(s: Snap, out: set<int>, k: int)
    requires Inv(s, out) && s.top != 0 && 0 <= k < |s.segs|
    ensures s.segs != [] && s.segs[0].base <= s.top < s.segs[0].base + s.segs[0].size
    ensures s.segs[0].base + s.segs[0].size == s.top + s.topsize + 80
    ensures s.segs[k].base <= s.top < s.segs[k].base + s.segs[k].size <==> k == 0
    ensures 8 <= s.topsize <= 0x8000_0000_0000 && s.topsize % 8 == 0 && s.top % 16 == 0 && s.top >= 0x2000
  {
    hide *;
    InvParts(s, out);
    SegsOKIs(s);
    SegsUnfold(s.L, s.segs, s.top, s.topsize);
    TopIs(s.mem, s.L, s.top, s.topsize);
    SegShapeIs(s.segs[0]);
    ChunkFacts(s, out, s.top);
    if k != 0 && s.segs[k].base <= s.top < s.segs[k].base + s.segs[k].size {
      InSegIs(s.segs, 0, s.top);
      InSegIs(s.segs, k, s.top);
      SameSeg(s.segs, 0, k, s.top);
    }
  }

  lemma InSegIs(segs: seq<Seg>, k: int, a: int)
    requires 0 <= k < |segs| && segs[k].base <= a < segs[k].base + segs[k].size
    ensures InSeg(segs[k], a, a + 1)
  {
  }

  lemma HasSegments(s: Snap, out: set<int>)
    requires Inv(s, out)
    ensures s.top != 0 <==> s.segs != []
    ensures forall k :: 0 <= k < |s.segs| ==> s.segs[k].size > 80
  {
    hide *;
    InvParts(s, out);
    SegsOKIs(s);
    SegsUnfold(s.L, s.segs, s.top, s.topsize);
    forall k | 0 <= k < |s.segs| ensures s.segs[k].size > 80 { SegShapeIs(s.segs[k]); }
  }
}
