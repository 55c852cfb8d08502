/**
 * free and its internal twin dispose_chunk: consolidation with both neighbours; and the return of memory to the system.
 */
module Free {
  import opened Memory
  import opened Sizes
  import opened Layouts
  import opened State
  import opened HeapSteps
  import opened Chunks
  import opened Binning
  import opened Runs
  import opened Release
  import opened Segments
  import opened SegmentList
  import opened MoreCore
  import opened Asking
  import opened SystemMemory

  // ---- consolidation ----

  /** What is known of a live block and its neighbours. */
  lemma LiveFacts(m: MallocState, p: int, n: int)
    requires m.Valid() && p in m.L && m.L[p].kind.Live? && n == p + m.L[p].size
    ensures m.Consistent({m.dv}) && DvOK(m.L, m.dv, m.dvsize)
    ensures p in Blocks(m.L)
    ensures Blocks(m.L)[p] == m.L[p].size
    ensures p >= 0x2000 && p % 16 == 0 && p != m.top && m.L[p].size >= 32 && m.L[p].size % 16 == 0
    ensures p >= m.leastAddr
    ensures n in m.L && m.L[n].pin && Pinuse(Rd(m.mem, n + 8))
    ensures ChunkSize(Rd(m.mem, p + 8)) == m.L[p].size && Pinuse(Rd(m.mem, p + 8)) == m.L[p].pin
      && Cinuse(Rd(m.mem, p + 8))
    ensures IsInuse(Rd(m.mem, p + 8)) && !IsMmapped(Rd(m.mem, p + 8))
  {
    hide *;
    ValidIs(m);
    NowIs(m);
    ConsistentIs(m, {m.dv});
    ChunkFacts(m.Now(), {m.dv}, p);
    HeadShows(m.Now(), {m.dv}, p);
    HeadShows(m.Now(), {m.dv}, n);
    HeadOfIs(m.L[p]);
    BlocksIs(m.L);
    NotMmapped(Rd(m.mem, p + 8));
  }

  lemma NotMmapped(h: int)
    requires Cinuse(h)
    ensures !IsMmapped(h)
  {
  }

  lemma PreviousFacts(m: MallocState, p: int, q: int, s: int)
    requires m.Valid() && p in m.L && m.L[p].kind.Live? && !m.L[p].pin && s == Rd(m.mem, p) && q == p - s
    ensures q in m.L && m.L[q].kind.Free? && m.L[q].size == s && m.L[q].pin && q >= m.leastAddr && s >= 32
            && (q != m.dv ==> q in m.D && m.D[q] == s)
  {
    hide *;
    ValidIs(m);
    NowIs(m);
    ConsistentIs(m, {m.dv});
    ChunkFacts(m.Now(), {m.dv}, p);
    ChunkFacts(m.Now(), {m.dv}, q);
  }

  /**
   * Consolidate backward. Either the freed chunk, with a free chunk before it, awaits what comes next, or it joined the
   * designated victim before it and all is done.
   */
  method MergeBack(m: MallocState, b: int, bsize: int, next: int) returns (p: int, psize: int, done: bool)
    requires m.Valid() && b in m.L && m.L[b].kind.Live? && m.L[b].size == bsize && next == b + bsize
    modifies m`mem, m`smallmap, m`treemap, m`D, m`rings, m`trees, m`L, m`dvsize
    ensures PayloadKept(old(m.mem), m.mem, Blocks(m.L))
    ensures done ==> m.Valid() && Blocks(m.L) == Blocks(old(m.L)) - {b}
    ensures !done ==> Pending(m, p, b, next) && psize == next - p >= bsize && m.L == old(m.L) && m.dv == old(m.dv)
                      && m.dvsize == old(m.dvsize)
  {
    hide *;
    LiveFacts(m, b, next);
    PayloadRefl(m.mem, Blocks(m.L));
    p, psize, done := b, bsize, false;
    if !Pinuse(Rd(m.mem, p + 8)) {
      var prevsize := Rd(m.mem, p);
      PreviousFacts(m, b, p - prevsize, prevsize);
      if IsMmapped(Rd(m.mem, p + 8)) {
        assert false;
      }
      var prev := p - prevsize;
      psize := psize + prevsize;
      p := prev;
      if prev >= m.leastAddr {
        if p != m.dv {
          UnlinkChunk(m, p, prevsize, {m.dv});
          PendingIs(m, p, b, next);
        } else {
          assert {m.dv} + {p} == {m.dv};
          PendingIs(m, p, b, next);
          BothBits(m, next);
          if Rd(m.mem, next + 8) % 4 == 3 {
            Alone(m, p, psize, next, b);
            done := true;
          }
        }
      } else {
        assert false;
      }
    } else {
      NowIs(m);
      ConsistentIs(m, {m.dv});
      Reout(m.Now(), {m.dv}, {m.dv} + {b});
      ConsistentIs(m, {m.dv} + {b});
      PendingIs(m, p, b, next);
    }
  }

  /** Both flags set: the chunk is in use. */
  lemma BothBits(m: MallocState, c: int)
    requires m.Valid() && c in m.L
    ensures Rd(m.mem, c + 8) % 4 == 3 ==> Cin(m.L[c].kind)
  {
    hide *;
    ValidIs(m);
    NowIs(m);
    ConsistentIs(m, {m.dv});
    HeadShows(m.Now(), {m.dv}, c);
    BitsOf(Rd(m.mem, c + 8));
  }

  lemma BitsOf(h: int)
    ensures h % 4 == 3 ==> Cinuse(h)
  {
  }

  /**
   * The designated victim after a block was given up: the same chunk, grown if the block was behind it; or one that
   * begins earlier, if the block was before it; or none, if it went into top.
   */
  predicate VictimAfter(d: int, d': int, size': int, top': int) {
    d' == d || (d != 0 && ((d' == 0 && 0 < top' <= d) || 0 < d' < d < d' + size'))
  }

  lemma VictimAfterIs(d: int, d': int, size': int, top': int)
    ensures VictimAfter(d, d', size', top') <==>
      d' == d || (d != 0 && ((d' == 0 && 0 < top' <= d) || 0 < d' < d < d' + size'))
  {
  }

  /** Consolidate forward: with top, the designated victim, another free chunk, or nothing. */
  method MergeForward(m: MallocState, p: int, psize: int, next: int, ghost b: int) returns (toTop: bool)
    requires Pending(m, p, b, next) && psize == next - p
    modifies m`mem, m`smallmap, m`treemap, m`D, m`rings, m`trees, m`L, m`top, m`topsize, m`dv, m`dvsize
    ensures m.Valid() && Blocks(m.L) == Blocks(old(m.L)) - {b} && PayloadKept(old(m.mem), m.mem, Blocks(m.L))
    ensures toTop <==> next == old(m.top)
    ensures m.topsize == old(m.topsize) + if toTop then psize else 0
    ensures toTop ==> m.top == p != 0
    ensures VictimAfter(old(m.dv), m.dv, m.dvsize, m.top)
  {
    hide *;
    PendingFacts(m, p, b, next);
    NowIs(m);
    HeadShows(m.Now(), {m.dv} + {p}, next);
    ChunkFacts(m.Now(), {m.dv} + {p}, next);
    ghost var d := m.dv;
    VictimAfterIs(d, d, m.dvsize, m.top);
    toTop := false;
    if p < next && Pinuse(Rd(m.mem, next + 8)) {
      if !Cinuse(Rd(m.mem, next + 8)) {
        if next == m.top {
          IntoTop(m, p, psize, b);
          toTop := true;
        } else if next == m.dv {
          IntoDv(m, p, psize, b);
        } else {
          IntoNext(m, p, psize, ChunkSize(Rd(m.mem, next + 8)), false, b);
        }
      } else {
        TopIsFree(m, {m.dv} + {p}, next);
        Alone(m, p, psize, next, b);
      }
    } else {
      assert false;
    }
    VictimAfterIs(d, m.dv, m.dvsize, m.top);
  }

  lemma TopIsFree(m: MallocState, out: set<int>, c: int)
    requires Inv(m.Now(), out) && c in m.L && Cin(m.L[c].kind)
    ensures c != m.top
  {
    hide *;
    NowIs(m);
    ChunkFacts(m.Now(), out, c);
    HeadOfIs(m.L[c]);
  }

  /** The block leaves the live blocks, merged with whatever is free beside it, which may be top. */
  method Consolidate(m: MallocState, b: int, bsize: int) returns (toTop: bool)
    requires m.Valid() && b in m.L && m.L[b].kind.Live? && m.L[b].size == bsize
    modifies m`mem, m`smallmap, m`treemap, m`D, m`rings, m`trees, m`L, m`top, m`topsize, m`dv, m`dvsize
    ensures VictimAfter(old(m.dv), m.dv, m.dvsize, m.top)
    ensures m.Valid() && Blocks(m.L) == Blocks(old(m.L)) - {b} && PayloadKept(old(m.mem), m.mem, Blocks(m.L))
    ensures if toTop then m.top != 0 && m.topsize > old(m.topsize) else m.topsize == old(m.topsize)
  {
    hide *;
    LiveFacts(m, b, b + bsize);
    var next := b + bsize;
    ghost var m0, d := m.mem, m.dv;
    toTop := false;
    var p, psize, done := MergeBack(m, b, bsize, next);
    if !done {
      ghost var m1, B := m.mem, Blocks(m.L);
      toTop := MergeForward(m, p, psize, next, b);
      PayloadThen(m0, m1, m.mem, Blocks(m.L), B, Blocks(m.L));
    }
    VictimAfterIs(d, m.dv, m.dvsize, m.top);
  }

  /** dispose_chunk: the block p leaves the live blocks, merged with whatever is free beside it. */
  method DisposeChunk(m: MallocState, b: int, bsize: int)
    requires m.Valid() && b in m.L && m.L[b].kind.Live? && m.L[b].size == bsize
    modifies m`mem, m`smallmap, m`treemap, m`D, m`rings, m`trees, m`L, m`top, m`topsize, m`dv, m`dvsize
    ensures VictimAfter(old(m.dv), m.dv, m.dvsize, m.top)
    ensures m.Valid() && Blocks(m.L) == Blocks(old(m.L)) - {b} && PayloadKept(old(m.mem), m.mem, Blocks(m.L))
  {
    var toTop := Consolidate(m, b, bsize);
  }

  // ---- trimming ----

  function TrimExtra(topsize: int, pad: int): int {
    ((topsize - pad + 4095) / 4096 - 1) * 4096
  }

  /** The segments when so many bytes at the end of the first have gone back. */
  function Trimmed(segs: seq<Seg>, released: int): seq<Seg> {
    if segs == [] || released == 0 then segs else segs[0 := segs[0].(size := segs[0].size - released)]
  }

  lemma TrimmedIs(segs: seq<Seg>, released: int)
    ensures Trimmed(segs, 0) == segs
    ensures segs != [] ==> Trimmed(segs, released) == segs[0 := segs[0].(size := segs[0].size - released)]
  {
    if segs != [] && released == 0 { assert segs[0 := segs[0].(size := segs[0].size - released)] == segs; }
  }

  /** The most whole granules that leave something of top beyond the pad. */
  lemma TrimExtraIs(topsize: int, pad: int)
    requires topsize > pad
    ensures TrimExtra(topsize, pad) == Spare(topsize - pad) && 0 <= TrimExtra(topsize, pad) < topsize - pad
  {
    var q, r := (topsize - pad - 1) / 4096, (topsize - pad - 1) % 4096;
    assert topsize - pad + 4095 == 4096 * (q + 1) + r;
  }

  /** sys_trim: whole granules beyond the pad go back to the system, if the end of memory is still where top ends. */
  method SysTrim(m: MallocState, pad0: int) returns (ok: bool)
    requires m.Valid() && 0 <= pad0
    modifies m`mem, m`segSize, m`segs, m`L, m`top, m`topsize, m`trimCheck, m`footprint, m`asked
    ensures m.Valid() && Blocks(m.L) == Blocks(old(m.L)) && PayloadKept(old(m.mem), m.mem, Blocks(m.L))
    ensures old(m.footprint) - m.footprint == Trim(old(m.Side()), pad0).released
    ensures m.asked == Trim(old(m.Side()), pad0).after.asked
    ensures m.trimCheck == if ok then 0x20_0000
                           else if pad0 < 0xFFFF_FFFF_FFFF_FF80 && old(m.top) != 0 && old(m.topsize) > old(m.trimCheck)
                           then 0xFFFF_FFFF_FFFF_FFFF else old(m.trimCheck)
    ensures m.top == old(m.top) && m.footprint <= old(m.footprint)
    ensures old(m.footprint) - m.footprint == old(m.topsize) - m.topsize
    ensures m.segs == Trimmed(old(m.segs), old(m.footprint) - m.footprint)
    ensures ok <==> m.footprint < old(m.footprint)
    ensures ok ==> m.topsize > pad0 + 80
  {
    hide *;
    ValidIs(m);
    NowIs(m);
    ConsistentIs(m, {m.dv});
    PayloadRefl(m.mem, Blocks(m.L));
    HasSegments(m.Now(), {m.dv});
    TrimmedIs(m.segs, 0);
    SideIs(m);
    TrimIs(m.Side(), pad0);
    var released := 0;
    if pad0 < 0xFFFF_FFFF_FFFF_FF80 && m.top != 0 {
      var pad := pad0 + TOP_FOOT_SIZE;
      TopFootIs();
      if m.topsize > pad {
        released := Offer(m, pad);
        SideIs(m);
        if released != 0 {
          DropTail(m, released);
        }
      }
      if released == 0 && m.topsize > m.trimCheck {
        m.trimCheck := 0xFFFF_FFFF_FFFF_FFFF;
        NowIs(m);
        ConsistentIs(m, {m.dv});
        ValidIs(m);
      }
    }
    ok := released != 0;
  }

  /** Memory ends far below half the address space. */
  lemma EndBelow47(s: Snap, out: set<int>)
    requires Inv(s, out) && s.top != 0 && s.segs != []
    ensures 0 <= s.segs[0].base + s.segs[0].size <= 0x8000_0000_0000 && s.topsize <= 0x8000_0000_0000
  {
    hide *;
    InvParts(s, out);
    TopOKIs(s.L, s.top, s.topsize);
    ChunkFacts(s, out, s.top);
    SegsOKIs(s);
    SegsUnfold(s.L, s.segs, s.top, s.topsize);
    SegShapeIs(s.segs[0]);
  }

  /** Offer the whole granules of top beyond the pad. */
  method Offer(m: MallocState, pad: int) returns (released: int)
    requires m.Valid() && m.top != 0 && m.topsize > pad >= 0 && m.segs != []
    modifies m`asked
    ensures m.Valid() && 0 <= released < m.topsize - pad && released % 8 == 0
    ensures Trimming(released, m.Side()) == Offered(old(m.Side()), EndOfTop(m.segs), Spare(m.topsize - pad))
  {
    hide *;
    ValidIs(m);
    NowIs(m);
    ConsistentIs(m, {m.dv});
    HasSegments(m.Now(), {m.dv});
    var unit := 4096;
    TrimExtraIs(m.topsize, pad);
    var extra := TrimExtra(m.topsize, pad);
    FirstHoldsTop(m.Now(), {m.dv}, 0);
    var sp, k := SegmentHolding(m, m.top, {m.dv});
    if sp != 0 { FirstHoldsTop(m.Now(), {m.dv}, k); }
    NodeIs(m, {m.dv}, 0);
    EndBelow47(m.Now(), {m.dv});
    EndOfTopIs(m.segs);
    if extra >= 0x7FFF_FFFF_FFFF_FFFF {
      extra := 0x7FFF_FFFF_FFFF_FFFF + 1 - unit;
    }
    released := GiveBack(m, SegBase(m, sp) + SegSize(m, sp), extra);
    Eights(m.segs[0].base + m.segs[0].size, released);
    NowIs(m);
    ConsistentIs(m, {m.dv});
    ValidIs(m);
  }

  lemma Eights(end: int, released: int)
    ensures end % 8 == 0 && (end - released) % 8 == 0 ==> released % 8 == 0
    ensures released == 0 ==> released % 8 == 0
  {
  }

  /** How much the system takes back from the end of memory: at most what it is offered. */
  method GiveBack(m: MallocState, end: int, extra: int) returns (released: int)
    requires extra >= 0 && 0 <= end <= 0x8000_0000_0000
    modifies m`asked
    ensures Trimming(released, m.Side()) == Offered(old(m.Side()), end, extra)
    ensures 0 <= released <= extra && (released != 0 ==> (end - released) % 8 == 0 && end % 8 == 0)
  {
    released := 0;
    var oldBr := Break(m);
    if oldBr == end {
      var relBr, newBr := MoreCore.Shrink(m, oldBr, extra);
      if relBr != CMFAIL && newBr < oldBr {
        released := oldBr - newBr;
      }
    }
  }

  /** The tail of top is gone. */
  method DropTail(m: MallocState, released: int)
    requires m.Valid() && m.top != 0 && m.segs != [] && 0 < released && m.topsize - released >= 8
    requires released % 8 == 0
    modifies m`mem, m`segSize, m`segs, m`L, m`top, m`topsize, m`trimCheck, m`footprint
    ensures m.Valid() && Blocks(m.L) == Blocks(old(m.L)) && PayloadKept(old(m.mem), m.mem, Blocks(m.L))
    ensures m.top == old(m.top) && m.topsize == old(m.topsize) - released && m.footprint == old(m.footprint) - released
    ensures m.trimCheck == 0x20_0000
    ensures m.segs == Trimmed(old(m.segs), released)
  {
    hide *;
    ghost var s0 := m.Now();
    ValidIs(m);
    NowIs(m);
    ConsistentIs(m, {m.dv});
    FirstHoldsTop(s0, {m.dv}, 0);
    TrimmedIs(m.segs, released);
    m.segSize := m.segSize - released;
    m.segs := m.segs[0 := m.segs[0].(size := m.segs[0].size - released)];
    m.footprint := m.footprint - released;
    TopAligned(m.top);
    InitTop(m, m.top, m.topsize - released);
    m.L := m.L[m.top := Chunk(Top, m.topsize, true)];
    NowIs(m);
    TailOff(s0, {m.dv}, released);
    ResizeTop(s0, m.Now(), -released, {m.dv});
    TotalAt(s0.segs, 0, s0.segs[0].base, s0.segs[0].size - released);
    ConsistentIs(m, {m.dv});
    ValidIs(m);
  }

  lemma TailOff(s: Snap, out: set<int>, released: int)
    requires Inv(s, out) && s.segs != [] && released > 0
    ensures Separate(s.segs[0 := s.segs[0].(size := s.segs[0].size - released)])
    ensures s.segs[0].base + s.segs[0].size <= 0x8000_0000_0000
  {
    hide *;
    InvParts(s, out);
    SegsOKIs(s);
    SegsUnfold(s.L, s.segs, s.top, s.topsize);
    SegShapeIs(s.segs[0]);
    StillApart(s.segs, released);
  }

  lemma StillApart(segs: seq<Seg>, released: int)
    requires Separate(segs) && segs != [] && released > 0
    ensures Separate(segs[0 := segs[0].(size := segs[0].size - released)])
  {
  }

  /** Top goes back to the system as far as it can when it has grown past the threshold. */
  method TrimIfLarge(m: MallocState)
    requires m.Valid() && m.top != 0
    modifies m`mem, m`segSize, m`segs, m`L, m`top, m`topsize, m`trimCheck, m`footprint, m`asked
    ensures m.Valid() && Blocks(m.L) == Blocks(old(m.L)) && PayloadKept(old(m.mem), m.mem, Blocks(m.L))
    ensures m.top == old(m.top)
    ensures m.footprint <= old(m.footprint) && m.segs == Trimmed(old(m.segs), old(m.footprint) - m.footprint)
    ensures old(m.topsize) == m.topsize + old(m.footprint) - m.footprint
    ensures if old(m.topsize) > old(m.trimCheck)
            then GaveBack(old(m.Side()), m.Side())
                 && m.trimCheck == if m.footprint < old(m.footprint) then 0x20_0000 else 0xFFFF_FFFF_FFFF_FFFF
            else m.asked == old(m.asked) && m.footprint == old(m.footprint) && m.trimCheck == old(m.trimCheck)
  {
    hide *;
    PayloadRefl(m.mem, Blocks(m.L));
    TrimmedIs(m.segs, 0);
    if m.topsize > m.trimCheck {
      ghost var c := m.Side();
      SideIs(m);
      var ok := SysTrim(m, 0);
      SideIs(m);
      GaveBackIs(c, m.Side());
    }
  }

  // ---- free ----

  /** dlfree: the block leaves the live blocks; when it joins top, what exceeds the trim threshold may go back. */
  method FreeMem(m: MallocState, mem: int)
    requires m.Valid() && (mem != 0 ==> mem - 16 in Blocks(m.L))
    modifies m
    ensures VictimAfter(old(m.dv), m.dv, m.dvsize, m.top)
    ensures m.Valid() && PayloadKept(old(m.mem), m.mem, Blocks(m.L))
    ensures Blocks(m.L) == if mem == 0 then Blocks(old(m.L)) else Blocks(old(m.L)) - {mem - 16}
    ensures m.footprint <= old(m.footprint) && m.maxFootprint == old(m.maxFootprint)
      && m.footprintLimit == old(m.footprintLimit)
    ensures var t := m.topsize + old(m.footprint) - m.footprint;
            if t > old(m.topsize) && t > old(m.trimCheck)
            then GaveBack(old(m.Side()).(topsize := t), m.Side())
                 && m.trimCheck == if m.footprint < old(m.footprint) then 0x20_0000 else 0xFFFF_FFFF_FFFF_FFFF
            else m.asked == old(m.asked) && m.footprint == old(m.footprint) && m.noncontiguous == old(m.noncontiguous)
                 && m.trimCheck == old(m.trimCheck)
    ensures m.segs == Trimmed(old(m.segs), old(m.footprint) - m.footprint)
  {
    hide *;
    PayloadRefl(m.mem, Blocks(m.L));
    TrimmedIs(m.segs, 0);
    SideIs(m);
    VictimAfterIs(m.dv, m.dv, m.dvsize, m.top);
    if mem != 0 {
      var b := mem - 16;
      BlocksIs(m.L);
      LiveFacts(m, b, b + m.L[b].size);
      if b >= m.leastAddr && IsInuse(Rd(m.mem, b + 8)) {
        ghost var m0 := m.mem;
        var toTop := Consolidate(m, b, ChunkSize(Rd(m.mem, b + 8)));
        if toTop {
          ghost var m1 := m.mem;
          SideIs(m);
          TrimIfLarge(m);
          PayloadThen(m0, m1, m.mem, Blocks(m.L), Blocks(m.L), Blocks(m.L));
        }
      } else {
        assert false;
      }
    }
  }
}
