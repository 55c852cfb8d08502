/** The first half of sys_alloc: how much to ask the system for, and the three ways of asking. */
module Obtain {
  import opened Memory
  import opened State
  import opened Chunks
  import opened Segments
  import opened SegmentList
  import opened MoreCore
  import opened Asking

  /** granularity_align, for a granularity of 4096. */
  function GranularityAlign(s: int): int {
    (s + 4095) % 0x1_0000_0000_0000_0000 / 4096 * 4096
  }

  /** page_align, for pages of 4096. */
  function PageAlign(s: int): int {
    (s + 4095) % 0x1_0000_0000_0000_0000 / 4096 * 4096
  }

  function Asize(nb: int): int {
    GranularityAlign((nb + 96) % 0x1_0000_0000_0000_0000)
  }

  lemma AlignIs(s: int)
    ensures GranularityAlign(s) == (s + 4095) % 0x1_0000_0000_0000_0000 / 4096 * 4096
      && PageAlign(s) == GranularityAlign(s)
  {
  }

  /** A granule multiple, the least that covers s unless the sum wraps. */
  lemma AlignFits(s: int)
    requires 0 <= s < 0x1_0000_0000_0000_0000
    ensures GranularityAlign(s) % 4096 == 0 && 0 <= GranularityAlign(s) < 0x1_0000_0000_0000_0000
    ensures s + 4095 < 0x1_0000_0000_0000_0000 ==> s <= GranularityAlign(s) <= s + 4095
    ensures s + 4095 >= 0x1_0000_0000_0000_0000 ==> GranularityAlign(s) == 0
  {
  }

  /** Past the wrap-around test the padding is really there. */
  lemma AsizeFits(nb: int)
    requires 0 <= nb < 0x1_0000_0000_0000_0000
    ensures Asize(nb) % 4096 == 0 && 0 <= Asize(nb) < 0x1_0000_0000_0000_0000
    ensures Asize(nb) > nb <==> nb + 96 + 4095 < 0x1_0000_0000_0000_0000
    ensures Asize(nb) > nb ==> nb + 96 <= Asize(nb) <= nb + 96 + 4095
  {
    hide *;
    if nb + 96 < 0x1_0000_0000_0000_0000 {
      AsizeIs(nb);
      AlignFits(nb + 96);
    } else {
      AsizeWraps(nb);
      AlignFits(nb + 96 - 0x1_0000_0000_0000_0000);
    }
  }

  /** Asking in two parts comes to the same total. */
  lemma TwoPartTotal(nb: int, t: int)
    requires 0 <= nb && nb + 96 + 4095 < 0x1_0000_0000_0000_0000 && 0 <= t <= nb
    requires GranularityAlign(nb - t + 96) < nb + 96
    ensures GranularityAlign(nb - t + 96) + GranularityAlign(nb + 96 - GranularityAlign(nb - t + 96)) == Asize(nb)
  {
    hide *;
    AsizeIs(nb);
    AlignFits(nb - t + 96);
    var g := GranularityAlign(nb - t + 96);
    AlignFits(nb + 96 - g);
    AlignFits(nb + 96);
    var a, b := GranularityAlign(nb + 96 - g), GranularityAlign(nb + 96);
    SameMultiple(g, a, b, nb + 96);
  }

  lemma SameMultiple(g: int, a: int, b: int, n: int)
    requires g % 4096 == 0 && a % 4096 == 0 && b % 4096 == 0
    requires n <= g + a < n + 4096 && n <= b < n + 4096
    ensures g + a == b
  {
  }

  lemma AsizeWraps(nb: int)
    requires nb < 0x1_0000_0000_0000_0000 <= nb + 96
    ensures Asize(nb) == GranularityAlign(nb + 96 - 0x1_0000_0000_0000_0000)
  {
  }

  lemma AsizeIs(nb: int)
    requires 0 <= nb && nb + 96 < 0x1_0000_0000_0000_0000
    ensures Asize(nb) == GranularityAlign(nb + 96)
  {
  }

  /** What was obtained covers the request: with the whole padding, or by continuing top. */
  predicate Enough(m: MallocState, tbase: int, tsize: int, nb: int)
    reads m
  {
    tsize >= nb + 96 || ContinuesTop(m, tbase, tsize, nb)
  }

  predicate ContinuesTop(m: MallocState, tbase: int, tsize: int, nb: int)
    reads m
  {
    m.segs != [] && tbase == m.segs[0].base + m.segs[0].size && m.topsize + tsize >= nb + 96
  }

  /** The test of the footprint limit, in 64-bit arithmetic. */
  predicate LimitTest(footprint: int, limit: int, n: int) {
    var fp := (footprint + n) % 0x1_0000_0000_0000_0000;
    fp > footprint && fp <= limit
  }

  lemma LimitTestIs(footprint: int, limit: int, n: int)
    requires 0 <= footprint && 0 < n < 0x1_0000_0000_0000_0000 && limit < 0x1_0000_0000_0000_0000
    ensures LimitTest(footprint, limit, n) <==> footprint + n <= limit
  {
    if footprint < 0x1_0000_0000_0000_0000 {
      if footprint + n >= 0x1_0000_0000_0000_0000 {
        assert (footprint + n) % 0x1_0000_0000_0000_0000 == footprint + n - 0x1_0000_0000_0000_0000;
      }
    }
  }

  /**
   * The system part of sys_alloc, for a request that passed the first tests. It asks what Ask says, and gets what Ask
   * says. Whatever the answers, a region that is returned is ours. It is large enough and within the footprint limit,
   * unless it came from a noncontiguous call that yielded less, or more, than was asked for; then it still exceeds the
   * request and the foot.
   */
  method AskSystem(m: MallocState, nb: int, asize: int) returns (tbase: int, tsize: int)
    requires Inv(m.Now(), {m.dv}) && m.footprint >= 0
    requires 32 <= nb < 0x1_0000_0000_0000_0000 && nb % 16 == 0 && asize == Asize(nb) && asize > nb
      && (m.top != 0 ==> m.topsize <= nb)
    requires m.footprintLimit == 0 || m.footprint + asize <= m.footprintLimit
    modifies m`noncontiguous, m`asked
    ensures m.Side() == Ask(old(m.Side()), nb).after
    ensures Ask(old(m.Side()), nb).region == if tbase == CMFAIL then Nothing else Region(tbase, tsize)
    ensures tbase != CMFAIL ==> Granted(m.segs, tbase, tsize) && tsize >= 104
    ensures tbase != CMFAIL && (!m.noncontiguous || tsize == asize) ==> Enough(m, tbase, tsize, nb)
    ensures tbase != CMFAIL && (!m.noncontiguous || tsize <= asize) ==>
      WithinFootprint(m.footprint, m.footprintLimit, tsize)
    ensures tbase != CMFAIL && !Enough(m, tbase, tsize, nb) ==> tsize > nb + 80
  {
    hide *;
    ghost var c := m.Side();
    SideIs(m);
    AskIs(c, nb);
    tbase, tsize := CMFAIL, 0;
    CmfailIs();
    AsizeFits(nb);
    AsizeIsWhole(nb);
    if !m.noncontiguous {
      tbase, tsize := AskContiguous(m, nb, asize);
      SideIs(m);
      if tbase == CMFAIL {
        m.noncontiguous := true;
      }
    }
    SideIs(m);
    AnywhereIs(m.Side(), nb);
    if tbase == CMFAIL && asize < 0x7FFF_FFFF_FFFF_FFFF {
      var br, end := ExtendAndBreak(m, asize);
      if br != CMFAIL && end != CMFAIL && br < end {
        var ssize := end - br;
        if ssize > nb + 80 {
          tbase := br;
          tsize := ssize;
        }
      }
    }
    if tbase != CMFAIL {
      EnoughIs(m, tbase, tsize, nb);
      WithinIs(m.footprint, m.footprintLimit, tsize);
      GrantedIs(m.segs, tbase, tsize);
    }
  }

  /** The contiguous calls: at first for a whole region, later for what top lacks, and then for the rest. */
  method AskContiguous(m: MallocState, nb: int, asize: int) returns (tbase: int, tsize: int)
    requires Inv(m.Now(), {m.dv}) && m.footprint >= 0 && !m.noncontiguous
    requires 32 <= nb < 0x1_0000_0000_0000_0000 && nb % 16 == 0 && asize == Asize(nb) && asize > nb
      && (m.top != 0 ==> m.topsize <= nb)
    requires m.footprintLimit == 0 || m.footprint + asize <= m.footprintLimit
    modifies m`asked
    ensures Contiguous(old(m.Side()), nb) == Answer(if tbase == CMFAIL then Nothing else Region(tbase, tsize), m.Side())
    ensures tbase != CMFAIL ==> Granted(m.segs, tbase, tsize) && tsize >= 104 && Enough(m, tbase, tsize, nb)
                                && WithinFootprint(m.footprint, m.footprintLimit, tsize)
  {
    hide *;
    ghost var c := m.Side();
    SideIs(m);
    AskIs(c, nb);
    tbase, tsize := CMFAIL, 0;
    CmfailIs();
    AsizeFits(nb);
    Granules(asize);
    NowIs(m);
    HasSegments(m.Now(), {m.dv});
    var br := CMFAIL;
    var ssize := asize;
    var ss := 0;
    ghost var k;
    if m.top != 0 {
      ss, k := SegmentHolding(m, m.top, {m.dv});
      NodeIs(m, {m.dv}, 0);
      FirstHoldsTop(m.Now(), {m.dv}, 0);
      if ss != 0 { FirstHoldsTop(m.Now(), {m.dv}, k); }
    }
    MoreIs(c, nb);
    EndOfTopIs(c.segs);
    if ss == 0 {
      br, ssize, tbase, tsize := AskFirst(m, nb, asize);
    } else {
      br, ssize, tbase, tsize := AskMore(m, nb, asize, ss);
    }
    WithinIs(m.footprint, m.footprintLimit, ssize);
    if tbase == CMFAIL {
      br, ssize := Complete(m, nb, asize, br, ssize);
      if br != CMFAIL {
        tbase, tsize := br, ssize;
      }
    }
    if tbase != CMFAIL {
      EnoughIs(m, tbase, tsize, nb);
      WithinIs(m.footprint, m.footprintLimit, tsize);
      GrantedIs(m.segs, tbase, tsize);
    }
  }

  /**
   * What a noncontiguous call yields respects every limit that passes the test exactly when it is no more than was
   * asked for.
   */
  lemma LimitHoldsUnlessMore(footprint: nat, asize: nat, got: nat)
    requires 0 < asize && footprint + asize < 0x1_0000_0000_0000_0000
    ensures (forall limit :: 0 < limit < 0x1_0000_0000_0000_0000 && LimitTest(footprint, limit, asize) ==>
                             WithinFootprint(footprint, limit, got)) <==> got <= asize
  {
    hide LimitTest;
    LimitTestIs(footprint, footprint + asize, asize);
    forall limit | 0 < limit < 0x1_0000_0000_0000_0000 && got <= asize && LimitTest(footprint, limit, asize)
      ensures WithinFootprint(footprint, limit, got)
    {
      LimitTestIs(footprint, limit, asize);
    }
    assert LimitTest(footprint, footprint + asize, asize);
  }

  /** A noncontiguous call that yields more than was asked for is accepted past the limit. */
  lemma MoreThanAskedPassesLimit()
    ensures var nb, limit, got := 32, 4096, 8192;
            LimitTest(0, limit, Asize(nb)) && Granted([], 0x2000, got) && got > nb + 80
                && !WithinFootprint(0, limit, got)
  {
    hide *;
    AsizeIs(32);
    AlignFits(128);
    LimitTestIs(0, 4096, Asize(32));
    WithinIs(0, 4096, 8192);
    GrantedIs([], 0x2000, 8192);
  }

  /** Aligning to granules, as long as nothing overflows. */
  lemma AlignIsWhole(s: int)
    requires 0 <= s && s + 4095 < 0x1_0000_0000_0000_0000
    ensures GranularityAlign(s) == Whole(s) && PageAlign(s) == Whole(s)
  {
  }

  lemma Whole4096(a: int)
    ensures Whole(a) % 4096 == 0 && a <= Whole(a) < a + 4096 && (a % 4096 == 0 ==> Whole(a) == a)
  {
  }

  lemma AsizeIsWhole(nb: int)
    requires 0 <= nb && nb + 96 + 4095 < 0x1_0000_0000_0000_0000
    ensures Asize(nb) == Whole(nb + 96)
  {
    hide *;
    AsizeIs(nb);
    AlignIsWhole(nb + 96);
  }

  lemma CmfailIs()
    ensures CMFAIL == 0xFFFF_FFFF_FFFF_FFFF
  {
  }

  lemma EnoughIs(m: MallocState, tbase: int, tsize: int, nb: int)
    ensures Enough(m, tbase, tsize, nb) <==> tsize >= nb + 96
                                             || (m.segs != [] && tbase == m.segs[0].base + m.segs[0].size
                                                 && m.topsize + tsize >= nb + 96)
  {
  }

  /** First time through: ask for a region at the break, adjusted to end on a page boundary. */
  method AskFirst(m: MallocState, nb: int, asize: int) returns (br: int, ssize: int, tbase: int, tsize: int)
    requires 0 <= nb && asize == Asize(nb) && nb < asize && m.footprint >= 0
    requires nb < 0x1_0000_0000_0000_0000
    modifies m`asked
    ensures First(old(m.Side()), nb) == Answer(if br == CMFAIL then Nothing else Region(br, ssize), m.Side())
    ensures tbase != CMFAIL ==> tbase == br && tsize == ssize
    ensures br != CMFAIL ==> Granted(m.segs, br, ssize) && ssize >= nb + 96
                             && WithinFootprint(m.footprint, m.footprintLimit, ssize)
  {
    hide *;
    br, ssize, tbase, tsize := CMFAIL, asize, CMFAIL, 0;
    AsizeFits(nb);
    ghost var c := m.Side();
    SideIs(m);
    FirstIs(c, nb);
    CmfailIs();
    AsizeIsWhole(nb);
    var base := Break(m);
    SideIs(m);
    if base != CMFAIL {
      if base % 4096 != 0 {
        ssize := (ssize + (PageAlign(base) - base)) % 0x1_0000_0000_0000_0000;
      }
      AlignIs(base);
      AlignFits(base);
      AlignIsWhole(base);
      Whole4096(base);
      WithinIs(m.footprint, m.footprintLimit, asize + (PageAlign(base) - base));
      Grown(asize, PageAlign(base) - base);
      ShortSum(nb, asize, PageAlign(base) - base);
      LimitTestIs(m.footprint, m.footprintLimit, if ssize > 0 then ssize else 1);
      if ssize > nb && ssize < 0x7FFF_FFFF_FFFF_FFFF && (m.footprintLimit == 0
                                                         || LimitTest(m.footprint, m.footprintLimit, ssize)) {
        br := Extend(m, ssize);
        if br == base {
          tbase := base;
          tsize := ssize;
        }
      }
    }
    WithinIs(m.footprint, m.footprintLimit, ssize);
  }

  lemma Grown(asize: int, d: int)
    requires 0 <= asize < 0x1_0000_0000_0000_0000 && 0 <= d < 4096
    ensures asize + d < 0x1_0000_0000_0000_0000 ==> (asize + d) % 0x1_0000_0000_0000_0000 == asize + d
    ensures asize + d >= 0x1_0000_0000_0000_0000 ==> (asize + d) % 0x1_0000_0000_0000_0000 ==
                                                     asize + d - 0x1_0000_0000_0000_0000
  {
  }

  /** When the adjusted size wraps it is far below the request. */
  lemma ShortSum(nb: int, asize: int, d: int)
    requires nb + 96 <= asize <= nb + 96 + 4095 && 0 <= d < 4096
    ensures asize + d - 0x1_0000_0000_0000_0000 < nb
    ensures asize + d >= 0x1_0000_0000_0000_0000 ==> nb > 8192
  {
  }

  /** Ask for what top lacks, right after the segment that holds top. */
  method AskMore(m: MallocState, nb: int, asize: int, ss: int) returns (br: int, ssize: int, tbase: int, tsize: int)
    requires 0 <= nb && asize == Asize(nb) && nb < asize && 0 <= m.topsize <= nb && nb < 0x1_0000_0000_0000_0000
    requires m.segs != [] && SegBase(m, ss) + SegSize(m, ss) == m.segs[0].base + m.segs[0].size
    modifies m`asked
    ensures ssize >= 0x7FFF_FFFF_FFFF_FFFF ==> br == CMFAIL && m.Side() == old(m.Side())
    ensures ssize < 0x7FFF_FFFF_FFFF_FFFF ==> br == Extended(old(m.Side()), ssize)
                                              && m.Side() == After(old(m.Side()), ssize)
    ensures tbase == CMFAIL <==> br == CMFAIL || br != m.segs[0].base + m.segs[0].size
    ensures ssize == Whole(nb - m.topsize + 96)
    ensures ssize == GranularityAlign(nb - m.topsize + 96) && 4096 <= ssize <= asize && ssize % 4096 == 0
      && ssize + m.topsize >= nb + 96
    ensures br != CMFAIL ==> Granted(m.segs, br, ssize)
    ensures tbase != CMFAIL ==> br == tbase && tsize == ssize && tbase == m.segs[0].base + m.segs[0].size
  {
    hide *;
    br, tbase, tsize := CMFAIL, CMFAIL, 0;
    AsizeFits(nb);
    AsizeIs(nb);
    AlignFits(nb - m.topsize + 96);
    AlignIsWhole(nb - m.topsize + 96);
    SideIs(m);
    ssize := GranularityAlign(nb - m.topsize + 96);
    AlignFits(nb + 96);
    NoLarger(ssize, asize, nb - m.topsize + 96, nb + 96);
    if ssize < 0x7FFF_FFFF_FFFF_FFFF {
      SegFields(m, ss);
      br := Extend(m, ssize);
      SegFields(m, ss);
      if br == SegBase(m, ss) + SegSize(m, ss) {
        tbase := br;
        tsize := ssize;
      }
    }
  }

  lemma SegFields(m: MallocState, sp: int)
    ensures SegBase(m, sp) == (if sp == 0x1A00 then m.segBase else Rd(m.mem, sp))
            && SegSize(m, sp) == (if sp == 0x1A00 then m.segSize else Rd(m.mem, sp + 8))
  {
  }

  lemma NoLarger(a: int, b: int, x: int, y: int)
    requires a % 4096 == 0 && b % 4096 == 0 && x <= a <= x + 4095 && y <= b <= y + 4095 && 96 <= x <= y
    ensures 4096 <= a <= b
  {
  }

  /**
   * Cope with partial failure: a region elsewhere is used, and first extended when it is smaller than the request
   * needs.
   */
  method Complete(m: MallocState, nb: int, asize: int, br0: int, ssize0: int) returns (br: int, ssize: int)
    requires 0 <= nb < 0x1_0000_0000_0000_0000 && asize == Asize(nb) && nb < asize && m.footprint >= 0
    requires br0 != CMFAIL ==> Granted(m.segs, br0, ssize0) && ssize0 > 0
    requires forall k :: 0 <= k < |m.segs| ==> m.segs[k].size > 80
    requires ssize0 >= nb + 96 || (0 <= m.topsize <= nb && m.topsize <= 0x8000_0000_0000
                                   && ssize0 == GranularityAlign(nb - m.topsize + 96)) || br0 == CMFAIL
    requires br0 != CMFAIL ==> WithinFootprint(m.footprint, m.footprintLimit, ssize0)
    requires m.footprintLimit == 0 || m.footprint + asize <= m.footprintLimit
    modifies m`asked
    ensures br0 == CMFAIL || ssize0 >= nb + 96 ==> br == br0 && ssize == ssize0 && m.Side() == old(m.Side())
    ensures br0 != CMFAIL && ssize0 < nb + 96 ==>
      Rest(old(m.Side()), nb, br0, ssize0) == Answer(if br == CMFAIL then Nothing else Region(br, ssize), m.Side())
    ensures br != CMFAIL ==> Granted(m.segs, br, ssize) && ssize >= nb + 96
                             && WithinFootprint(m.footprint, m.footprintLimit, ssize)
  {
    hide *;
    br, ssize := br0, ssize0;
    AsizeFits(nb);
    SideIs(m);
    RestIs(m.Side(), nb, br, ssize);
    CmfailIs();
    if br != CMFAIL {
      GrantedIs(m.segs, br, ssize);
      if ssize < 0x7FFF_FFFF_FFFF_FFFF && ssize < nb + 96 {
        TwoPartTotal(nb, m.topsize);
        AlignFits(nb - m.topsize + 96);
        AlignFits(nb + 96 - ssize);
        AlignIsWhole(nb + 96 - ssize);
        ghost var s0 := ssize;
        var esize := GranularityAlign(nb + 96 - ssize);
        SmallRest(nb, m.topsize, ssize, esize, br);
        if esize < 0x7FFF_FFFF_FFFF_FFFF {
          var end := ExtendFrom(m, br + ssize, esize);
          if end != CMFAIL {
            GrantedIs(m.segs, br + ssize, esize);
            ssize := ssize + esize;
            GrantedIs(m.segs, br, ssize);
            BothGranted(m.segs, br, s0, esize);
          } else {
            Return(m, ssize);
            br := CMFAIL;
          }
        }
      }
    }
    WithinIs(m.footprint, m.footprintLimit, ssize0);
    WithinIs(m.footprint, m.footprintLimit, ssize);
  }

  /** The second part is never as large as half the address space. */
  lemma SmallRest(nb: int, t: int, ssize: int, esize: int, br: int)
    requires 0 <= t <= nb && nb - t + 96 <= ssize && esize <= nb + 96 - ssize + 4095 && br >= 0x2000
      && br + ssize <= 0x8000_0000_0000
    requires t <= 0x8000_0000_0000
    ensures esize < 0x7FFF_FFFF_FFFF_FFFF
  {
  }

  lemma BothGranted(segs: seq<Seg>, b: int, n: int, e: int)
    requires Granted(segs, b, n) && Granted(segs, b + n, e) && n > 0 && e > 0
      && forall k :: 0 <= k < |segs| ==> segs[k].size > 80
    ensures Granted(segs, b, n + e)
  {
  }
}
