/**
 * What sys_alloc asks of the system and what it gets, in plain arithmetic: the specification of the first half of
 * sys_alloc, and what it means.
 */
module Asking {
  import opened Words
  import opened State
  import opened MoreCore

  /** The least whole number of granules that covers s. */
  function Whole(s: int): (r: int)
    ensures r % 4096 == 0 && s <= r < s + 4096
  {
    (s + 4095) / 4096 * 4096
  }

  /** A region, if there is one, and the system afterwards. */
  datatype Answer = Answer(region: Region, after: Outside)

  /** The footprint limit allows n more bytes. */
  predicate WithinFootprint(footprint: int, limit: int, n: int) {
    limit == 0 || footprint + n <= limit
  }

  /** A request is made when its padding does not overflow and the limit allows it. */
  predicate Makes(c: Outside, nb: int) {
    nb + 96 + 4095 < 0x1_0000_0000_0000_0000 && WithinFootprint(c.footprint, c.limit, Whole(nb + 96))
  }

  /** Where the segment of top ends. */
  function EndOfTop(segs: seq<Seg>): int {
    if segs == [] then 0 else segs[0].base + segs[0].size
  }

  /** Without a segment: a region that ends on a page boundary. */
  function First(c: Outside, nb: int): Answer {
    var base, c1 := PresentBreak(c), After(c, 0);
    var size := Whole(base) - base + Whole(nb + 96);
    if base == 0xFFFF_FFFF_FFFF_FFFF || size >= 0x7FFF_FFFF_FFFF_FFFF
        || !WithinFootprint(c.footprint, c.limit, size) then Answer(Nothing, c1)
    else
      var br := Extended(c1, size);
      Answer(if br == 0xFFFF_FFFF_FFFF_FFFF then Nothing else Region(br, size), After(c1, size))
  }

  /**
   * With top: what it lacks. A region elsewhere is used as well, if need be with the rest of what the request takes.
   */
  function More(c: Outside, nb: int): Answer {
    var size := Whole(nb - c.topsize + 96);
    var br, c1 := Extended(c, size), After(c, size);
    if size >= 0x7FFF_FFFF_FFFF_FFFF then Answer(Nothing, c)
    else if br == 0xFFFF_FFFF_FFFF_FFFF then Answer(Nothing, c1)
    else if br == EndOfTop(c.segs) || size >= nb + 96 then Answer(Region(br, size), c1)
    else Rest(c1, nb, br, size)
  }

  /**
   * The rest is asked for directly behind a region that is too small by itself; if it is refused the region goes back.
   */
  function Rest(c: Outside, nb: int, br: int, size: int): Answer {
    var rest := Whole(nb + 96 - size);
    var c1 := After(c, rest);
    if Continued(c, br + size, rest) == 0xFFFF_FFFF_FFFF_FFFF then Answer(Nothing, After(c1, -size))
    else Answer(Region(br, size + rest), c1)
  }

  /** As a last resort a region wherever it may lie, of whatever size it may turn out to be. */
  function Anywhere(c: Outside, nb: int): Answer {
    if Whole(nb + 96) >= 0x7FFF_FFFF_FFFF_FFFF then Answer(Nothing, c)
    else
      var r := Between(c, Whole(nb + 96));
      Answer(if r.Region? && r.size > nb + 80 then r else Nothing, After(After(c, Whole(nb + 96)), 0))
  }

  /** Contiguous calls, unless they have failed before. */
  function Contiguous(c: Outside, nb: int): Answer {
    if c.noncontiguous then Answer(Nothing, c) else if c.segs == [] then First(c, nb) else More(c, nb)
  }

  /** Contiguous calls first, and then the last resort. */
  function Ask(c: Outside, nb: int): Answer {
    var a := Contiguous(c, nb);
    if a.region.Region? then a else Anywhere(a.after.(noncontiguous := true), nb)
  }

  // ---- unfolding ----

  lemma WithinIs(footprint: int, limit: int, n: int)
    ensures WithinFootprint(footprint, limit, n) <==> limit == 0 || footprint + n <= limit
  {
  }

  lemma MakesIs(c: Outside, nb: int)
    ensures Makes(c, nb) <==>
      nb + 96 + 4095 < 0x1_0000_0000_0000_0000 && WithinFootprint(c.footprint, c.limit, Whole(nb + 96))
  {
  }

  lemma FirstIs(c: Outside, nb: int)
    ensures First(c, nb) == (
      var base, c1 := PresentBreak(c), After(c, 0);
      var size := Whole(base) - base + Whole(nb + 96);
      if base == 0xFFFF_FFFF_FFFF_FFFF || size >= 0x7FFF_FFFF_FFFF_FFFF || !WithinFootprint(c.footprint, c.limit, size)
      then Answer(Nothing, c1)
      else if Extended(c1, size) == 0xFFFF_FFFF_FFFF_FFFF then Answer(Nothing, After(c1, size))
      else Answer(Region(Extended(c1, size), size), After(c1, size)))
  {
  }

  lemma MoreIs(c: Outside, nb: int)
    ensures More(c, nb) == (
      var size := Whole(nb - c.topsize + 96);
      var br, c1 := Extended(c, size), After(c, size);
      if size >= 0x7FFF_FFFF_FFFF_FFFF then Answer(Nothing, c)
      else if br == 0xFFFF_FFFF_FFFF_FFFF then Answer(Nothing, c1)
      else if br == EndOfTop(c.segs) || size >= nb + 96 then Answer(Region(br, size), c1)
      else Rest(c1, nb, br, size))
  {
  }

  lemma EndOfTopIs(segs: seq<Seg>)
    ensures segs != [] ==> EndOfTop(segs) == segs[0].base + segs[0].size
  {
  }

  lemma RestIs(c: Outside, nb: int, br: int, size: int)
    ensures Rest(c, nb, br, size) == (
      var rest := Whole(nb + 96 - size);
      if Continued(c, br + size, rest) == 0xFFFF_FFFF_FFFF_FFFF then Answer(Nothing, After(After(c, rest), -size))
      else Answer(Region(br, size + rest), After(c, rest)))
  {
  }

  lemma AnywhereIs(c: Outside, nb: int)
    ensures Anywhere(c, nb) == (
      var n := Whole(nb + 96);
      if n >= 0x7FFF_FFFF_FFFF_FFFF then Answer(Nothing, c)
      else Answer(if Between(c, n).Region? && Between(c, n).size > nb + 80 then Between(c, n) else Nothing,
                  After(After(c, n), 0)))
  {
  }

  lemma AskIs(c: Outside, nb: int)
    ensures Ask(c, nb) == (
              var a := Contiguous(c, nb);
              if a.region.Region? then a else Anywhere(a.after.(noncontiguous := true), nb))
    ensures Contiguous(c, nb) ==
            if c.noncontiguous then Answer(Nothing, c) else if c.segs == [] then First(c, nb) else More(c, nb)
  {
  }

  // ---- when nothing comes ----

  /** The contiguous calls are not made any more, or the one that is made, or the one for the rest, is refused. */
  predicate ContiguousFails(c: Outside, nb: int) {
    if c.noncontiguous then true
    else if c.segs == [] then
      var base, size := PresentBreak(c), Whole(PresentBreak(c)) - PresentBreak(c) + Whole(nb + 96);
      base == 0xFFFF_FFFF_FFFF_FFFF || size >= 0x7FFF_FFFF_FFFF_FFFF || !WithinFootprint(c.footprint, c.limit, size)
      || Extended(After(c, 0), size) == 0xFFFF_FFFF_FFFF_FFFF
    else
      var size := Whole(nb - c.topsize + 96);
      var br := Extended(c, size);
      size >= 0x7FFF_FFFF_FFFF_FFFF || br == 0xFFFF_FFFF_FFFF_FFFF
      || (br != EndOfTop(c.segs) && size < nb + 96
          && Continued(After(c, size), br + size, Whole(nb + 96 - size)) == 0xFFFF_FFFF_FFFF_FFFF)
  }

  /** And the noncontiguous call is not made, or fails, or yields no more than the request and the foot. */
  predicate AnywhereFails(c: Outside, nb: int) {
    var n := Whole(nb + 96);
    n >= 0x7FFF_FFFF_FFFF_FFFF || Between(c, n).Nothing? || Between(c, n).size <= nb + 80
  }

  lemma NothingExactly(c: Outside, nb: int)
    ensures Ask(c, nb).region.Nothing? <==>
      ContiguousFails(c, nb) && AnywhereFails(Contiguous(c, nb).after.(noncontiguous := true), nb)
  {
    hide Extended, Continued, PresentBreak, Between, Whole;
  }

  // ---- an ordinary sbrk ----

  function Total(h: seq<int>): int {
    if h == [] then 0 else Total(h[..|h| - 1]) + h[|h| - 1]
  }

  /** The system that never refuses and that nobody else uses: it answers with the break before the call. */
  function Sbrk(start: int): System {
    (h: seq<int>) => start + Total(if h == [] then [] else h[..|h| - 1])
  }

  lemma SbrkIs(start: int, h: seq<int>, n: int)
    ensures Sbrk(start)(h + [n]) == start + Total(h) && Total(h + [n]) == Total(h) + n
  {
    assert (h + [n])[..|h|] == h;
  }

  /** Where the break is, and that all memory obtained so far is below it, the segment of top just below. */
  ghost predicate BreakAt(c: Outside, start: int, brk: int) {
    && c.system == Sbrk(start) && brk == start + Total(c.asked) && brk % 8 == 0 && brk >= 0x2000
    && (forall k :: 0 <= k < |c.segs| ==> c.segs[k].base + c.segs[k].size <= brk)
    && (c.segs != [] ==> EndOfTop(c.segs) == brk)
  }

  lemma BreakIs(c: Outside, start: int, brk: int)
    ensures BreakAt(c, start, brk) <==>
      && c.system == Sbrk(start) && brk == start + Total(c.asked) && brk % 8 == 0 && brk >= 0x2000
      && (forall k :: 0 <= k < |c.segs| ==> c.segs[k].base + c.segs[k].size <= brk)
      && (c.segs != [] ==> EndOfTop(c.segs) == brk)
    ensures BreakAt(c, start, brk) && brk <= 0x8000_0000_0000 ==> PresentBreak(c) == brk
  {
    SbrkIs(start, c.asked, 0);
  }

  lemma AfterIs(c: Outside, n: int)
    ensures After(c, n) == c.(asked := c.asked + [n])
  {
  }

  lemma SbrkGrants(c: Outside, start: int, brk: int, n: int)
    requires BreakAt(c, start, brk) && n > 0 && n % 8 == 0 && brk + n <= 0x8000_0000_0000
    ensures Extended(c, n) == brk
  {
    SbrkIs(start, c.asked, n);
  }

  lemma Eights(s: int)
    ensures Whole(s) % 8 == 0 && Spare(s) % 8 == 0
  {
    hide *;
    Granules(Whole(s));
    Granules(Spare(s));
  }

  lemma Granules(x: int)
    requires x % 4096 == 0
    ensures x % 8 == 0
  {
  }

  /**
   * With such a system the contiguous calls always obtain a region, it begins at the break and so continues the segment
   * of top, and the break is then where it ends.
   */
  lemma SbrkExtends(c: Outside, start: int, brk: int, nb: int)
    requires BreakAt(c, start, brk) && !c.noncontiguous && 0 <= c.topsize <= nb && brk + nb + 0x3000 <= 0x8000_0000_0000
    requires WithinFootprint(c.footprint, c.limit, nb + 0x2060)
    ensures var a := Ask(c, nb);
            && Makes(c, nb) && a.region.Region? && a.region.base == brk && !a.after.noncontiguous
            && start + Total(a.after.asked) == brk + a.region.size && a.region.size % 8 == 0
            && c.topsize + a.region.size >= nb + 96 && (c.segs == [] ==> a.region.size >= nb + 96)
  {
    hide *;
    MakesIs(c, nb);
    WholeSizes(0, nb + 96);
    WithinIs(c.footprint, c.limit, nb + 0x2060);
    WithinIs(c.footprint, c.limit, Whole(nb + 96));
    AskIs(c, nb);
    BreakIs(c, start, brk);
    if c.segs == [] {
      var c1, size := After(c, 0), Whole(brk) - brk + Whole(nb + 96);
      WholeSizes(brk, nb + 96);
      FirstIs(c, nb);
      WithinIs(c.footprint, c.limit, size);
      AfterIs(c, 0);
      AfterIs(c1, size);
      SbrkIs(start, c.asked, 0);
      BreakIs(c1, start, brk);
      SbrkGrants(c1, start, brk, size);
      SbrkIs(start, c1.asked, size);
    } else {
      var size := Whole(nb - c.topsize + 96);
      WholeSizes(0, nb - c.topsize + 96);
      MoreIs(c, nb);
      AfterIs(c, size);
      SbrkGrants(c, start, brk, size);
      SbrkIs(start, c.asked, size);
    }
  }

  lemma WholeSizes(brk: int, n: int)
    requires brk % 8 == 0
    ensures var size := Whole(brk) - brk + Whole(n); size % 8 == 0 && n <= size < n + 8192
    ensures Whole(n) % 8 == 0 && n <= Whole(n) < n + 4096
  {
    hide *;
    Eights(brk);
    Eights(n);
    SumOfMultiples(Whole(brk) - brk, Whole(n), 8);
  }

  // ---- giving back ----

  /** The most whole granules that are less than n. */
  function Spare(n: int): (r: int)
    ensures r % 4096 == 0 && n - 4096 <= r < n
  {
    (n - 1) / 4096 * 4096
  }

  /** What went back, and the system afterwards. */
  datatype Trimming = Trimming(released: int, after: Outside)

  /** So many bytes are offered if the break is at end. */
  function Offered(c: Outside, end: int, extra: int): Trimming {
    if PresentBreak(c) == end then
      Trimming(Released(After(c, 0), end, extra), After(After(After(c, 0), -extra), 0))
    else Trimming(0, After(c, 0))
  }

  /** The whole granules of top beyond the pad and the foot are offered when the break is where top ends. */
  function Trim(c: Outside, pad: int): Trimming {
    if pad < 0xFFFF_FFFF_FFFF_FF80 && c.segs != [] && c.topsize > pad + 80
    then Offered(c, EndOfTop(c.segs), Spare(c.topsize - pad - 80))
    else Trimming(0, c)
  }

  /**
   * The system before and after a trim with no pad: what was asked, and that what went back is off the footprint and
   * top.
   */
  ghost predicate GaveBack(c: Outside, c': Outside) {
    c' == Trim(c, 0).after.(segs := c'.segs, topsize := c.topsize - Trim(c, 0).released,
                            footprint := c.footprint - Trim(c, 0).released)
  }

  lemma TrimIs(c: Outside, pad: int)
    ensures Trim(c, pad) ==
      if pad < 0xFFFF_FFFF_FFFF_FF80 && c.segs != [] && c.topsize > pad + 80
      then Offered(c, EndOfTop(c.segs), Spare(c.topsize - pad - 80))
      else Trimming(0, c)
  {
  }

  lemma GaveBackIs(c: Outside, c': Outside)
    ensures GaveBack(c, c') <==>
      c'.system == c.system && c'.limit == c.limit && c'.noncontiguous == c.noncontiguous
      && c'.asked == Trim(c, 0).after.asked && c'.footprint == c.footprint - Trim(c, 0).released
      && c'.topsize == c.topsize - Trim(c, 0).released
  {
  }

  lemma Below8(a: int, b: int)
    requires a % 8 == 0 && b % 8 == 0
    ensures (a - b) % 8 == 0
  {
  }

  lemma OfferTaken(c: Outside, start: int, brk: int, extra: int)
    requires c.system == Sbrk(start) && brk == start + Total(c.asked) == PresentBreak(c) && brk <= 0x8000_0000_0000
    requires 0 <= extra <= brk && (brk - extra) % 8 == 0
    ensures Offered(c, brk, extra).released == extra
    ensures start + Total(Offered(c, brk, extra).after.asked) == brk - extra
  {
    hide Sbrk, Total, PresentBreak;
    var h := c.asked + [0];
    SbrkIs(start, c.asked, 0);
    SbrkIs(start, h, -extra);
    SbrkIs(start, h + [-extra], 0);
  }

  /** An ordinary sbrk takes back all that is offered: every whole granule of top beyond the pad and the foot. */
  lemma SbrkTrims(c: Outside, start: int, brk: int, pad: nat)
    requires BreakAt(c, start, brk) && c.segs != [] && brk <= 0x8000_0000_0000
    requires pad + 80 < c.topsize <= brk && pad < 0xFFFF_FFFF_FFFF_FF80
    ensures Trim(c, pad).released == Spare(c.topsize - pad - 80)
    ensures start + Total(Trim(c, pad).after.asked) == brk - Spare(c.topsize - pad - 80)
  {
    hide *;
    var extra := Spare(c.topsize - pad - 80);
    TrimIs(c, pad);
    BreakIs(c, start, brk);
    Eights(c.topsize - pad - 80);
    Below8(brk, extra);
    OfferTaken(c, start, brk, extra);
  }
}
