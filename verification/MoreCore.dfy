/**
 * The system's side. Any answers of MORECORE are possible, as long as a successful one is a word-aligned region of user
 * memory that touches no segment, and a second call directly after a successful one extends that region: other answers
 * count as failure. Each answer may depend on all sizes asked before, which are recorded.
 */
module MoreCore {
  import opened State
  import opened Segments

  const CMFAIL: int := 0xFFFF_FFFF_FFFF_FFFF

  datatype Region = Nothing | Region(base: int, size: int)

  /** The system after one more call, for n bytes. */
  function After(c: Outside, n: int): Outside {
    c.(asked := c.asked + [n])
  }

  /** What it answers to MORECORE(n), for n > 0: where the region begins, or failure. */
  function Extended(c: Outside, n: int): int {
    var br := c.system(c.asked + [n]);
    if Granted(c.segs, br, n) then br else 0xFFFF_FFFF_FFFF_FFFF
  }

  /** The same directly after a call that obtained a region ending at e. */
  function Continued(c: Outside, e: int, n: int): int {
    if c.system(c.asked + [n]) == e && Granted(c.segs, e, n) then e else 0xFFFF_FFFF_FFFF_FFFF
  }

  /** The present break: MORECORE(0). */
  function PresentBreak(c: Outside): int {
    var base := c.system(c.asked + [0]);
    if base % 8 == 0 && 0 <= base <= 0x8000_0000_0000 then base else 0xFFFF_FFFF_FFFF_FFFF
  }

  /** What lies between the answers to MORECORE(n) and then MORECORE(0). */
  function Between(c: Outside, n: int): Region {
    var br, end := c.system(c.asked + [n]), c.system(c.asked + [n] + [0]);
    if br < end && Granted(c.segs, br, end - br) then Region(br, end - br) else Nothing
  }

  /** How far MORECORE(-n) takes back the break, which is at e: at most n bytes. */
  function Released(c: Outside, e: int, n: int): int {
    var rel, br := c.system(c.asked + [-n]), c.system(c.asked + [-n] + [0]);
    if rel != 0xFFFF_FFFF_FFFF_FFFF && br % 8 == 0 && e - n <= br < e then e - br else 0
  }

  /** One call, and the answer as it is. */
  method Call(m: MallocState, n: int) returns (answer: int)
    modifies m`asked
    ensures answer == m.system(old(m.asked) + [n]) && m.asked == old(m.asked) + [n]
  {
    m.asked := m.asked + [n];
    answer := m.system(m.asked);
  }

  /** MORECORE(n) for n > 0: the region [br, br + n), or failure. */
  method Extend(m: MallocState, n: int) returns (br: int)
    modifies m`asked
    ensures br == Extended(old(m.Side()), n) && m.Side() == After(old(m.Side()), n)
    ensures br == CMFAIL || Granted(m.segs, br, n)
  {
    br := Call(m, n);
    if !Granted(m.segs, br, n) {
      br := CMFAIL;
    }
  }

  /** MORECORE(n) directly after a call that obtained a region ending at e: it continues there, or failure. */
  method ExtendFrom(m: MallocState, e: int, n: int) returns (end: int)
    modifies m`asked
    ensures end == Continued(old(m.Side()), e, n) && m.Side() == After(old(m.Side()), n)
    ensures end == CMFAIL || (end == e && Granted(m.segs, e, n))
  {
    end := Call(m, n);
    if end != e || !Granted(m.segs, e, n) {
      end := CMFAIL;
    }
  }

  /** MORECORE(-n), to give back what cannot be used; the answer is not looked at. */
  method Return(m: MallocState, n: int)
    modifies m`asked
    ensures m.Side() == After(old(m.Side()), -n)
  {
    var answer := Call(m, -n);
  }

  /** MORECORE(0): the present break, or failure. */
  method Break(m: MallocState) returns (base: int)
    modifies m`asked
    ensures base == PresentBreak(old(m.Side())) && m.Side() == After(old(m.Side()), 0)
    ensures base == CMFAIL || (base % 8 == 0 && 0 <= base <= 0x8000_0000_0000)
  {
    base := Call(m, 0);
    if base % 8 != 0 || base < 0 || base > 0x8000_0000_0000 {
      base := CMFAIL;
    }
  }

  /** MORECORE(n) followed by MORECORE(0): what lies between the two answers is ours. */
  method ExtendAndBreak(m: MallocState, n: int) returns (br: int, end: int)
    modifies m`asked
    ensures m.Side() == After(After(old(m.Side()), n), 0)
    ensures Between(old(m.Side()), n) ==
            if br != CMFAIL && end != CMFAIL && br < end then Region(br, end - br) else Nothing
    ensures br != CMFAIL && end != CMFAIL && br < end ==> Granted(m.segs, br, end - br)
  {
    br := Call(m, n);
    end := Call(m, 0);
    if br < end && !Granted(m.segs, br, end - br) {
      br := CMFAIL;
    }
  }

  /** MORECORE(-n) and the break after it: at most n bytes below the end e are gone. */
  method Shrink(m: MallocState, e: int, n: int) returns (rel: int, br: int)
    requires e % 8 == 0 && n >= 0
    modifies m`asked
    ensures m.Side() == After(After(old(m.Side()), -n), 0)
    ensures Released(old(m.Side()), e, n) == if rel != CMFAIL && br < e then e - br else 0
    ensures br % 8 == 0 && br >= e - n
  {
    rel := Call(m, -n);
    br := Call(m, 0);
    if br % 8 != 0 || br < e - n {
      br := e;
    }
  }

  /**
   * sys_alloc does not look at where the second region of the partial-failure path begins. What it then takes for its
   * own is covered by the two regions exactly when the second continues the first.
   */
  ghost predicate Covered(br: int, ssize: int, end: int, esize: int) {
    forall a :: In(a, br, ssize + esize) ==> In(a, br, ssize) || In(a, end, esize)
  }

  predicate In(a: int, base: int, n: int) {
    base <= a < base + n
  }

  lemma CoveredIffContiguous(br: int, ssize: int, end: int, esize: int)
    requires ssize > 0 && esize > 0 && (end >= br + ssize || end + esize <= br)
    ensures Covered(br, ssize, end, esize) <==> end == br + ssize
  {
    assert In(br + ssize, br, ssize + esize) && !In(br + ssize, br, ssize);
    assert In(br + ssize + esize - 1, br, ssize + esize) && !In(br + ssize + esize - 1, br, ssize);
  }
}
