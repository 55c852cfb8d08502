/** The accept/reject loops over proposed rewrites, and what can be said of the rewrite they return. */
module Search {
  import opened OpcodeClasses
  import opened Transform
  import opened Distances

  const SIGNAL_PENALTY: int := 1_000_000
  const UINT_RANGE: int := 0x1_0000_0000

  /** A worker's answer to one test. */
  datatype Response = Response(success: bool, signal: int, regDist: nat, stackDist: nat, heapDist: nat)

  /** Running a rewrite on every worker: a function of what the block says. */
  type Tester = seq<Instr> -> seq<Response>

  datatype Option<T> = None | Some(value: T)

  // ---- the cost of a rewrite ----

  function CostOf(r: Response): int {
    if r.signal != 0 then SIGNAL_PENALTY else r.regDist + r.stackDist + r.heapDist
  }

  /** The sum over all workers, before it is put into 32 bits. */
  function TrueCost(rs: seq<Response>): nat {
    if rs == [] then 0 else TrueCost(rs[..|rs| - 1]) + CostOf(rs[|rs| - 1])
  }

  predicate AllRan(rs: seq<Response>) {
    forall i :: 0 <= i < |rs| ==> rs[i].success
  }

  /** Every worker answered without a signal, and with everything as it should be. */
  predicate AllZero(rs: seq<Response>) {
    forall i :: 0 <= i < |rs| ==> rs[i].signal == 0 && rs[i].regDist == 0 && rs[i].stackDist == 0 && rs[i].heapDist == 0
  }

  predicate AnySignal(rs: seq<Response>) {
    exists i :: 0 <= i < |rs| && rs[i].signal != 0
  }

  lemma {:induction false} ZeroCostIsAllZero(rs: seq<Response>)
    ensures TrueCost(rs) == 0 <==> AllZero(rs)
  {
    if rs != [] {
      ZeroCostIsAllZero(rs[..|rs| - 1]);
      assert AllZero(rs) <==> AllZero(rs[..|rs| - 1]) && AllZero([rs[|rs| - 1]]) by {
        assert [rs[|rs| - 1]][0] == rs[|rs| - 1];
        if AllZero(rs[..|rs| - 1]) && AllZero([rs[|rs| - 1]]) {
          forall i | 0 <= i < |rs| ensures rs[i].signal == 0 && rs[i].regDist == 0 && rs[i].stackDist == 0
              && rs[i].heapDist == 0 {
            if i < |rs| - 1 { assert rs[..|rs| - 1][i] == rs[i]; }
          }
        }
      }
    }
  }

  lemma {:induction false} SignalCosts(rs: seq<Response>)
    ensures AnySignal(rs) ==> TrueCost(rs) >= SIGNAL_PENALTY
  {
    if i :| 0 <= i < |rs| && rs[i].signal != 0 {
      if i < |rs| - 1 {
        assert rs[..|rs| - 1][i] == rs[i];
        SignalCosts(rs[..|rs| - 1]);
      }
    }
  }

  /** calculateCost: none when a worker failed to run the rewrite, else the sum in 32 bits. */
  method CalculateCost(rs: seq<Response>) returns (cost: Option<int>)
    ensures cost.None? <==> !AllRan(rs)
    ensures cost.Some? ==> cost.value == TrueCost(rs) % UINT_RANGE
  {
    var c := 0;
    var i := 0;
    while i < |rs|
      invariant 0 <= i <= |rs| && c == TrueCost(rs[..i]) % UINT_RANGE && forall j :: 0 <= j < i ==> rs[j].success
    {
      if !rs[i].success {
        return None;
      }
      assert rs[..i + 1][..i] == rs[..i];
      AddWraps(TrueCost(rs[..i]), CostOf(rs[i]));
      if rs[i].signal != 0 {
        c := (c + SIGNAL_PENALTY) % UINT_RANGE;
      } else {
        c := (c + (rs[i].regDist + rs[i].stackDist + rs[i].heapDist)) % UINT_RANGE;
      }
      i := i + 1;
    }
    assert rs[..|rs|] == rs;
    return Some(c);
  }

  lemma AddWraps(a: nat, b: nat)
    ensures (a % UINT_RANGE + b) % UINT_RANGE == (a + b) % UINT_RANGE
  {
    var q := a / UINT_RANGE;
    assert a + b == (a % UINT_RANGE + b) + q * UINT_RANGE;
  }

  /**
   * The two tests that the search makes of a cost mean what they say: zero is perfect, and signals cost the penalty.
   */
  predicate TestsHold(rs: seq<Response>) {
    && (TrueCost(rs) % UINT_RANGE == 0 <==> AllZero(rs))
    && (AnySignal(rs) ==> TrueCost(rs) % UINT_RANGE >= SIGNAL_PENALTY)
  }

  /**
   * The test for zero is wrong exactly for a sum that wraps to zero; the test for signals when it wraps below the
   * penalty.
   */
  lemma TestsHoldUnlessWrapped(rs: seq<Response>)
    ensures (TrueCost(rs) % UINT_RANGE == 0 <==> AllZero(rs)) <==>
      !(TrueCost(rs) >= UINT_RANGE && TrueCost(rs) % UINT_RANGE == 0)
    ensures (AnySignal(rs) ==> TrueCost(rs) % UINT_RANGE >= SIGNAL_PENALTY)
       <==> !(AnySignal(rs) && TrueCost(rs) >= UINT_RANGE && TrueCost(rs) % UINT_RANGE < SIGNAL_PENALTY)
    ensures TrueCost(rs) < UINT_RANGE ==> TestsHold(rs)
  {
    ZeroCostIsAllZero(rs);
    SignalCosts(rs);
  }

  /** One worker whose heap differs in 2^32 bits looks perfect, and a signal hides behind another worker's distance. */
  lemma WrappedCosts()
    ensures var rs := [Response(true, 0, 0, 0, UINT_RANGE)];
      AllRan(rs) && !AllZero(rs) && TrueCost(rs) % UINT_RANGE == 0
    ensures var rs := [Response(true, 1, 0, 0, 0), Response(true, 0, 0, 0, UINT_RANGE - SIGNAL_PENALTY)];
            AllRan(rs) && AnySignal(rs) && TrueCost(rs) % UINT_RANGE == 0
  {
    var one, two := [Response(true, 0, 0, 0, UINT_RANGE)], [Response(true, 1, 0, 0, 0),
                                                     Response(true, 0, 0, 0, UINT_RANGE - SIGNAL_PENALTY)];
    assert one[0].heapDist == UINT_RANGE && two[0].signal == 1;
    assert one[..0] == [] && two[..1][..0] == [];
    assert TrueCost(two[..1]) == SIGNAL_PENALTY;
  }

  // ---- how much state may be compared ----

  /** The number of workers the server can fork. */
  const MAX_WORKER: int := 32

  /** No worker compares more than so many bytes of registers, stack and heap. */
  predicate Compared(rs: seq<Response>, bytes: nat) {
    EachAtMost(rs, 8 * bytes)
  }

  predicate EachAtMost(rs: seq<Response>, each: nat) {
    forall i :: 0 <= i < |rs| ==> rs[i].regDist + rs[i].stackDist + rs[i].heapDist <= each
  }

  lemma {:induction false} CostAtMost(rs: seq<Response>, bytes: nat, each: nat)
    requires Compared(rs, bytes) && each >= SIGNAL_PENALTY && each >= 8 * bytes
    ensures TrueCost(rs) <= |rs| * each
  {
    if rs != [] {
      var n := |rs| - 1;
      CostAtMost(rs[..n], bytes, each);
      assert |rs| * each == n * each + each;
    }
  }

  /** So much cost, spread over n workers that take up to each of it. */
  function Spread(n: nat, each: nat, total: nat): seq<Response> {
    if n == 0 then [] else
      var d := if total < each then total else each;
      Spread(n - 1, each, total - d) + [Response(true, 0, 0, 0, d)]
  }

  function Times(n: nat, each: nat): nat {
    n * each
  }

  lemma StillSpread(n: nat, each: nat, total: nat)
    requires n > 0 && total <= Times(n, each)
    ensures total - each <= Times(n - 1, each)
  {
    assert n * each == (n - 1) * each + each;
  }

  lemma SpreadOnce(n: nat, each: nat, total: nat)
    requires n > 0
    ensures var d := if total < each then total else each;
            Spread(n, each, total) == Spread(n - 1, each, total - d) + [Response(true, 0, 0, 0, d)]
  {
  }

  /** One more worker with so much cost. */
  lemma SpreadMore(rs: seq<Response>, d: nat, each: nat)
    requires d <= each && EachAtMost(rs, each)
    ensures TrueCost(rs + [Response(true, 0, 0, 0, d)]) == TrueCost(rs) + d
    ensures AllRan(rs + [Response(true, 0, 0, 0, d)]) == AllRan(rs)
    ensures EachAtMost(rs + [Response(true, 0, 0, 0, d)], each)
  {
    var more := rs + [Response(true, 0, 0, 0, d)];
    assert more[..|rs|] == rs;
    assert forall i :: 0 <= i < |more| ==> more[i] == if i < |rs| then rs[i] else Response(true, 0, 0, 0, d);
  }

  lemma NoneSpread(each: nat, total: nat)
    requires total <= Times(0, each)
    ensures total == 0 && Spread(0, each, total) == [] && TrueCost([]) == 0 && AllRan([]) && EachAtMost([], each)
  {
  }

  lemma {:induction false} SpreadCost(n: nat, each: nat, total: nat)
    requires total <= Times(n, each)
    ensures |Spread(n, each, total)| == n && TrueCost(Spread(n, each, total)) == total && AllRan(Spread(n, each, total))
    ensures EachAtMost(Spread(n, each, total), each)
  {
    hide *;
    if n == 0 {
      NoneSpread(each, total);
    } else {
      var d := if total < each then total else each;
      StillSpread(n, each, total);
      SpreadCost(n - 1, each, total - d);
      SpreadOnce(n, each, total);
      SpreadMore(Spread(n - 1, each, total - d), d, each);
    }
  }

  /** With n workers the tests on the cost can be trusted exactly as long as less than 2^32 bits are compared in all. */
  lemma TrustedUpToSize(n: nat, bytes: nat)
    requires 1 <= n <= MAX_WORKER
    ensures (forall rs :: Compared(rs, bytes) && |rs| == n ==> TestsHold(rs)) <==> 8 * n * bytes < UINT_RANGE
  {
    if 8 * n * bytes < UINT_RANGE {
      forall rs | Compared(rs, bytes) && |rs| == n ensures TestsHold(rs) {
        var each := if 8 * bytes >= SIGNAL_PENALTY then 8 * bytes else SIGNAL_PENALTY;
        CostAtMost(rs, bytes, each);
        FewPenalties(n, bytes, each);
        TestsHoldUnlessWrapped(rs);
      }
    } else {
      var rs := Spread(n, 8 * bytes, UINT_RANGE);
      Commute(n, bytes);
      SpreadCost(n, 8 * bytes, UINT_RANGE);
      ZeroCostIsAllZero(rs);
      assert Compared(rs, bytes) && !TestsHold(rs);
    }
  }

  lemma FewPenalties(n: nat, bytes: nat, each: nat)
    requires n <= MAX_WORKER && 8 * n * bytes < UINT_RANGE
    requires each == if 8 * bytes >= SIGNAL_PENALTY then 8 * bytes else SIGNAL_PENALTY
    ensures n * each < UINT_RANGE
  {
    Commute(n, bytes);
  }

  lemma Commute(n: nat, bytes: nat)
    ensures n * (8 * bytes) == 8 * n * bytes
  {
  }

  /** The answer of a child that ran to its end: the distances of its registers, stack and heap from the target's. */
  function Report(info: seq<RegInfo>, outputs: nat, regs: seq<Byte>, regs': seq<Byte>,
                  stack: seq<Byte>, stack': seq<Byte>, heap: seq<Byte>, heap': seq<Byte>): Response
    requires LayoutFits(info, |regs|) && |regs| == |regs'| && outputs <= |info| && |stack| == |stack'|
      && |heap| == |heap'|
  {
    Response(true, 0, RelaxedSum(info, outputs, regs, regs', outputs), Dist(stack, stack'), Dist(heap, heap'))
  }

  /** What a child compares bounds its report, and the report is all zero exactly when nothing compared differs. */
  lemma ReportMeans(info: seq<RegInfo>, outputs: nat, regs: seq<Byte>, regs': seq<Byte>,
                    stack: seq<Byte>, stack': seq<Byte>, heap: seq<Byte>, heap': seq<Byte>)
    requires LayoutFits(info, |regs|) && InOrder(info)
    requires |regs| == |regs'| && outputs <= |info| && |stack| == |stack'| && |heap| == |heap'|
    ensures var r := Report(info, outputs, regs, regs', stack, stack', heap, heap');
            && Compared([r], |regs| + |stack| + |heap|)
            && (AllZero([r]) <==> OutputsAgree(info, outputs, regs, regs') && stack == stack' && heap == heap')
  {
    var r := Report(info, outputs, regs, regs', stack, stack', heap, heap');
    assert [r][0] == r;
    RelaxedBelowStrict(info, outputs, regs, regs', outputs);
    StrictAtMost(info, outputs, regs, regs', outputs);
    MemMetric(stack, stack', stack);
    MemMetric(heap, heap', heap);
  }

  // ---- proposals ----

  /** What one change makes of a block. */
  datatype Change = Unchanged | Rewritten(i: int) | Added(i: int) | Removed(i: int) | Exchanged(i: int,
                                                                                                j: int) | Moved(i: int,
                                                                                                j: int)

  predicate Proposed(c: seq<Instr>, c': seq<Instr>, how: Change) {
    match how
    case Unchanged => c' == c
    case Rewritten(i) => |c'| == |c| && 0 <= i < |c| && c' == c[i := c'[i]]
    case Added(i) => |c'| == |c| + 1 && 0 <= i < |c'| && Drop(c', i) == c
    case Removed(i) => 0 <= i < |c| && c' == Drop(c, i)
    case Exchanged(i, j) => 0 <= i < |c| && 0 <= j < |c| && i != j && c' == Exchange(c, i, j)
    case Moved(i, j) => 0 <= i < |c| && 0 <= j < |c| && i != j && c' == Place(Drop(c, i), j, c[i])
  }

  lemma OneLonger(c: seq<Instr>, c': seq<Instr>, how: Change)
    requires Proposed(c, c', how)
    ensures |c'| <= |c| + 1
  {
  }

  /**
   * Registers stay in the classes of their operands, where tied operands have the same; and definitions stay marked as
   * such, where opcodes of a class define the same operands.
   */
  ghost predicate KeepsOperands(descs: seq<Desc>, regs: Registers, c: seq<Instr>, d: seq<Instr>) {
    && (TiesAlike(descs, regs) && AllDrawn(descs, regs, c) ==> AllDrawn(descs, regs, d))
    && (DefsAlike(descs) && AllMarked(descs, c) ==> AllMarked(descs, d))
  }

  lemma KeepsThen(descs: seq<Desc>, regs: Registers, c: seq<Instr>, d: seq<Instr>, e: seq<Instr>)
    requires KeepsOperands(descs, regs, c, d) && KeepsOperands(descs, regs, d, e)
    ensures KeepsOperands(descs, regs, c, e)
  {
  }

  lemma KeepsSelf(descs: seq<Desc>, regs: Registers, c: seq<Instr>)
    ensures KeepsOperands(descs, regs, c, c)
  {
  }

  /** transformRewrite: an insertion into an empty block, else any of the changes. */
  method TransformRewrite(t: Transformation) returns (ghost how: Change)
    requires t.Valid() && AllFit(t.descs, t.Content()) && exists o: nat :: o < |t.descs| && Usable(t.descs[o])
    modifies t
    ensures t.Valid() && t.Undoable() && t.Undone() == old(t.Content()) && AllFit(t.descs, t.Content())
    ensures KeepsOperands(t.descs, t.regs, old(t.Content()), t.Content())
    ensures Proposed(old(t.Content()), t.Content(), how) && (old(t.numInstrs) == 0 ==> how.Added?)
    ensures how.Rewritten? ==>
      var x, y := old(t.Content())[how.i], t.Content()[how.i];
      SameClass(t.leader, x, y) || (exists k :: OperandChanged(t.descs, x, y, k)) || Fresh(t.descs, t.regs, y)
    ensures how.Added? ==> Fresh(t.descs, t.regs, t.Content()[how.i])
  {
    var pick: int := *;
    if t.numInstrs == 0 {
      ghost var i := t.InsertInstr();
      how := Added(i);
    } else if pick == 0 {
      ghost var i;
      var changed;
      changed, i := t.MutateOpcode();
      how := if changed then Rewritten(i) else Unchanged;
    } else if pick == 1 {
      ghost var i, k;
      var changed;
      changed, i, k := t.MutateOperand();
      how := if changed then Rewritten(i) else Unchanged;
    } else if pick == 2 {
      ghost var i, j;
      var changed;
      changed, i, j := t.Swap();
      how := if changed then Exchanged(i, j) else Unchanged;
    } else if pick == 3 {
      ghost var i, j;
      var changed;
      changed, i, j := t.Move();
      how := if changed then Moved(i, j) else Unchanged;
    } else if pick == 4 {
      ghost var i;
      var changed;
      changed, i := t.DeleteInstr();
      how := if changed then Removed(i) else Unchanged;
    } else if pick == 5 {
      ghost var i;
      var changed;
      changed, i := t.Replace();
      how := if changed then Rewritten(i) else Unchanged;
    } else {
      ghost var i := t.InsertInstr();
      how := Added(i);
    }
  }

  // ---- synthesize ----

  /** What is known of the current rewrite: nothing yet, or that it was tested at this cost, below the penalty. */
  ghost predicate Tested(test: Tester, c: seq<Instr>, cost: int) {
    AllRan(test(c)) && cost == TrueCost(test(c)) % UINT_RANGE && cost < SIGNAL_PENALTY
  }

  /** Whether synthesize takes a rewrite: never at the penalty, always when no worse, otherwise by chance. */
  predicate Takes(newCost: int, cost: int, chance: bool) {
    newCost < SIGNAL_PENALTY && (newCost <= cost || chance)
  }

  /** A rewrite that was taken signalled on no worker, unless the sum wrapped. */
  lemma TakenRanClean(test: Tester, c: seq<Instr>, cost: int, chance: bool)
    requires Takes(TrueCost(test(c)) % UINT_RANGE, cost, chance) && TrueCost(test(c)) < UINT_RANGE
    ensures !AnySignal(test(c))
  {
    SignalCosts(test(c));
  }

  datatype Outcome = Found | Failed | StillSearching

  /** The current rewrite and its cost, and whether any was accepted. */
  datatype Syn = Syn(block: seq<Instr>, cost: int, accepted: bool)

  /** What chance decides in one round: the proposal, and whether a worse one is accepted. */
  datatype Round = Round(tried: seq<Instr>, how: Change, chance: bool)

  /** One round of synthesize. */
  function NextSyn(test: Tester, s: Syn, r: Round): Syn {
    var newCost := TrueCost(test(r.tried)) % UINT_RANGE;
    if Takes(newCost, s.cost, r.chance) then Syn(r.tried, newCost, true) else s
  }

  /** A round that may occur: the search has not ended, and the proposal, one change away, ran on every worker. */
  predicate MayFollow(test: Tester, s: Syn, r: Round) {
    s.cost != 0 && Proposed(s.block, r.tried, r.how) && AllRan(test(r.tried))
  }

  function Rounds(test: Tester, start: seq<Instr>, rounds: seq<Round>): Syn {
    if rounds == [] then Syn(start, 10000, false)
    else NextSyn(test, Rounds(test, start, rounds[..|rounds| - 1]), rounds[|rounds| - 1])
  }

  predicate AllFollow(test: Tester, start: seq<Instr>, rounds: seq<Round>) {
    forall k :: 0 <= k < |rounds| ==> MayFollow(test, Rounds(test, start, rounds[..k]), rounds[k])
  }

  lemma OneRoundMore(test: Tester, start: seq<Instr>, rounds: seq<Round>, r: Round)
    requires AllFollow(test, start, rounds) && MayFollow(test, Rounds(test, start, rounds), r)
    ensures AllFollow(test, start, rounds + [r])
    ensures Rounds(test, start, rounds + [r]) == NextSyn(test, Rounds(test, start, rounds), r)
  {
    hide MayFollow, NextSyn;
    var more := rounds + [r];
    assert more[..|rounds|] == rounds;
    forall k | 0 <= k < |more| ensures MayFollow(test, Rounds(test, start, more[..k]), more[k]) {
      if k < |rounds| { assert more[..k] == rounds[..k]; }
    }
  }

  /**
   * From the first acceptance on the cost is the tested cost of the current rewrite; until then nothing has changed.
   */
  lemma {:induction false} CostIsTested(test: Tester, start: seq<Instr>, rounds: seq<Round>)
    requires AllFollow(test, start, rounds)
    ensures var s := Rounds(test, start, rounds);
            if s.accepted then Tested(test, s.block, s.cost) else s == Syn(start, 10000, false)
  {
    if rounds != [] {
      var n := |rounds| - 1;
      forall k | 0 <= k < n ensures MayFollow(test, Rounds(test, start, rounds[..n][..k]), rounds[..n][k]) {
        assert rounds[..n][..k] == rounds[..k];
      }
      CostIsTested(test, start, rounds[..n]);
    }
  }

  lemma MayFollowIs(test: Tester, s: Syn, r: Round)
    ensures MayFollow(test, s, r) <==> s.cost != 0 && Proposed(s.block, r.tried, r.how) && AllRan(test(r.tried))
  {
  }

  /** A round keeps a proposal at no more cost, and one at more cost only by chance and below the penalty. */
  lemma NextSynIs(test: Tester, s: Syn, r: Round)
    ensures var newCost := TrueCost(test(r.tried)) % UINT_RANGE;
            NextSyn(test, s, r) == if newCost >= SIGNAL_PENALTY || (newCost > s.cost && !r.chance) then s
                                   else Syn(r.tried, newCost, true)
  {
  }

  /** While no worse rewrite is taken by chance the cost never rises. */
  lemma {:induction false} CostNeverRises(test: Tester, start: seq<Instr>, rounds: seq<Round>, i: nat)
    requires i <= |rounds| && forall k :: i <= k < |rounds| ==> !rounds[k].chance
    ensures Rounds(test, start, rounds).cost <= Rounds(test, start, rounds[..i]).cost
    decreases |rounds|
  {
    hide NextSyn;
    if i == |rounds| {
      assert rounds[..i] == rounds;
    } else {
      var n := |rounds| - 1;
      CostNeverRises(test, start, rounds[..n], i);
      assert rounds[..n][..i] == rounds[..i];
      NextSynIs(test, Rounds(test, start, rounds[..n]), rounds[n]);
    }
  }

  /**
   * A proposal that was tested at cost zero is the last one and what the search ends with; and it ends with cost zero
   * only so.
   */
  lemma {:induction false} ZeroEnds(test: Tester, start: seq<Instr>, rounds: seq<Round>, k: nat)
    requires AllFollow(test, start, rounds) && k < |rounds|
    ensures TrueCost(test(rounds[k].tried)) % UINT_RANGE == 0 ==>
      k == |rounds| - 1 && Rounds(test, start, rounds) == Syn(rounds[k].tried, 0, true)
    ensures k == |rounds| - 1 && Rounds(test, start, rounds).cost == 0 ==>
      Rounds(test, start, rounds).block == rounds[k].tried && TrueCost(test(rounds[k].tried)) % UINT_RANGE == 0
  {
    hide NextSyn, Proposed;
    var s := Rounds(test, start, rounds[..k]);
    assert rounds[..k + 1][..k] == rounds[..k];
    assert MayFollow(test, s, rounds[k]);
    CostNatural(test, start, rounds[..k]);
    NextSynIs(test, s, rounds[k]);
    if k == |rounds| - 1 {
      assert rounds[..k + 1] == rounds;
    } else {
      assert MayFollow(test, Rounds(test, start, rounds[..k + 1]), rounds[k + 1]);
    }
  }

  lemma HowItEnds(test: Tester, start: seq<Instr>, rounds: seq<Round>)
    requires AllFollow(test, start, rounds)
    ensures forall k :: 0 <= k < |rounds| && TrueCost(test(rounds[k].tried)) % UINT_RANGE == 0 ==>
      k == |rounds| - 1 && Rounds(test, start, rounds).cost == 0
    ensures var s := Rounds(test, start, rounds);
            s.cost == 0 ==> rounds != [] && s.block == rounds[|rounds| - 1].tried && Tested(test, s.block, 0)
                            && (TrueCost(test(s.block)) < UINT_RANGE ==> AllZero(test(s.block)))
  {
    hide *;
    WordSize();
    forall k | 0 <= k < |rounds| && TrueCost(test(rounds[k].tried)) % UINT_RANGE == 0
      ensures k == |rounds| - 1 && Rounds(test, start, rounds).cost == 0
    {
      ZeroEnds(test, start, rounds, k);
    }
    var s := Rounds(test, start, rounds);
    if s.cost == 0 {
      CostIsTested(test, start, rounds);
      NoRounds(test, start);
      ZeroEnds(test, start, rounds, |rounds| - 1);
      FoundIsRight(test, s.block);
    }
  }

  lemma NoRounds(test: Tester, start: seq<Instr>)
    ensures AllFollow(test, start, []) && Rounds(test, start, []) == Syn(start, 10000, false)
  {
  }

  lemma {:induction false} CostNatural(test: Tester, start: seq<Instr>, rounds: seq<Round>)
    ensures Rounds(test, start, rounds).cost >= 0
  {
    if rounds != [] { CostNatural(test, start, rounds[..|rounds| - 1]); }
  }

  /** The rewrite that synthesize ends with is right in every byte compared exactly when its true cost is below 2^32. */
  lemma FoundIsRight(test: Tester, c: seq<Instr>)
    requires Tested(test, c, 0)
    ensures AllZero(test(c)) <==> TrueCost(test(c)) < UINT_RANGE
  {
    ZeroCostIsAllZero(test(c));
  }

  /**
   * synthesize, for at most so many rounds. It goes through rounds that may follow one another, and ends at the first
   * cost of zero, or when a proposal fails to run.
   */
  method Synthesize(t: Transformation, test: Tester, limit: nat) returns (outcome: Outcome, ghost rounds: seq<Round>)
    requires t.Valid() && AllFit(t.descs, t.Content()) && exists o: nat :: o < |t.descs| && Usable(t.descs[o])
    modifies t
    ensures t.Valid() && AllFit(t.descs, t.Content()) && t.numInstrs == |t.Content()| == |t.nodes|
    ensures KeepsOperands(t.descs, t.regs, old(t.Content()), t.Content())
    ensures AllFollow(test, old(t.Content()), rounds) && |rounds| <= limit
    ensures !outcome.Failed? ==>
      var s := Rounds(test, old(t.Content()), rounds);
      t.Content() == s.block && (if outcome.Found? then s.cost == 0 else s.cost > 0 && |rounds| == limit)
    ensures outcome.Failed? ==> !AllRan(test(t.Content()))
    ensures outcome.Failed? ==> exists how :: Proposed(Rounds(test, old(t.Content()), rounds).block, t.Content(), how)
    ensures forall k :: 0 <= k < |rounds| && TrueCost(test(rounds[k].tried)) % UINT_RANGE == 0 ==>
      outcome.Found? && k == |rounds| - 1
    ensures outcome.Found? ==> rounds != [] && t.Content() == rounds[|rounds| - 1].tried
    ensures outcome.Found? ==> Tested(test, t.Content(), 0)
    ensures outcome.Found? && TrueCost(test(t.Content())) < UINT_RANGE ==> AllZero(test(t.Content()))
  {
    hide *;
    WordSize();
    ghost var start := t.Content();
    var cost := 10000;
    NoRounds(test, start);
    BlockIs(t);
    outcome, rounds := StillSearching, [];
    ghost var s := Syn(start, 10000, false);
    TextsAre(t.nodes, t.text);
    var i := 0;
    KeepsSelf(t.descs, t.regs, start);
    while i < limit && outcome.StillSearching?
      invariant t.Valid() && AllFit(t.descs, t.Content()) && t.numInstrs == |t.Content()| == |t.nodes|
      invariant KeepsOperands(t.descs, t.regs, start, t.Content())
      invariant 0 <= |rounds| <= i <= limit && AllFollow(test, start, rounds) && s == Rounds(test, start, rounds)
      invariant !outcome.Failed? ==> s == Syn(t.Content(), cost, s.accepted) && |rounds| == i
      invariant outcome.StillSearching? ==> cost > 0
      invariant !outcome.Found? ==> s.cost > 0
      invariant outcome.Found? ==> cost == 0
      invariant outcome.Failed? ==> !AllRan(test(t.Content())) && exists how :: Proposed(s.block, t.Content(), how)
      decreases limit - i
    {
      ghost var r;
      ghost var c := t.Content();
      outcome, cost, r, s := OneRound(t, test, cost, s);
      KeepsThen(t.descs, t.regs, start, c, t.Content());
      if !outcome.Failed? {
        OneRoundMore(test, start, rounds, r);
        rounds := rounds + [r];
      }
      i := i + 1;
    }
    HowItEnds(test, start, rounds);
  }

  /** One round: propose, test, keep or undo. */
  method OneRound(t: Transformation, test: Tester, cost0: int, ghost s0: Syn)
    returns (outcome: Outcome, cost: int, ghost r: Round, ghost s: Syn)
    requires t.Valid() && AllFit(t.descs, t.Content()) && exists o: nat :: o < |t.descs| && Usable(t.descs[o])
    requires cost0 > 0 && s0 == Syn(t.Content(), cost0, s0.accepted)
    modifies t
    ensures t.Valid() && AllFit(t.descs, t.Content()) && t.numInstrs == |t.Content()| == |t.nodes|
    ensures KeepsOperands(t.descs, t.regs, old(t.Content()), t.Content())
    ensures Proposed(s0.block, r.tried, r.how) && (outcome.Failed? <==> !AllRan(test(r.tried)))
    ensures !outcome.Failed? ==> MayFollow(test, s0, r)
                                 && s == NextSyn(test, s0, r) == Syn(t.Content(), cost, s.accepted)
    ensures outcome.Failed? ==> s == s0 && t.Content() == r.tried
    ensures !outcome.Failed? ==> cost >= 0 && (outcome.Found? <==> cost == 0)
    ensures !outcome.Failed? ==>
      var newCost := TrueCost(test(r.tried)) % UINT_RANGE;
      if newCost >= SIGNAL_PENALTY || (newCost > cost0 && !r.chance) then t.Content() == s0.block && cost == cost0
      else t.Content() == r.tried && cost == newCost
  {
    hide *;
    WordSize();
    cost, s := cost0, s0;
    ghost var c0 := t.Content();
    KeepsSelf(t.descs, t.regs, c0);
    ghost var how := TransformRewrite(t);
    r := Round(t.Content(), how, false);
    BlockIs(t);
    var rs := test(Texts(t.nodes, t.text));
    var answer := CalculateCost(rs);
    if answer.None? {
      return Failed, cost, r, s;
    }
    var newCost := answer.value;
    var chance: bool := *;
    r := Round(t.Content(), how, chance);
    NextSynIs(test, s0, r);
    MayFollowIs(test, s0, r);
    var accept := if newCost >= SIGNAL_PENALTY then false else if newCost <= cost then true else chance;
    if accept {
      t.Accept();
      cost := newCost;
    } else {
      t.Undo();
    }
    s := NextSyn(test, s0, r);
    BlockIs(t);
    outcome := if cost == 0 then Found else StillSearching;
  }

  // ---- optimize ----

  /** calculateLatency, in 32 bits. */
  function Latency(c: seq<Instr>): int {
    |c| * 5 % UINT_RANGE
  }

  /** The sum of distances as the source computes it. */
  function DistOf(test: Tester, c: seq<Instr>): int {
    TrueCost(test(c)) % UINT_RANGE
  }

  function NewCost(test: Tester, c: seq<Instr>): int {
    (DistOf(test, c) + Latency(c)) % UINT_RANGE
  }

  /** At distance zero in the arithmetic of the source. */
  ghost predicate Correct(test: Tester, c: seq<Instr>) {
    AllRan(test(c)) && DistOf(test, c) == 0
  }

  /** Whether optimize takes a tested rewrite: the distance decides first, then the cost against the drawn bound. */
  predicate OptimizeTakes(dist: int, newCost: int, cost: int, maxCost: int) {
    dist < SIGNAL_PENALTY && (newCost <= cost || newCost < maxCost)
  }

  /**
   * The variables of optimize: the current block and its cost, the best copy and its cost; and whether any rewrite was
   * taken.
   */
  datatype Opt = Opt(block: seq<Instr>, cost: int, best: seq<Instr>, bestCost: int, moved: bool)

  /** What chance decides in one iteration: the proposal and the bound. */
  datatype Trial = Trial(tried: seq<Instr>, how: Change, bound: int)

  function Start(block: seq<Instr>): Opt {
    Opt(block, 100000, block, Latency(block), false)
  }

  predicate Taken(test: Tester, s: Opt, r: Trial) {
    r.bound >= Latency(r.tried) && OptimizeTakes(DistOf(test, r.tried), NewCost(test, r.tried), s.cost, r.bound)
  }

  /** The proposal is tested and found to be better than the best copy. */
  predicate Copies(test: Tester, s: Opt, r: Trial) {
    r.bound >= Latency(r.tried) && DistOf(test, r.tried) == 0 && NewCost(test, r.tried) < s.bestCost
  }

  /** One iteration of optimize. The copy is taken of the block as accepting or undoing has left it. */
  function After(test: Tester, s: Opt, r: Trial): Opt {
    var block := if Taken(test, s, r) then r.tried else s.block;
    Opt(block,
        if Taken(test, s, r) then NewCost(test, r.tried) else s.cost,
        if Copies(test, s, r) then block else s.best,
        if Copies(test, s, r) then NewCost(test, r.tried) else s.bestCost,
        s.moved || Taken(test, s, r))
  }

  /** A trial that may occur: one change, a bound no less than the cost, and a test that runs if it comes to one. */
  predicate Possible(test: Tester, s: Opt, r: Trial) {
    && Proposed(s.block, r.tried, r.how) && s.cost <= r.bound < UINT_RANGE
    && (r.bound >= Latency(r.tried) ==> AllRan(test(r.tried)))
  }

  function Run(test: Tester, start: seq<Instr>, trials: seq<Trial>): Opt {
    if trials == [] then Start(start) else After(test, Run(test, start, trials[..|trials| - 1]), trials[|trials| - 1])
  }

  predicate AllPossible(test: Tester, start: seq<Instr>, trials: seq<Trial>) {
    forall k :: 0 <= k < |trials| ==> Possible(test, Run(test, start, trials[..k]), trials[k])
  }

  lemma OneMore(test: Tester, start: seq<Instr>, trials: seq<Trial>, r: Trial)
    requires AllPossible(test, start, trials) && Possible(test, Run(test, start, trials), r)
    ensures AllPossible(test, start, trials + [r])
    ensures Run(test, start, trials + [r]) == After(test, Run(test, start, trials), r)
  {
    hide Possible, After;
    var more := trials + [r];
    assert more[..|trials|] == trials;
    forall k | 0 <= k < |more| ensures Possible(test, Run(test, start, more[..k]), more[k]) {
      if k < |trials| { assert more[..k] == trials[..k]; }
    }
  }

  lemma OneLess(test: Tester, start: seq<Instr>, trials: seq<Trial>)
    requires AllPossible(test, start, trials) && trials != []
    ensures var n := |trials| - 1;
            AllPossible(test, start, trials[..n]) && Possible(test, Run(test, start, trials[..n]), trials[n])
  {
    hide Possible;
    var n := |trials| - 1;
    forall k | 0 <= k < n ensures Possible(test, Run(test, start, trials[..n][..k]), trials[..n][k]) {
      assert trials[..n][..k] == trials[..k];
    }
  }

  /** One iteration, by the distance, the cost and the bound. */
  lemma AfterIs(test: Tester, s: Opt, r: Trial)
    ensures r.bound < Latency(r.tried) ==> After(test, s, r).block == s.block && After(test, s, r).cost == s.cost
    ensures r.bound >= Latency(r.tried) ==>
      var dist := TrueCost(test(r.tried)) % UINT_RANGE;
      var newCost := (dist + |r.tried| * 5 % UINT_RANGE) % UINT_RANGE;
      if dist >= SIGNAL_PENALTY || (newCost > s.cost && newCost >= r.bound)
      then After(test, s, r).block == s.block && After(test, s, r).cost == s.cost
      else After(test, s, r).block == r.tried && After(test, s, r).cost == newCost
  {
  }

  /** The cost rises only within the bounds that are drawn, and never when they leave no room. */
  lemma {:induction false} CostStaysWithinBounds(test: Tester, start: seq<Instr>, trials: seq<Trial>, i: nat, top: int)
    requires i <= |trials| && Run(test, start, trials[..i]).cost <= top
    requires forall k :: i <= k < |trials| ==> trials[k].bound <= top
    ensures Run(test, start, trials).cost <= top
    decreases |trials|
  {
    hide After;
    if i == |trials| {
      assert trials[..i] == trials;
    } else {
      var n := |trials| - 1;
      assert trials[..n][..i] == trials[..i];
      CostStaysWithinBounds(test, start, trials[..n], i, top);
      AfterIs(test, Run(test, start, trials[..n]), trials[n]);
    }
  }

  // ---- what the result of optimize is worth ----

  /**
   * What every run keeps: until a rewrite is taken the block is the first one; from then on the cost is the tested cost
   * of the block, and no less than that of the best copy if the block is at distance zero.
   */
  predicate Known(test: Tester, start: seq<Instr>, s: Opt) {
    && 0 <= s.cost < UINT_RANGE && 0 <= s.bestCost <= Latency(start)
    && (!s.moved ==> s.block == start && s.cost == 100000)
    && (s.moved ==> AllRan(test(s.block)) && s.cost == NewCost(test, s.block) && DistOf(test, s.block) < SIGNAL_PENALTY
                    && (DistOf(test, s.block) == 0 ==> s.bestCost <= s.cost))
  }

  lemma {:induction false} RunKnown(test: Tester, start: seq<Instr>, trials: seq<Trial>)
    requires AllPossible(test, start, trials)
    ensures Known(test, start, Run(test, start, trials))
  {
    if trials != [] {
      var n := |trials| - 1;
      OneLess(test, start, trials);
      RunKnown(test, start, trials[..n]);
    }
  }

  /**
   * A better rewrite at distance zero is turned down after it was tested: its cost ties with the bound, above the cost.
   */
  predicate Tied(test: Tester, s: Opt, r: Trial) {
    Copies(test, s, r) && s.cost < NewCost(test, r.tried) == r.bound
  }

  /**
   * Without a tie a new copy is of the rewrite that was tested; with one, of the block before it, which is not correct.
   */
  lemma CopyIsRightUnlessTied(test: Tester, start: seq<Instr>, s: Opt, r: Trial)
    requires Known(test, start, s) && Possible(test, s, r) && Copies(test, s, r)
    ensures Tied(test, s, r) <==> !Taken(test, s, r)
    ensures !Tied(test, s, r) ==> After(test, s, r).best == r.tried && Correct(test, r.tried)
    ensures Tied(test, s, r) ==> After(test, s, r).best == s.block
                                 && (if s.moved then !Correct(test, s.block) else s.block == start)
    ensures s.moved ==> (Correct(test, After(test, s, r).best) <==> !Tied(test, s, r))
  {
  }

  /** The last iteration that took a copy, or -1. */
  function LastCopy(test: Tester, start: seq<Instr>, trials: seq<Trial>): int {
    if trials == [] then -1 else
      var n := |trials| - 1;
      if Copies(test, Run(test, start, trials[..n]), trials[n]) then n else LastCopy(test, start, trials[..n])
  }

  /** The last copy was taken at a tie, after some rewrite had been taken. */
  predicate WrongCopy(test: Tester, start: seq<Instr>, trials: seq<Trial>) {
    var k := LastCopy(test, start, trials);
    0 <= k < |trials| && Tied(test, Run(test, start, trials[..k]), trials[k]) && Run(test, start, trials[..k]).moved
  }

  lemma RunStep(test: Tester, start: seq<Instr>, trials: seq<Trial>)
    requires trials != []
    ensures var n := |trials| - 1; Run(test, start, trials) == After(test, Run(test, start, trials[..n]), trials[n])
    ensures Run(test, start, []).best == start
  {
  }

  lemma AfterKeeps(test: Tester, s: Opt, r: Trial)
    ensures !Copies(test, s, r) ==> After(test, s, r).best == s.best
  {
  }

  lemma LastCopyStep(test: Tester, start: seq<Instr>, trials: seq<Trial>)
    ensures LastCopy(test, start, []) == -1
    ensures trials != [] ==>
      var n := |trials| - 1;
      LastCopy(test, start, trials) == if Copies(test, Run(test, start, trials[..n]), trials[n]) then n
          else LastCopy(test, start, trials[..n])
  {
  }

  lemma {:induction false} BestOfRun(test: Tester, start: seq<Instr>, trials: seq<Trial>)
    ensures -1 <= LastCopy(test, start, trials) < |trials|
    ensures LastCopy(test, start, trials) == -1 ==> Run(test, start, trials).best == start
    ensures var k := LastCopy(test, start, trials);
            k >= 0 ==> Run(test, start, trials).best == Run(test, start, trials[..k + 1]).best
                       && Copies(test, Run(test, start, trials[..k]), trials[k])
  {
    hide *;
    LastCopyStep(test, start, trials);
    if trials == [] {
      RunStep(test, start, [Trial([], Unchanged, 0)]);
    } else {
      var n := |trials| - 1;
      BestOfRun(test, start, trials[..n]);
      RunStep(test, start, trials);
      AfterKeeps(test, Run(test, start, trials[..n]), trials[n]);
      assert trials[..n + 1] == trials;
      var k := LastCopy(test, start, trials);
      if 0 <= k < n { assert trials[..n][..k] == trials[..k] && trials[..n][..k + 1] == trials[..k + 1]; }
    }
  }

  lemma PrefixPossible(test: Tester, start: seq<Instr>, trials: seq<Trial>, k: int)
    requires AllPossible(test, start, trials) && 0 <= k <= |trials|
    ensures AllPossible(test, start, trials[..k])
  {
    hide Possible;
    forall j | 0 <= j < k ensures Possible(test, Run(test, start, trials[..k][..j]), trials[..k][j]) {
      assert trials[..k][..j] == trials[..j];
    }
  }

  /** From a correct start, optimize ends with a correct rewrite exactly when its last copy was not taken at a tie. */
  lemma OptimizeExactly(test: Tester, start: seq<Instr>, trials: seq<Trial>)
    requires AllPossible(test, start, trials)
    ensures !WrongCopy(test, start, trials) ==> Run(test, start, trials).best == start
                                                || Correct(test, Run(test, start, trials).best)
    ensures WrongCopy(test, start, trials) ==> !Correct(test, Run(test, start, trials).best)
    ensures Correct(test, start) ==> (Correct(test, Run(test, start, trials).best) <==> !WrongCopy(test, start, trials))
  {
    hide Possible, After, Copies, Tied, Known, Correct;
    BestOfRun(test, start, trials);
    var k := LastCopy(test, start, trials);
    if k >= 0 {
      var s, r := Run(test, start, trials[..k]), trials[k];
      PrefixPossible(test, start, trials, k);
      RunKnown(test, start, trials[..k]);
      assert trials[..k + 1][..k] == trials[..k];
      assert Run(test, start, trials[..k + 1]) == After(test, s, r);
      CopyIsRightUnlessTied(test, start, s, r);
    }
  }

  /** No best copy is longer than the first block, and no block that was taken costs less than its latency. */
  predicate Lengths(test: Tester, start: seq<Instr>, s: Opt, n: nat) {
    && |s.block| <= |start| + n && |s.best| <= |start| && s.bestCost <= |start| * 5
    && (s.moved ==> |s.block| * 5 <= s.cost)
  }

  lemma {:induction false} RunLengths(test: Tester, start: seq<Instr>, trials: seq<Trial>)
    requires AllPossible(test, start, trials) && |start| + |trials| <= 800_000_000
    ensures Lengths(test, start, Run(test, start, trials), |trials|)
  {
    if trials == [] {
      FitsWord(start);
    } else {
      hide Possible, After, Copies, Taken, Known, NewCost, DistOf, Proposed;
      var n := |trials| - 1;
      var s, r := Run(test, start, trials[..n]), trials[n];
      OneLess(test, start, trials);
      RunLengths(test, start, trials[..n]);
      RunKnown(test, start, trials[..n]);
      LengthsStep(test, start, s, r, n);
    }
  }

  lemma FitsWord(c: seq<Instr>)
    requires |c| <= 800_000_000
    ensures Latency(c) == |c| * 5
  {
  }

  lemma CostCovers(test: Tester, c: seq<Instr>)
    requires |c| <= 800_000_000
    ensures DistOf(test, c) < SIGNAL_PENALTY ==> NewCost(test, c) >= |c| * 5
    ensures DistOf(test, c) == 0 ==> NewCost(test, c) == |c| * 5
  {
    hide TrueCost;
    FitsWord(c);
  }

  lemma LengthsStep(test: Tester, start: seq<Instr>, s: Opt, r: Trial, n: nat)
    requires Known(test, start, s) && Possible(test, s, r) && Lengths(test, start, s, n) && |start| + n < 800_000_000
    ensures Lengths(test, start, After(test, s, r), n + 1)
  {
    OneLonger(s.block, r.tried, r.how);
    CostCovers(test, r.tried);
    hide Proposed, AllRan, DistOf, NewCost, Latency;
    if Copies(test, s, r) { CopyIsRightUnlessTied(test, start, s, r); }
  }

  // ---- the loop ----

  /**
   * optimize: the result is that of a run of possible trials, or none when a test failed to run. Started at distance
   * zero, it ends at distance zero unless its last copy was taken at a tie, and it never ends with a longer rewrite.
   */
  method Optimize(t: Transformation, test: Tester, maxItrs: int)
      returns (best: Option<seq<Instr>>, ghost trials: seq<Trial>)
    requires t.Valid() && AllFit(t.descs, t.Content()) && exists o: nat :: o < |t.descs| && Usable(t.descs[o])
    modifies t
    ensures t.Valid() && AllFit(t.descs, t.Content()) && t.numInstrs == |t.Content()| == |t.nodes|
    ensures KeepsOperands(t.descs, t.regs, old(t.Content()), t.Content())
    ensures AllPossible(test, old(t.Content()), trials)
    ensures best.Some? ==> |trials| == if maxItrs > 0 then maxItrs else 0
    ensures best.Some? ==> var e := Run(test, old(t.Content()), trials); best.value == e.best && t.Content() == e.block
    ensures best.None? ==> |trials| < maxItrs && !AllRan(test(t.Content()))
    ensures best.None? ==> exists how :: Proposed(Run(test, old(t.Content()), trials).block, t.Content(), how)
    ensures best.Some? && Correct(test, old(t.Content())) ==>
      (Correct(test, best.value) <==> !WrongCopy(test, old(t.Content()), trials))
    ensures best.Some? && |old(t.Content())| + |trials| <= 800_000_000 ==> |best.value| <= |old(t.Content())|
  {
    ghost var start := t.Content();
    var cost := 100000;
    var bestCorrect := Texts(t.nodes, t.text);
    TextsAre(t.nodes, t.text);
    var bestCost := Latency(bestCorrect);
    ghost var s := Start(start);
    trials := [];
    var i := 0;
    while i < maxItrs
      invariant t.Valid() && AllFit(t.descs, t.Content()) && t.numInstrs == |t.Content()| == |t.nodes|
      invariant KeepsOperands(t.descs, t.regs, start, t.Content())
      invariant 0 <= i && |trials| == i && (i == 0 || i <= maxItrs)
      invariant AllPossible(test, start, trials) && s == Run(test, start, trials)
      invariant s == Opt(t.Content(), cost, bestCorrect, bestCost, s.moved) && cost < UINT_RANGE
    {
      var ok;
      ghost var r;
      ok, cost, bestCorrect, bestCost, r, s := OneTrial(t, test, cost, bestCorrect, bestCost, s);
      if !ok {
        return None, trials;
      }
      OneMore(test, start, trials, r);
      trials := trials + [r];
      i := i + 1;
    }
    OptimizeExactly(test, start, trials);
    if |start| + |trials| <= 800_000_000 { RunLengths(test, start, trials); }
    return Some(bestCorrect), trials;
  }

  /** One iteration of optimize. */
  method OneTrial(t: Transformation, test: Tester, cost0: int, best0: seq<Instr>, bestCost0: int, ghost s0: Opt)
    returns (ok: bool, cost: int, best: seq<Instr>, bestCost: int, ghost r: Trial, ghost s: Opt)
    requires t.Valid() && AllFit(t.descs, t.Content()) && exists o: nat :: o < |t.descs| && Usable(t.descs[o])
    requires cost0 < UINT_RANGE && s0 == Opt(t.Content(), cost0, best0, bestCost0, s0.moved)
    modifies t
    ensures t.Valid() && AllFit(t.descs, t.Content()) && t.numInstrs == |t.Content()| == |t.nodes|
    ensures KeepsOperands(t.descs, t.regs, old(t.Content()), t.Content())
    ensures Proposed(s0.block, r.tried, r.how) && cost < UINT_RANGE
    ensures ok ==> Possible(test, s0, r) && s == After(test, s0, r) == Opt(t.Content(), cost, best, bestCost, s.moved)
    ensures !ok ==> s == s0 && t.Content() == r.tried && !AllRan(test(r.tried))
    ensures ok && r.bound < Latency(r.tried) ==>
      t.Content() == s0.block && cost == cost0 && best == best0 && bestCost == bestCost0
    ensures ok && r.bound >= Latency(r.tried) ==>
      var dist := TrueCost(test(r.tried)) % UINT_RANGE;
      var newCost := (dist + |r.tried| * 5 % UINT_RANGE) % UINT_RANGE;
      && (if dist >= SIGNAL_PENALTY || (newCost > cost0 && newCost >= r.bound)
          then t.Content() == s0.block && cost == cost0 else t.Content() == r.tried && cost == newCost)
      && (if dist == 0 && newCost < bestCost0 then best == t.Content() && bestCost == newCost
          else best == best0 && bestCost == bestCost0)
  {
    hide *;
    WordSize();
    KeepsSelf(t.descs, t.regs, t.Content());
    cost, best, bestCost, ok, s := cost0, best0, bestCost0, true, s0;
    ghost var how := TransformRewrite(t);
    BlockIs(t);
    var maxCost := DrawBound(cost);
    r := Trial(t.Content(), how, maxCost);
    if maxCost < Latency(Texts(t.nodes, t.text)) {
      Untested(test, s0, r);
      t.Undo();
      BlockIs(t);
      return;
    }
    var rs := test(Texts(t.nodes, t.text));
    var answer := CalculateCost(rs);
    if answer.None? {
      ok := false;
      return;
    }
    s := After(test, s0, r);
    var dist := answer.value;
    var newCost := (dist + Latency(Texts(t.nodes, t.text))) % UINT_RANGE;
    TestedIs(test, s0, r, dist, newCost);
    cost := Settle(t, dist, newCost, cost, maxCost);
    BlockIs(t);
    if dist == 0 && newCost < bestCost {
      bestCost := newCost;
      best := Texts(t.nodes, t.text);
    }
  }

  lemma WordSize()
    ensures UINT_RANGE == 0x1_0000_0000
  {
  }

  lemma BlockIs(t: Transformation)
    requires t.Valid()
    ensures AllIn(t.nodes, t.text) && t.Content() == Texts(t.nodes, t.text) && t.numInstrs == |t.Content()| == |t.nodes|
  {
    TextsAre(t.nodes, t.text);
  }

  lemma Untested(test: Tester, s: Opt, r: Trial)
    requires Proposed(s.block, r.tried, r.how) && s.cost <= r.bound < UINT_RANGE && r.bound < Latency(r.tried)
    ensures Possible(test, s, r) && After(test, s, r) == s
  {
  }

  lemma TestedIs(test: Tester, s: Opt, r: Trial, dist: int, newCost: int)
    requires Proposed(s.block, r.tried, r.how) && s.cost <= r.bound < UINT_RANGE && r.bound >= Latency(r.tried)
      && AllRan(test(r.tried))
    requires dist == TrueCost(test(r.tried)) % UINT_RANGE && newCost == (dist + Latency(r.tried)) % UINT_RANGE
    ensures Possible(test, s, r)
    ensures var taken := OptimizeTakes(dist, newCost, s.cost, r.bound);
            var block := if taken then r.tried else s.block;
            var copied := dist == 0 && newCost < s.bestCost;
            After(test, s, r) == Opt(block, if taken then newCost else s.cost, if copied then block else s.best,
                                     if copied then newCost else s.bestCost, s.moved || taken)
    ensures newCost < UINT_RANGE
    ensures OptimizeTakes(dist, newCost, s.cost, r.bound) <==>
      !(dist >= SIGNAL_PENALTY || (newCost > s.cost && newCost >= r.bound))
    ensures Latency(r.tried) == |r.tried| * 5 % UINT_RANGE
    ensures Copies(test, s, r) <==> dist == 0 && newCost < s.bestCost
    ensures Tied(test, s, r) <==> dist == 0 && newCost < s.bestCost && s.cost < newCost == r.bound
  {
  }

  /** Keep the proposal or undo it. */
  method Settle(t: Transformation, dist: int, newCost: int, cost0: int, maxCost: int) returns (cost: int)
    requires t.Valid() && t.Undoable()
    modifies t
    ensures t.Valid()
    ensures t.Content() == if OptimizeTakes(dist, newCost, cost0, maxCost) then old(t.Content()) else old(t.Undone())
    ensures cost == if OptimizeTakes(dist, newCost, cost0, maxCost) then newCost else cost0
  {
    cost := cost0;
    var accept := if dist >= SIGNAL_PENALTY then false else if newCost <= cost then true else newCost < maxCost;
    if accept {
      t.Accept();
      cost := newCost;
    } else {
      t.Undo();
    }
  }

  /** The bound within which worse rewrites are taken: some value of 32 bits, no less than the cost. */
  method DrawBound(cost: int) returns (maxCost: int)
    ensures maxCost >= cost && (cost < UINT_RANGE ==> maxCost < UINT_RANGE)
  {
    maxCost := *;
    if maxCost < cost || maxCost >= UINT_RANGE {
      maxCost := cost;
    }
  }

  // ---- a run that ends with a wrong copy ----

  /** Three instructions a do the work, and so do b and a; two instructions a are one bit off, and one is three. */
  function ToyTest(a: Instr, c: seq<Instr>): seq<Response> {
    [Response(true, 0, if c == [a] then 3 else if c == [a, a] then 1 else 0, 0, 0)]
  }

  /** Two deletions, then an insertion whose cost is the bound drawn for it. */
  function ToyTrials(a: Instr, b: Instr): seq<Trial> {
    [Trial([a, a], Removed(0), 100000), Trial([a], Removed(0), 11), Trial([b, a], Added(0), 10)]
  }

  /** A correct block for which a possible run of optimize keeps a copy that is not. */
  lemma TieKeepsWrongCopy(a: Instr, b: Instr)
    requires a != b
    ensures var test: Tester, start, trials := c => ToyTest(a, c), [a, a, a], ToyTrials(a, b);
            && Correct(test, start) && AllPossible(test, start, trials)
            && WrongCopy(test, start, trials)
            && Run(test, start, trials).best == [a] && !Correct(test, [a])
  {
    var test: Tester, start, trials := c => ToyTest(a, c), [a, a, a], ToyTrials(a, b);
    var s0, s1, s2 := Start(start), Opt([a, a], 11, start, 15, true), Opt([a], 8, start, 15, true);
    ToySteps(test, a, b);
    var none: seq<Trial> := [];
    assert trials[..0] == none && trials[..1] == [trials[0]] && trials[..2] == [trials[0], trials[1]]
        && trials[..3] == trials;
    assert trials[..1][..0] == none && trials[..2][..1] == trials[..1];
    hide Possible, After, Copies, Tied;
    assert Run(test, start, trials[..0]) == s0 && Run(test, start, trials[..1]) == s1
        && Run(test, start, trials[..2]) == s2;
    forall k | 0 <= k < |trials| ensures Possible(test, Run(test, start, trials[..k]), trials[k]) { }
  }

  lemma ToySteps(test: Tester, a: Instr, b: Instr)
    requires a != b && test == (c => ToyTest(a, c))
    ensures Correct(test, [a, a, a]) && !Correct(test, [a])
    ensures var start, trials := [a, a, a], ToyTrials(a, b);
            var s0, s1, s2 := Start(start), Opt([a, a], 11, start, 15, true), Opt([a], 8, start, 15, true);
            && Possible(test, s0, trials[0]) && !Copies(test, s0, trials[0]) && After(test, s0, trials[0]) == s1
            && Possible(test, s1, trials[1]) && !Copies(test, s1, trials[1]) && After(test, s1, trials[1]) == s2
            && Possible(test, s2, trials[2]) && Tied(test, s2, trials[2])
                && After(test, s2, trials[2]) == Opt([a], 8, [a], 10, true)
  {
    hide *;
    var start, trials := [a, a, a], ToyTrials(a, b);
    ToyCost(a, start);
    ToyCost(a, [a, a]);
    ToyCost(a, [a]);
    ToyCost(a, [b, a]);
    ToyFacts(test, a, b);
    TestedIs(test, Start(start), trials[0], 1, 11);
    TestedIs(test, Opt([a, a], 11, start, 15, true), trials[1], 3, 8);
    TestedIs(test, Opt([a], 8, start, 15, true), trials[2], 0, 10);
  }

  lemma ToyFacts(test: Tester, a: Instr, b: Instr)
    requires a != b && test == (c => ToyTest(a, c))
    ensures var start := [a, a, a];
            && ToyTrials(a, b) == [Trial([a, a], Removed(0), 100000), Trial([a], Removed(0), 11),
                                   Trial([b, a], Added(0), 10)]
            && Start(start) == Opt(start, 100000, start, 15, false) && start != [a, a] && [b, a] != [a, a]
            && Proposed(start, [a, a], Removed(0)) && Proposed([a, a], [a], Removed(0))
                && Proposed([a], [b, a], Added(0))
            && (Correct(test, start) <==> AllRan(test(start)) && TrueCost(test(start)) % UINT_RANGE == 0)
            && (Correct(test, [a]) ==> TrueCost(test([a])) % UINT_RANGE == 0)
    ensures Latency([a, a]) == 10 && Latency([a]) == 5 && Latency([b, a]) == 10 && UINT_RANGE == 0x1_0000_0000
    ensures OptimizeTakes(1, 11, 100000, 100000) && OptimizeTakes(3, 8, 11, 11) && !OptimizeTakes(0, 10, 8, 10)
  {
    hide *;
    WordSize();
    CorrectIs(test, [a, a, a]);
    CorrectIs(test, [a]);
    ToyProposals(a, b);
    ToyNumbers(a, b);
    assert [b, a][0] == b && [a, a][0] == a;
  }

  lemma CorrectIs(test: Tester, c: seq<Instr>)
    ensures Correct(test, c) <==> AllRan(test(c)) && TrueCost(test(c)) % UINT_RANGE == 0
  {
  }

  lemma ToyProposals(a: Instr, b: Instr)
    ensures Proposed([a, a, a], [a, a], Removed(0)) && Proposed([a, a], [a], Removed(0))
      && Proposed([a], [b, a], Added(0))
  {
    assert Drop([a, a, a], 0) == [a, a] && Drop([a, a], 0) == [a] && Drop([b, a], 0) == [a];
  }

  lemma ToyNumbers(a: Instr, b: Instr)
    ensures ToyTrials(a, b) == [Trial([a, a], Removed(0), 100000), Trial([a], Removed(0), 11),
                                Trial([b, a], Added(0), 10)]
    ensures Start([a, a, a]) == Opt([a, a, a], 100000, [a, a, a], 15, false)
    ensures Latency([a, a]) == 10 && Latency([a]) == 5 && Latency([b, a]) == 10
    ensures OptimizeTakes(1, 11, 100000, 100000) && OptimizeTakes(3, 8, 11, 11) && !OptimizeTakes(0, 10, 8, 10)
  {
  }

  lemma ToyCost(a: Instr, c: seq<Instr>)
    ensures TrueCost(ToyTest(a, c)) == (if c == [a] then 3 else if c == [a, a] then 1 else 0) && AllRan(ToyTest(a, c))
  {
    var rs := ToyTest(a, c);
    assert rs[..0] == [];
  }
}
