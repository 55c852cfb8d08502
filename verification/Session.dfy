/**
 * Whole runs: whatever a client does, in any order, each call does what it should and the last word stored in a slot
 * reads back.
 */
module Session {
  import opened Words
  import opened Memory
  import opened Sizes
  import Tries
  import opened Layouts
  import opened Bins
  import opened State
  import opened HeapSteps
  import opened Chunks
  import opened Segments
  import opened Allocate
  import opened Free
  import opened Calloc
  import opened Payload
  import opened Realloc
  import opened Memalign
  import opened Ialloc
  import opened Clients
  import BulkFree
  import BinMaps

  /** Live blocks are aligned, lie in a segment, and their user parts do not meet. */
  lemma BlocksApart(m: MallocState, c: int, d: int)
    requires m.Valid() && c in Blocks(m.L) && d in Blocks(m.L) && c != d
    ensures c % 16 == 0 && Within(m.segs, c, c + Blocks(m.L)[c] + 8)
    ensures c + Blocks(m.L)[c] + 8 <= d + 16 || d + Blocks(m.L)[d] + 8 <= c + 16
  {
    hide *;
    ValidIs(m);
    NowIs(m);
    ConsistentIs(m, {m.dv});
    BlocksIs(m.L);
    ChunkFacts(m.Now(), {m.dv}, c);
    TwoBlocksApart(m.Now(), {m.dv}, c, d);
    HeapSteps.Shrink(m.segs, c, c + m.L[c].size + 16, c, c + m.L[c].size + 8);
  }

  // ---- a heap before its first request ----

  lemma FreshBins(m: Mem, rings: seq<seq<int>>, trees: seq<Tries.Tree>)
    requires m == map[] && |rings| == 32 && |trees| == 32
    requires (forall i :: 0 <= i < 32 ==> rings[i] == []) && (forall i :: 0 <= i < 32 ==> trees[i] == Tries.Leaf)
    ensures BinsOK(m, 0, 0, map[], rings, trees)
  {
    BinMaps.ZeroIffUnmarked(0);
    forall i | 0 <= i < 32 ensures SmallBinOK(m, 0, i, rings[i], map[]) { var r := rings[i]; assert r == []; }
    forall i | 0 <= i < 32 ensures TreeBinOK(m, 0, i, trees[i], map[]) { LeafRep(m, TreeBinAt(i), i); }
  }

  /** A heap to start from. */
  method NewState(limit: U64, system: System) returns (m: MallocState)
    ensures fresh(m) && m.Valid() && m.L == map[] && Blocks(m.L) == map[]
    ensures m.system == system && m.Side() == Outside(system, [], [], 0, 0, limit, false)
  {
    m := new MallocState(limit, system);
    FreshIsValid(m);
  }

  lemma FreshIsValid(m: MallocState)
    requires m.mem == map[] && m.smallmap == 0 && m.treemap == 0 && m.dv == 0 && m.dvsize == 0 && m.top == 0
      && m.topsize == 0
    requires m.footprint == 0 && m.maxFootprint == 0 && m.segs == [] && m.segNext == 0 && m.L == map[] && m.D == map[]
    requires |m.rings| == 32 && |m.trees| == 32
    requires (forall i :: 0 <= i < 32 ==> m.rings[i] == []) && (forall i :: 0 <= i < 32 ==> m.trees[i] == Tries.Leaf)
    ensures m.Valid() && Blocks(m.L) == map[]
  {
    hide *;
    var s := m.Now();
    NowIs(m);
    FreshBins(m.mem, m.rings, m.trees);
    NoLayout(m.mem);
    FiledIs(m.L, m.D, {0});
    TopOKIs(m.L, 0, 0);
    SegsUnfold(m.L, m.segs, 0, 0);
    NoneSeparate();
    HeadSegIs(m.segs, m.segBase, m.segSize, m.segNext);
    NoRecords(m.mem, m.L, m.segs);
    SegsOKIs(s);
    InvParts(s, {0});
    NoTotal();
    DvIs(m.L, 0, 0);
    ConsistentIs(m, {0});
    ValidIs(m);
    BlocksIs(m.L);
    NoKeys(Blocks(m.L));
  }

  lemma NoLayout(m: Mem)
    ensures LayoutOK(m, map[])
  {
  }

  lemma NoneSeparate()
    ensures Separate([]) && RecordsNamed(map[], [])
  {
  }

  lemma NoTotal()
    ensures TotalSize([]) == 0
  {
  }

  // ---- what each call does ----

  predicate Callable(c: Client, blocks: seq<int>) {
    && (forall i :: 0 <= i < |blocks| ==> blocks[i] in c.live)
    && (forall i, j :: 0 <= i < j < |blocks| ==> blocks[i] != blocks[j])
  }

  /**
   * One call: its result, and what the client knows afterwards. An allocation gives a block that was not held before,
   * or null, and null only when nothing in the heap fits. Calls on blocks that are not held, and alignments beyond half
   * the address space, are not made.
   */
  ghost predicate Stepped(s: Moment, op: Op, r: int, s': Moment) {
    var c, c' := s.client, s'.client;
    match op
    case MallocOp(bytes) => Allocated(s, r, ChunkRequest(bytes)) && c' == if r == 0 then c else Gain(c, r - 16, bytes)
    case CallocOp(n, size) => ClearedStep(s, n, size, r, c')
    case MemalignOp(alignment, bytes) => AlignedStep(s, alignment, bytes, r, c')
    case ReallocOp(block, bytes) => ResizedStep(s, block, bytes, r, c')
    case FreeOp(block) => r == 0 && c' == if block in c.live then Lose(c, block) else c
    case BulkFreeOp(blocks) => r == 0 && c' == if Callable(c, blocks) then LoseAll(c, blocks) else c
    case StoreOp(block, off, v) => r == 0 && c' == if CanStore(c, block, off) then Wrote(c, block, off, v) else c
    case IallocOp(n, sizes, same, clear, own) => AggregateStep(s, n, sizes, same, clear, own, r, c')
  }

  /** Null exactly for want of room in the heap and from the system, else an aligned block that was not held. */
  ghost predicate Allocated(s: Moment, r: int, nb: int) {
    if Denied(s.heap.L, s.side, nb) then r == 0 else r != 0 && r % 16 == 0 && r - 16 !in s.client.live
  }

  function Product(n: U64, size: U64): nat {
    n * size
  }

  lemma ProductIs(n: U64, size: U64)
    ensures Product(n, size) == n * size
  {
  }

  /** calloc: room for the true product, and words that are zero. */
  ghost predicate ClearedStep(s: Moment, n: U64, size: U64, r: int, c': Client) {
    && Allocated(s, r, ChunkRequest(CallocRequest(n, size)))
    && (r != 0 ==> CallocRequest(n, size) == Product(n, size))
    && c' == if r == 0 then s.client else GainZero(s.client, r - 16, CallocRequest(n, size))
  }

  /** memalign: a multiple of the rounded alignment. */
  ghost predicate AlignedStep(s: Moment, alignment: U64, bytes: U64, r: int, c': Client) {
    && (alignment > 0x8000_0000_0000_0000 ==> r == 0)
    && (alignment <= 0x8000_0000_0000_0000 && bytes < 0xFFFF_FFFF_FFFF_FF80 - Rounded(alignment) ==>
          var req := Request2Size(bytes) + Rounded(alignment) + 24;
          req < 0x1_0000_0000_0000_0000 && Allocated(s, r, ChunkRequest(req)))
    && (alignment <= 0x8000_0000_0000_0000 && bytes >= 0xFFFF_FFFF_FFFF_FF80 - Rounded(alignment) ==> r == 0)
    && (r != 0 ==> r % Rounded(alignment) == 0)
    && c' == if r == 0 then s.client else Gain(s.client, r - 16, bytes)
  }

  /** realloc: the same block whenever it has room, else a new one; null only when there is none. */
  ghost predicate ResizedStep(s: Moment, block: int, bytes: U64, r: int, c': Client) {
    && (block !in s.client.live ==> r == 0)
    && (block in s.client.live && bytes < 0xFFFF_FFFF_FFFF_FF80 ==>
          if StaysPut(s.heap.L, block, ChunkRequest(bytes)) then r == block + 16
          else r != block + 16 && Allocated(s, r, ChunkRequest(bytes)))
    && (bytes >= 0xFFFF_FFFF_FFFF_FF80 ==> r == 0)
    && c' == if r == 0 then s.client else Move(s.client, block, r - 16, bytes)
  }

  /** ialloc is called with a size for each element, and sizes whose sum fits. */
  predicate CanCut(n: nat, sizes: seq<U64>, same: bool, own: bool) {
    && (if same then |sizes| >= 1 else |sizes| >= n)
    && Sum(ElementSizes(n, sizes, same)) + ArraySize(n, own) < 0x1_0000_0000_0000_0000
  }

  /**
   * ialloc: null for want of room; else adjacent blocks that were not held, the first at r, zero if asked for, and
   * behind them the array of their addresses if it is part of the chunk. For no elements there is at most an empty
   * array, at r.
   */
  ghost predicate AggregateStep(s: Moment, n: nat, sizes: seq<U64>, same: bool, clear: bool, own: bool, r: int,
                                c': Client)
  {
    var c := s.client;
    if !CanCut(n, sizes, same, own) || (n == 0 && !own) then r == 0 && c' == c
    else if Denied(s.heap.L, s.side, ChunkRequest(Needed(n, sizes, same, own))) then r == 0 && c' == c
    else if n == 0 then r != 0 && r % 16 == 0 && r - 16 !in c.live && c' == Gain(c, r - 16, 0)
    else
      var xs := ElementSizes(n, sizes, same);
      && r != 0 && r % 16 == 0 && (forall x :: x in c.live ==> x < r - 16 || x >= r - 16 + Sum(xs) + ArraySize(n, own))
      && c' == GainCut(c, r, ElementBytes(n, sizes, same), xs, clear, own)
  }

  lemma AllocatedIs(s: Moment, r: int, nb: int)
    ensures Allocated(s, r, nb) <==> if Denied(s.heap.L, s.side, nb) then r == 0
                                     else r != 0 && r % 16 == 0 && r - 16 !in s.client.live
  {
  }

  lemma SteppedIs(s: Moment, op: Op, r: int, s': Moment)
    ensures Stepped(s, op, r, s') <==>
      var c, c' := s.client, s'.client;
      match op
      case MallocOp(bytes) => Allocated(s, r, ChunkRequest(bytes)) && c' == if r == 0 then c else Gain(c, r - 16, bytes)
      case CallocOp(n, size) => ClearedStep(s, n, size, r, c')
      case MemalignOp(alignment, bytes) => AlignedStep(s, alignment, bytes, r, c')
      case ReallocOp(block, bytes) => ResizedStep(s, block, bytes, r, c')
      case FreeOp(block) => r == 0 && c' == if block in c.live then Lose(c, block) else c
      case BulkFreeOp(blocks) => r == 0 && c' == if Callable(c, blocks) then LoseAll(c, blocks) else c
      case StoreOp(block, off, v) => r == 0 && c' == if CanStore(c, block, off) then Wrote(c, block, off, v) else c
      case IallocOp(n, sizes, same, clear, own) => AggregateStep(s, n, sizes, same, clear, own, r, c')
  {
  }

  lemma ClearedStepIs(s: Moment, n: U64, size: U64, r: int, c': Client)
    ensures ClearedStep(s, n, size, r, c') <==>
      && Allocated(s, r, ChunkRequest(CallocRequest(n, size)))
      && (r != 0 ==> CallocRequest(n, size) == Product(n, size))
      && c' == if r == 0 then s.client else GainZero(s.client, r - 16, CallocRequest(n, size))
  {
  }

  lemma AlignedStepIs(s: Moment, alignment: U64, bytes: U64, r: int, c': Client)
    ensures AlignedStep(s, alignment, bytes, r, c') <==>
      && (alignment > 0x8000_0000_0000_0000 ==> r == 0)
      && (alignment <= 0x8000_0000_0000_0000 && bytes < 0xFFFF_FFFF_FFFF_FF80 - Rounded(alignment) ==>
            var req := Request2Size(bytes) + Rounded(alignment) + 24;
            req < 0x1_0000_0000_0000_0000 && Allocated(s, r, ChunkRequest(req)))
      && (alignment <= 0x8000_0000_0000_0000 && bytes >= 0xFFFF_FFFF_FFFF_FF80 - Rounded(alignment) ==> r == 0)
      && (r != 0 ==> r % Rounded(alignment) == 0)
      && c' == if r == 0 then s.client else Gain(s.client, r - 16, bytes)
  {
  }

  lemma ResizedStepIs(s: Moment, block: int, bytes: U64, r: int, c': Client)
    ensures ResizedStep(s, block, bytes, r, c') <==>
      && (block !in s.client.live ==> r == 0)
      && (block in s.client.live && bytes < 0xFFFF_FFFF_FFFF_FF80 ==>
            if StaysPut(s.heap.L, block, ChunkRequest(bytes)) then r == block + 16
            else r != block + 16 && Allocated(s, r, ChunkRequest(bytes)))
      && (bytes >= 0xFFFF_FFFF_FFFF_FF80 ==> r == 0)
      && c' == if r == 0 then s.client else Move(s.client, block, r - 16, bytes)
  {
  }

  /** A live block's user part is aligned and not null. */
  lemma BlockAddress(m: MallocState, p: int)
    requires m.Valid() && p in Blocks(m.L)
    ensures p > 0 && p % 16 == 0 && p in m.L
  {
    hide *;
    BlocksIs(m.L);
    NonNull(m, p);
    ValidIs(m);
    NowIs(m);
    ConsistentIs(m, {m.dv});
    ChunkFacts(m.Now(), {m.dv}, p);
  }

  /** One call by the client. */
  method Step(m: MallocState, c: Client, op: Op) returns (c': Client, r: int)
    requires Agrees(m, c)
    modifies m
    ensures Agrees(m, c') && Stepped(old(MomentOf(m, c)), op, r, MomentOf(m, c'))
  {
    hide *;
    ghost var s := MomentOf(m, c);
    AgreesIs(m, c);
    match op {
      case MallocOp(bytes) => c', r := StepMalloc(m, c, bytes);
      case CallocOp(n, size) => c', r := StepCalloc(m, c, n, size);
      case MemalignOp(alignment, bytes) => c', r := StepMemalign(m, c, alignment, bytes);
      case ReallocOp(block, bytes) => c', r := StepRealloc(m, c, block, bytes);
      case FreeOp(block) =>
        c', r := c, 0;
        if block in c.live { c' := StepFree(m, c, block); }
      case BulkFreeOp(blocks) =>
        c', r := c, 0;
        CallableIs(c, blocks);
        if (forall i :: 0 <= i < |blocks| ==> blocks[i] in c.live)
          && (forall i, j :: 0 <= i < j < |blocks| ==> blocks[i] != blocks[j])
        {
          c' := StepBulkFree(m, c, blocks);
        }
      case StoreOp(block, off, v) =>
        c', r := c, 0;
        CanStoreIs(c, block, off);
        if block in c.live && off % 8 == 0 && off < c.live[block] { c' := StepStore(m, c, block, off, v); }
      case IallocOp(n, sizes, same, clear, own) => c', r := StepIalloc(m, c, n, sizes, same, clear, own);
    }
    AgreesIs(m, c');
    SteppedIs(s, op, r, MomentOf(m, c'));
  }

  lemma CallableIs(c: Client, blocks: seq<int>)
    ensures Callable(c, blocks) <==>
      && (forall i :: 0 <= i < |blocks| ==> blocks[i] in c.live)
      && (forall i, j :: 0 <= i < j < |blocks| ==> blocks[i] != blocks[j])
  {
  }

  lemma CanStoreIs(c: Client, block: int, off: nat)
    ensures CanStore(c, block, off) <==> block in c.live && off % 8 == 0 && off < c.live[block]
  {
  }

  method StepMalloc(m: MallocState, c: Client, bytes: U64) returns (c': Client, mem: int)
    requires Agrees(m, c)
    modifies m
    ensures Agrees(m, c') && Allocated(old(MomentOf(m, c)), mem, ChunkRequest(bytes))
    ensures c' == if mem == 0 then c else Gain(c, mem - 16, bytes)
  {
    hide *;
    AgreesIs(m, c);
    ghost var s, L0, m0 := MomentOf(m, c), m.L, m.mem;
    mem := Malloc(m, bytes);
    AllocatedIs(s, mem, ChunkRequest(bytes));
    if mem == 0 {
      ServedSameLive(L0, m.L, mem, ChunkRequest(bytes));
      Unmoved(m, Blocks(L0), m0, c);
      c' := c;
    } else {
      ServedRoom(m, L0, mem, bytes);
      BlockAddress(m, mem - 16);
      HoldsAt(Blocks(L0), c.live, mem - 16);
      Gained(m, Blocks(L0), m0, c, mem - 16, bytes);
      c' := Gain(c, mem - 16, bytes);
    }
  }

  method StepCalloc(m: MallocState, c: Client, n: U64, size: U64) returns (c': Client, mem: int)
    requires Agrees(m, c)
    modifies m
    ensures Agrees(m, c') && ClearedStep(old(MomentOf(m, c)), n, size, mem, c')
  {
    hide *;
    AgreesIs(m, c);
    ghost var s, L0, m0 := MomentOf(m, c), m.L, m.mem;
    mem := CallocMem(m, n, size);
    AllocatedIs(s, mem, ChunkRequest(CallocRequest(n, size)));
    if mem == 0 {
      Unmoved(m, Blocks(L0), m0, c);
      c' := c;
    } else {
      ServedRoom(m, L0, mem, CallocRequest(n, size));
      BlockAddress(m, mem - 16);
      HoldsAt(Blocks(L0), c.live, mem - 16);
      GainedZero(m, Blocks(L0), m0, c, mem - 16, CallocRequest(n, size));
      c' := GainZero(c, mem - 16, CallocRequest(n, size));
    }
    ProductIs(n, size);
    ClearedStepIs(s, n, size, mem, c');
  }

  method StepMemalign(m: MallocState, c: Client, alignment: U64, bytes: U64) returns (c': Client, mem: int)
    requires Agrees(m, c)
    modifies m
    ensures Agrees(m, c') && AlignedStep(old(MomentOf(m, c)), alignment, bytes, mem, c')
  {
    hide *;
    AgreesIs(m, c);
    ghost var s, L0, m0 := MomentOf(m, c), m.L, m.mem;
    c', mem := c, 0;
    if alignment <= 0x8000_0000_0000_0000 {
      mem := MemalignMem(m, alignment, bytes);
      if bytes < 0xFFFF_FFFF_FFFF_FF80 - Rounded(alignment) {
        PaddedRequest(bytes, alignment);
        DeniedAlignedIs(L0, s.side, alignment, bytes);
        AllocatedIs(s, mem, ChunkRequest(Request2Size(bytes) + Rounded(alignment) + 24));
      }
      if mem == 0 {
        Unmoved(m, Blocks(L0), m0, c);
      } else {
        Fits(bytes);
        ghost var size := m.L[mem - 16].size;
        assert mem - 16 in Blocks(m.L) && Blocks(m.L)[mem - 16] == size;
        BlockAddress(m, mem - 16);
        HoldsAt(Blocks(L0), c.live, mem - 16);
        Gained(m, Blocks(L0), m0, c, mem - 16, bytes);
        c' := Gain(c, mem - 16, bytes);
      }
    }
    AlignedStepIs(s, alignment, bytes, mem, c');
  }

  lemma PaddedRequest(bytes: U64, alignment: U64)
    requires alignment <= 0x8000_0000_0000_0000 && bytes < 0xFFFF_FFFF_FFFF_FF80 - Rounded(alignment)
    ensures 0 <= Request2Size(bytes) + Rounded(alignment) + 24 < 0x1_0000_0000_0000_0000
  {
    hide *;
    AtMostHalf(alignment);
    Padding(bytes, Rounded(alignment));
  }

  lemma AtMostHalf(alignment: U64)
    requires alignment <= 0x8000_0000_0000_0000
    ensures 32 <= Rounded(alignment) <= 0x8000_0000_0000_0000
  {
    hide *;
    Pow2Values();
    RoundedIsLeast(alignment, 63);
  }

  lemma Fits(bytes: U64)
    ensures Request2Size(bytes) >= bytes + 8
  {
    Request2SizeFits(bytes);
  }

  method StepRealloc(m: MallocState, c: Client, block: int, bytes: U64) returns (c': Client, mem: int)
    requires Agrees(m, c)
    modifies m
    ensures Agrees(m, c') && ResizedStep(old(MomentOf(m, c)), block, bytes, mem, c')
  {
    hide *;
    AgreesIs(m, c);
    ghost var s, L0, m0 := MomentOf(m, c), m.L, m.mem;
    c', mem := c, 0;
    if block in c.live {
      HoldsAt(Blocks(m.L), c.live, block);
      BlockAddress(m, block);
      AllocatedIs(s, 0, ChunkRequest(bytes));
      mem := ReallocMem(m, block + 16, bytes);
      if mem == 0 {
        Unmoved(m, Blocks(L0), m0, c);
      } else {
        Fits(bytes);
        var q := mem - 16;
        ReallocatedIs(L0, m.L, m0, m.mem, block, q, bytes);
        ghost var size := m.L[q].size;
        assert q in Blocks(m.L) && Blocks(m.L)[q] == size;
        BlockAddress(m, q);
        HoldsAt(Blocks(L0), c.live, q);
        AllocatedIs(s, mem, ChunkRequest(bytes));
        Moved(m, Blocks(L0), m0, c, block, q, bytes);
        c' := Move(c, block, q, bytes);
      }
    }
    ResizedStepIs(s, block, bytes, mem, c');
  }

  method StepIalloc(m: MallocState, c: Client, n: nat, sizes: seq<U64>, same: bool, clear: bool, own: bool)
      returns (c': Client, r: int)
    requires Agrees(m, c)
    modifies m
    ensures Agrees(m, c') && AggregateStep(old(MomentOf(m, c)), n, sizes, same, clear, own, r, c')
  {
    hide *;
    AgreesIs(m, c);
    ghost var s, L0, m0 := MomentOf(m, c), m.L, m.mem;
    c', r := c, 0;
    CanCutIs(n, sizes, same, own);
    if CanCut(n, sizes, same, own) {
      var ok, marray, elems;
      ghost var total;
      ok, marray, elems, total := IallocMem(m, n, sizes, same, clear, own);
      if !ok || (n == 0 && !own) {
        Unmoved(m, Blocks(L0), m0, c);
      } else if n == 0 {
        SmallestRequest();
        ServedRoom(m, L0, marray, 0);
        BlockAddress(m, marray - 16);
        HoldsAt(Blocks(L0), c.live, marray - 16);
        Gained(m, Blocks(L0), m0, c, marray - 16, 0);
        c', r := Gain(c, marray - 16, 0), marray;
      } else {
        ElementsFit(n, sizes, same);
        CutGained(m, Blocks(L0), m0, c, elems, ElementSizes(n, sizes, same), ElementBytes(n, sizes, same), own, marray,
                  total, clear);
        FirstIsBlock(m, Blocks(L0), elems, ElementSizes(n, sizes, same), own, marray, total);
        BlockAddress(m, elems[0] - 16);
        c', r := GainCut(c, elems[0], ElementBytes(n, sizes, same), ElementSizes(n, sizes, same), clear, own), elems[0];
      }
    }
    AggregateStepIs(s, n, sizes, same, clear, own, r, c');
  }

  lemma CanCutIs(n: nat, sizes: seq<U64>, same: bool, own: bool)
    ensures CanCut(n, sizes, same, own) <==>
      && (if same then |sizes| >= 1 else |sizes| >= n)
      && Sum(ElementSizes(n, sizes, same)) + ArraySize(n, own) < 0x1_0000_0000_0000_0000
  {
  }

  lemma ElementsFit(n: nat, sizes: seq<U64>, same: bool)
    requires if same then |sizes| >= 1 else |sizes| >= n
    ensures var xs, bs := ElementSizes(n, sizes, same), ElementBytes(n, sizes, same);
            |xs| == |bs| == n && forall i :: 0 <= i < n ==> xs[i] >= 32 && xs[i] % 16 == 0 && bs[i] + 8 <= xs[i]
  {
    hide Request2Size;
    ElementsAre(n, sizes, same);
    forall i | 0 <= i < n ensures ElementBytes(n, sizes, same)[i] + 8 <= ElementSizes(n, sizes, same)[i] {
      Fits(ElementBytes(n, sizes, same)[i]);
    }
  }

  /** The first element is a block of its own. */
  lemma FirstIsBlock(m: MallocState, B: map<int, int>, elems: seq<int>, xs: seq<int>, own: bool, marray: int,
                     total: int)
    requires xs != [] && |elems| == |xs| && Cut(B, Blocks(m.L), elems, xs, own, marray, total)
    requires forall i :: 0 <= i < |xs| ==> xs[i] >= 32 && xs[i] % 16 == 0
    ensures elems[0] - 16 in Blocks(m.L)
  {
    hide *;
    var p, rem := elems[0] - 16, if own then Sum(xs) else total;
    CutIs(B, Blocks(m.L), elems, xs, own, marray, total, p, rem);
    FirstAdded(if own then B[p + Sum(xs) := total - Sum(xs)] else B, p, Actual(xs, rem));
    TakeActual(xs, rem, 0);
  }

  lemma {:induction false} FirstAdded(B: map<int, int>, p: int, ys: seq<int>)
    ensures ys != [] ==> p in AddBlocks(B, p, ys)
  {
    if |ys| > 1 {
      FirstAdded(B, p, ys[..|ys| - 1]);
    } else if |ys| == 1 {
      assert ys[..0] == [];
    }
  }

  lemma AggregateStepIs(s: Moment, n: nat, sizes: seq<U64>, same: bool, clear: bool, own: bool, r: int, c': Client)
    ensures AggregateStep(s, n, sizes, same, clear, own, r, c') <==>
      var c := s.client;
      if !CanCut(n, sizes, same, own) || (n == 0 && !own) then r == 0 && c' == c
      else if Denied(s.heap.L, s.side, ChunkRequest(Needed(n, sizes, same, own))) then r == 0 && c' == c
      else if n == 0 then r != 0 && r % 16 == 0 && r - 16 !in c.live && c' == Gain(c, r - 16, 0)
      else
        var xs := ElementSizes(n, sizes, same);
        && r != 0 && r % 16 == 0 && (forall x :: x in c.live ==>
                                                 x < r - 16 || x >= r - 16 + Sum(xs) + ArraySize(n, own))
        && c' == GainCut(c, r, ElementBytes(n, sizes, same), xs, clear, own)
  {
  }

  method StepFree(m: MallocState, c: Client, block: int) returns (c': Client)
    requires Agrees(m, c) && block in c.live
    modifies m
    ensures Agrees(m, c') && c' == Lose(c, block)
  {
    hide *;
    AgreesIs(m, c);
    HoldsAt(Blocks(m.L), c.live, block);
    BlockAddress(m, block);
    ghost var L0, m0 := m.L, m.mem;
    FreeMem(m, block + 16);
    Lost(m, Blocks(L0), m0, c, block);
    c' := Lose(c, block);
  }

  /** Many blocks given up. */
  function LoseAll(c: Client, gone: seq<int>): Client {
    Client(map p | p in c.live && p !in gone :: c.live[p], map p | p in c.words && p !in gone :: c.words[p])
  }

  lemma LoseAllIs(B: map<int, int>, B': map<int, int>, m: Mem, c: Client, gone: seq<int>)
    requires Holds(B, c.live) && Reads(m, c) && (forall p :: p in B' <==> p in B && p !in gone)
      && (forall p :: p in B' ==> B'[p] == B[p])
    ensures Holds(B', LoseAll(c, gone).live) && Reads(m, LoseAll(c, gone))
  {
    hide BlockReads;
  }

  lemma Named(s: seq<int>, blocks: seq<int>)
    requires |s| == |blocks| && forall i :: 0 <= i < |s| ==> s[i] == blocks[i] + 16
    ensures forall x :: x in blocks <==> x + 16 in s
  {
    forall x | x in blocks ensures x + 16 in s {
      var i :| 0 <= i < |blocks| && blocks[i] == x;
      assert s[i] == x + 16;
    }
  }

  lemma WithoutIs(B: map<int, int>, s: seq<int>, blocks: seq<int>)
    requires forall x :: x in blocks <==> x + 16 in s
    ensures forall p :: p in BulkFree.Without(B, s) <==> p in B && p !in blocks
    ensures forall p :: p in BulkFree.Without(B, s) ==> BulkFree.Without(B, s)[p] == B[p]
  {
  }

  lemma Unrepeated(s: seq<int>)
    requires forall i, j :: 0 <= i < j < |s| ==> s[i] != s[j]
    ensures BulkFree.NoRepeats(s)
  {
  }

  lemma AllBlocks(B: map<int, int>, live: map<int, nat>, s: seq<int>, blocks: seq<int>)
    requires Holds(B, live) && |s| == |blocks| && (forall i :: 0 <= i < |s| ==> s[i] == blocks[i] + 16)
    requires forall i :: 0 <= i < |blocks| ==> blocks[i] in live
    ensures forall x :: x in s && x != 0 ==> x - 16 in B
  {
    forall x | x in s ensures x - 16 in B {
      var i :| 0 <= i < |s| && s[i] == x;
      assert blocks[i] in live;
    }
  }

  method StepBulkFree(m: MallocState, c: Client, blocks: seq<int>) returns (c': Client)
    requires Agrees(m, c) && (forall i :: 0 <= i < |blocks| ==> blocks[i] in c.live)
    requires forall i, j :: 0 <= i < j < |blocks| ==> blocks[i] != blocks[j]
    modifies m
    ensures Agrees(m, c') && c' == LoseAll(c, blocks)
  {
    hide *;
    AgreesIs(m, c);
    var a := new int[|blocks|](i requires 0 <= i < |blocks| => blocks[i] + 16);
    ghost var s := a[..];
    Unrepeated(s);
    AllBlocks(Blocks(m.L), c.live, s, blocks);
    Named(s, blocks);
    ghost var L0, m0 := m.L, m.mem;
    var unfreed := BulkFree.BulkFreeMem(m, a);
    WithoutIs(Blocks(L0), s, blocks);
    c' := LoseAll(c, blocks);
    LoseAllIs(Blocks(L0), Blocks(m.L), m0, c, blocks);
    RoomOf(Blocks(m.L), c', m0);
    ReadsStill(m0, m.mem, Blocks(m.L), c');
    AgreesIs(m, c');
  }

  method StepStore(m: MallocState, c: Client, block: int, off: nat, v: int) returns (c': Client)
    requires Agrees(m, c) && block in c.live && off < c.live[block]
    modifies m
    ensures Agrees(m, c') && c' == Wrote(c, block, off, v)
  {
    hide *;
    AgreesIs(m, c);
    HoldsAt(Blocks(m.L), c.live, block);
    SlotIs(block, off);
    ghost var L0, m0 := m.L, m.mem;
    Store(m, block, Slot(block, off), v);
    LoseHolds(Blocks(L0), m0, c, block);
    RoomOf(Blocks(L0) - {block}, Lose(c, block), m0);
    ReadsStill(m0, m.mem, Blocks(L0) - {block}, Lose(c, block));
    WroteReads(m0, c, block, off, v, m.mem);
    c' := Wrote(c, block, off, v);
    WroteIs(c, block, off, v);
    AgreesIs(m, c');
  }

  lemma SlotIs(block: int, off: int)
    ensures Slot(block, off) == block + 16 + off
  {
  }

  lemma WroteIs(c: Client, p: int, off: nat, v: int)
    ensures Wrote(c, p, off, v).live == c.live
    ensures p in Wrote(c, p, off, v).words && off in Wrote(c, p, off, v).words[p]
      && Wrote(c, p, off, v).words[p][off] == v
  {
  }

  // ---- runs ----

  /**
   * The moments of a run of calls with these results, from an empty heap: the client is right at each, and each call is
   * as it should be.
   */
  ghost predicate IsRun(ops: seq<Op>, results: seq<int>, trace: seq<Moment>) {
    && |results| == |ops| && |trace| == |ops| + 1
    && trace[0].heap.L == map[] && trace[0].client == Client(map[], map[])
    && (forall i :: 0 <= i < |trace| ==> Coherent(trace[i]) && trace[i].side.system == trace[0].side.system)
    && (forall i :: 0 <= i < |ops| ==> Stepped(trace[i], ops[i], results[i], trace[i + 1]))
  }

  /** Where a block is after a call: realloc may move it. */
  function NextHome(op: Op, r: int, block: int): int {
    match op
    case ReallocOp(b, _) => if b == block && r != 0 then r - 16 else block
    case _ => block
  }

  /** Where the block that call i names is after n calls, through every realloc of it. */
  function Home(ops: seq<Op>, results: seq<int>, i: int, n: int, block: int): int
    requires |results| == |ops| && 0 <= i < n <= |ops|
    decreases n
  {
    if n == i + 1 then block else NextHome(ops[n - 1], results[n - 1], Home(ops, results, i, n - 1, block))
  }

  /**
   * The call may change the word at this offset of the block, or lose it: by another store there, by freeing the block,
   * or by resizing it so that the word does not lie within both sizes.
   */
  predicate Disturbs(c: Client, op: Op, r: int, block: int, off: nat) {
    match op
    case StoreOp(b, o, v) => b == block && o == off
    case FreeOp(b) => b == block
    case BulkFreeOp(bs) => block in bs
    case ReallocOp(b, bytes) => b == block && r != 0 && !(off + 8 <= bytes && block in c.live
                                                          && off + 8 <= c.live[block])
    case _ => false
  }

  /** Call i stores v there, and no call after it, up to call n, disturbs it wherever the block is by then. */
  predicate LastStore(ops: seq<Op>, results: seq<int>, trace: seq<Moment>, i: int, n: int, block: int, off: nat, v: int)
    requires |trace| == |ops| + 1 && |results| == |ops|
  {
    && 0 <= i < n <= |ops| && ops[i] == StoreOp(block, off, v) && CanStore(trace[i].client, block, off)
    && forall j :: i < j < n ==> !Disturbs(trace[j].client, ops[j], results[j], Home(ops, results, i, j, block), off)
  }

  /** The client holds the block and knows this word of it. */
  predicate Knows(c: Client, block: int, off: nat, v: int) {
    block in c.live && block in c.words && off in c.words[block] && c.words[block][off] == v
  }

  lemma KnowsIs(c: Client, block: int, off: nat, v: int)
    ensures Knows(c, block, off, v) <==>
      block in c.live && block in c.words && off in c.words[block] && c.words[block][off] == v
  {
  }

  lemma StillKnows(s: Moment, op: Op, r: int, s': Moment, block: int, off: nat, v: int)
    requires Stepped(s, op, r, s') && Knows(s.client, block, off, v) && !Disturbs(s.client, op, r, block, off)
    requires off % 8 == 0
    ensures Knows(s'.client, NextHome(op, r, block), off, v)
  {
    hide Denied, StaysPut, Rounded, Zeros, AggregateStep;
    if op.IallocOp? { KnowsAfterCut(s, op, r, s', block, off, v); }
  }

  lemma KnowsAfterCut(s: Moment, op: Op, r: int, s': Moment, block: int, off: nat, v: int)
    requires op.IallocOp? && Stepped(s, op, r, s') && Knows(s.client, block, off, v)
    ensures Knows(s'.client, block, off, v)
  {
    hide *;
    SteppedIs(s, op, r, s');
    var n, sizes, same, clear, own := op.count, op.sizes, op.same, op.clear, op.own;
    AggregateStepIs(s, n, sizes, same, clear, own, r, s'.client);
    KnowsIs(s.client, block, off, v);
    KnowsIs(s'.client, block, off, v);
    if CanCut(n, sizes, same, own) && r != 0 {
      CanCutIs(n, sizes, same, own);
      if n == 0 {
        GainsAlike(s.client, r - 16, 0);
      } else {
        ElementsFit(n, sizes, same);
        ArrayFits(n, own);
        CutKeeps(s.client, r, ElementBytes(n, sizes, same), ElementSizes(n, sizes, same), clear, own, block);
      }
    }
  }

  lemma {:induction false} KnowsFrom(ops: seq<Op>, results: seq<int>, trace: seq<Moment>, i: int, n: int, block: int,
                                     off: nat, v: int)
    requires IsRun(ops, results, trace) && LastStore(ops, results, trace, i, n, block, off, v)
    ensures Knows(trace[n].client, Home(ops, results, i, n, block), off, v)
    decreases n
  {
    hide Stepped, Coherent, Knows, CanStore, Disturbs, NextHome;
    CanStoreIs(trace[i].client, block, off);
    if n == i + 1 {
      SteppedIs(trace[i], ops[i], results[i], trace[n]);
      WroteIs(trace[i].client, block, off, v);
      KnowsIs(trace[n].client, block, off, v);
    } else {
      KnowsFrom(ops, results, trace, i, n - 1, block, off, v);
      assert Stepped(trace[n - 1], ops[n - 1], results[n - 1], trace[n - 1 + 1]);
      StillKnows(trace[n - 1], ops[n - 1], results[n - 1], trace[n], Home(ops, results, i, n - 1, block), off, v);
    }
  }

  lemma KnownReads(s: Moment, block: int, off: nat, v: int)
    requires Coherent(s) && Knows(s.client, block, off, v)
    ensures Rd(s.heap.mem, Slot(block, off)) == v
  {
    hide Inv, Holds;
    assert BlockReads(s.heap.mem, block, s.client.live[block], s.client.words[block]);
  }

  /**
   * The last word stored in a slot is what memory holds at that offset of the block, wherever reallocs have taken it.
   */
  lemma LastStoreReads(ops: seq<Op>, results: seq<int>, trace: seq<Moment>, i: int, n: int, block: int, off: nat,
                       v: int)
    requires IsRun(ops, results, trace) && LastStore(ops, results, trace, i, n, block, off, v)
    ensures var home := Home(ops, results, i, n, block);
            home in trace[n].client.live && Rd(trace[n].heap.mem, Slot(home, off)) == v
  {
    hide Stepped, Disturbs, Inv, Holds;
    KnowsFrom(ops, results, trace, i, n, block, off, v);
    KnownReads(trace[n], Home(ops, results, i, n, block), off, v);
  }

  /** Every whole word of a block from calloc is known to be zero, and is zero in memory. */
  lemma ClearedReadsZero(s: Moment, n: U64, size: U64, r: int, s': Moment, off: nat)
    requires Coherent(s') && Stepped(s, CallocOp(n, size), r, s') && r != 0 && off % 8 == 0 && off + 8 <= n * size
    ensures Knows(s'.client, r - 16, off, 0) && Rd(s'.heap.mem, Slot(r - 16, off)) == 0
  {
    hide *;
    SteppedIs(s, CallocOp(n, size), r, s');
    ClearedStepIs(s, n, size, r, s'.client);
    ProductIs(n, size);
    ZeroesKnown(s.client, r - 16, CallocRequest(n, size), off);
    KnownReads(s', r - 16, off, 0);
  }

  /**
   * After ialloc every element is held, its whole words are known to be zero if it was cleared, and its address is
   * known to be in the array, if that is part of the chunk.
   */
  lemma AggregateKnown(s: Moment, n: nat, sizes: seq<U64>, same: bool, clear: bool, own: bool, r: int, s': Moment,
                       k: nat)
    requires Stepped(s, IallocOp(n, sizes, same, clear, own), r, s') && CanCut(n, sizes, same, own) && r != 0 && k < n
    ensures var xs := ElementSizes(n, sizes, same);
            var q := r - 16 + Sum(xs[..k]);
            && q in s'.client.live
            && (own ==> Knows(s'.client, r - 16 + Sum(xs), 8 * k, q + 16))
            && (clear ==> forall off: nat :: off % 8 == 0 && off + 8 <= ElementBytes(n, sizes, same)[k] ==>
                            Knows(s'.client, q, off, 0))
  {
    hide *;
    CanCutIs(n, sizes, same, own);
    var xs, bs, c, d := ElementSizes(n, sizes, same), ElementBytes(n, sizes, same), s.client, s'.client;
    ElementsFit(n, sizes, same);
    SteppedIs(s, IallocOp(n, sizes, same, clear, own), r, s');
    AggregateStepIs(s, n, sizes, same, clear, own, r, d);
    GainCutIs(c, r, bs, xs, clear, own);
    ElementKnown(if own then GainArray(c, r - 16 + Sum(xs), r, xs) else c, r - 16, bs, xs, n, clear, k);
    var q := r - 16 + Sum(xs[..k]);
    if own {
      ArrayKnown(c, r, bs, xs, clear, k);
      KnowsIs(d, r - 16 + Sum(xs), 8 * k, q + 16);
    }
    if clear { ZeroWords(d, q, bs[k]); }
  }

  lemma ZeroWords(c: Client, q: int, bytes: nat)
    requires q in c.live && q in c.words && c.words[q] == Zeros(bytes)
    ensures forall off: nat :: off % 8 == 0 && off + 8 <= bytes ==> Knows(c, q, off, 0)
  {
  }

  lemma ZeroesKnown(c: Client, p: int, bytes: nat, off: nat)
    requires off % 8 == 0 && off + 8 <= bytes
    ensures Knows(GainZero(c, p, bytes), p, off, 0)
  {
  }

  /** A word that is known of a block survives its resizing when it lies within the old and the new size. */
  lemma StoredWordMoves(s: Moment, block: int, bytes: U64, r: int, s': Moment, off: nat, v: int)
    requires Coherent(s') && Stepped(s, ReallocOp(block, bytes), r, s') && Knows(s.client, block, off, v) && r != 0
    requires off % 8 == 0 && off + 8 <= s.client.live[block] && off + 8 <= bytes
    ensures Knows(s'.client, r - 16, off, v) && Rd(s'.heap.mem, Slot(r - 16, off)) == v
  {
    hide *;
    KnowsIs(s.client, block, off, v);
    NextHomeIs(block, bytes, r, s.client, off);
    StillKnows(s, ReallocOp(block, bytes), r, s', block, off, v);
    KnownReads(s', r - 16, off, v);
  }

  lemma NextHomeIs(block: int, bytes: U64, r: int, c: Client, off: nat)
    requires r != 0 && block in c.live && off + 8 <= c.live[block] && off + 8 <= bytes
    ensures NextHome(ReallocOp(block, bytes), r, block) == r - 16
      && !Disturbs(c, ReallocOp(block, bytes), r, block, off)
  {
  }

  /**
   * Any sequence of calls, on a heap that grows and shrinks with whatever the system grants: the heap stays valid, each
   * call does what it should, and every word reads back as it was last stored.
   */
  method RunAll(ops: seq<Op>, limit: U64, system: System) returns (m: MallocState, c: Client, results: seq<int>,
                                                   ghost trace: seq<Moment>)
    ensures fresh(m) && Agrees(m, c)
    ensures IsRun(ops, results, trace) && trace[|ops|] == MomentOf(m, c)
    ensures trace[0].side == Outside(system, [], [], 0, 0, limit, false)
    ensures forall i, block, off: nat, v :: LastStore(ops, results, trace, i, |ops|, block, off, v) ==>
                                            Rd(m.mem, Slot(Home(ops, results, i, |ops|, block), off)) == v
  {
    hide *;
    m := NewState(limit, system);
    c := Client(map[], map[]);
    Nobody(m.mem);
    AgreesIs(m, c);
    results, trace := [], [MomentOf(m, c)];
    IsRunStart(trace);
    var i := 0;
    assert ops[..0] == [];
    while i < |ops|
      invariant 0 <= i <= |ops| && fresh(m) && Agrees(m, c)
      invariant IsRun(ops[..i], results, trace) && |trace| == i + 1 && trace[i] == MomentOf(m, c)
      invariant m.system == system && trace[0].side == Outside(system, [], [], 0, 0, limit, false)
    {
      var r;
      c, r := Step(m, c, ops[i]);
      AgreesIs(m, c);
      SideIs(m);
      IsRunMore(ops[..i], results, trace, ops[i], r, MomentOf(m, c));
      assert ops[..i + 1] == ops[..i] + [ops[i]];
      results, trace := results + [r], trace + [MomentOf(m, c)];
      i := i + 1;
    }
    assert ops[..|ops|] == ops;
    AgreesIs(m, c);
    IsRunSizes(ops, results, trace);
    forall i, block, off: nat, v | LastStore(ops, results, trace, i, |ops|, block, off, v)
      ensures 0 <= i < |ops| && Rd(m.mem, Slot(Home(ops, results, i, |ops|, block), off)) == v
    {
      LastStoreIs(ops, results, trace, i, |ops|, block, off, v);
      LastStoreReads(ops, results, trace, i, |ops|, block, off, v);
    }
  }

  lemma IsRunSizes(ops: seq<Op>, results: seq<int>, trace: seq<Moment>)
    requires IsRun(ops, results, trace)
    ensures |results| == |ops| && |trace| == |ops| + 1
  {
  }

  lemma LastStoreIs(ops: seq<Op>, results: seq<int>, trace: seq<Moment>, i: int, n: int, block: int, off: nat, v: int)
    requires |trace| == |ops| + 1 && |results| == |ops|
    ensures LastStore(ops, results, trace, i, n, block, off, v) ==> 0 <= i < n <= |ops|
  {
  }

  lemma IsRunStart(trace: seq<Moment>)
    requires |trace| == 1 && trace[0].heap.L == map[] && trace[0].client == Client(map[], map[]) && Coherent(trace[0])
    ensures IsRun([], [], trace)
  {
  }

  lemma IsRunMore(ops: seq<Op>, results: seq<int>, trace: seq<Moment>, op: Op, r: int, s: Moment)
    requires IsRun(ops, results, trace) && Stepped(trace[|ops|], op, r, s) && Coherent(s)
    requires s.side.system == trace[0].side.system
    ensures IsRun(ops + [op], results + [r], trace + [s])
  {
    hide Stepped, Coherent;
  }

  lemma Nobody(m: Mem)
    ensures Holds(map[], map[]) && Reads(m, Client(map[], map[]))
  {
  }
}
