/**
 * A client of the allocator: the calls it may make, the blocks it holds and the words it knows of them, and how each
 * call changes what it knows.
 */
module Clients {
  import opened Words
  import opened Memory
  import opened Layouts
  import opened State
  import opened Payload
  import opened Realloc
  import opened Ialloc

  /**
   * What a client knows, by the chunk address of each block it holds: the bytes it asked for, and the words it stored,
   * by their offset in the block.
   */
  datatype Client = Client(live: map<int, nat>, words: map<int, map<int, int>>)

  datatype Op =
    | MallocOp(bytes: U64)
    | CallocOp(n: U64, size: U64)
    | MemalignOp(alignment: U64, bytes: U64)
    | ReallocOp(block: int, bytes: U64)
    | FreeOp(block: int)
    | BulkFreeOp(blocks: seq<int>)
    | StoreOp(block: int, off: nat, v: int)
    | IallocOp(count: nat, sizes: seq<U64>, same: bool, clear: bool, own: bool)

  function Slot(block: int, off: int): int {
    block + 16 + off
  }

  /** The client holds exactly the blocks B, with room for what it asked. */
  ghost predicate Holds(B: map<int, int>, live: map<int, nat>) {
    && (forall p :: p in live <==> p in B)
    && (forall p :: p in live ==> live[p] + 8 <= B[p])
  }

  ghost predicate BlockReads(m: Mem, p: int, size: nat, ws: map<int, int>) {
    forall o :: o in ws ==> 0 <= o < size && Rd(m, Slot(p, o)) == ws[o]
  }

  /** The words it stored read back. */
  ghost predicate Reads(m: Mem, c: Client) {
    forall p :: p in c.words ==> p in c.live && BlockReads(m, p, c.live[p], c.words[p])
  }

  /** A moment of a run: the heap with its designated victim, the system's side, and what the client knows. */
  datatype Moment = Moment(heap: Snap, dv: int, side: Outside, client: Client)

  ghost function MomentOf(m: MallocState, c: Client): Moment
    reads m
  {
    Moment(m.Now(), m.dv, m.Side(), c)
  }

  /** The heap keeps its invariant, and the client is right about it. */
  ghost predicate Coherent(s: Moment) {
    Inv(s.heap, {s.dv}) && Holds(Blocks(s.heap.L), s.client.live) && Reads(s.heap.mem, s.client)
  }

  ghost predicate Agrees(m: MallocState, c: Client)
    reads m
  {
    m.Valid() && Coherent(MomentOf(m, c))
  }

  lemma AgreesIs(m: MallocState, c: Client)
    ensures Agrees(m, c) <==> m.Valid() && Holds(Blocks(m.L), c.live) && Reads(m.mem, c)
    ensures Agrees(m, c) ==> Coherent(MomentOf(m, c))
    ensures MomentOf(m, c).client == c && MomentOf(m, c).heap.L == m.L && MomentOf(m, c).heap.mem == m.mem
    ensures MomentOf(m, c).heap.topsize == m.topsize && MomentOf(m, c).side == m.Side()
  {
    hide Inv, Holds, Reads, DvOK, TotalSize;
  }

  lemma BlockReadsStill(m0: Mem, m1: Mem, B: map<int, int>, p: int, size: nat, ws: map<int, int>)
    requires PayloadKept(m0, m1, B) && p in B && size + 8 <= B[p] && BlockReads(m0, p, size, ws)
    ensures BlockReads(m1, p, size, ws)
  {
    forall o | o in ws ensures 0 <= o < size && Rd(m1, Slot(p, o)) == ws[o] {
      assert p + 16 <= Slot(p, o) < p + B[p] + 8;
    }
  }

  /** Words of blocks that keep their payload still read the same. */
  lemma ReadsStill(m0: Mem, m1: Mem, B: map<int, int>, c: Client)
    requires PayloadKept(m0, m1, B) && Reads(m0, c)
    requires forall p :: p in c.words ==> p in c.live && p in B && c.live[p] + 8 <= B[p]
    ensures Reads(m1, c)
  {
    hide PayloadKept, BlockReads;
    forall p | p in c.words ensures p in c.live && BlockReads(m1, p, c.live[p], c.words[p]) {
      BlockReadsStill(m0, m1, B, p, c.live[p], c.words[p]);
    }
  }

  lemma RoomOf(B: map<int, int>, c: Client, m: Mem)
    requires Holds(B, c.live) && Reads(m, c)
    ensures forall p :: p in c.words ==> p in c.live && p in B && c.live[p] + 8 <= B[p]
  {
  }

  /** A new block, of which nothing is known. */
  function Gain(c: Client, p: int, bytes: nat): Client {
    Client(c.live[p := bytes], c.words - {p})
  }

  /** A new block, of which every whole word is known to be zero. */
  function GainZero(c: Client, p: int, bytes: nat): Client {
    Client(c.live[p := bytes], c.words[p := Zeros(bytes)])
  }

  function Zeros(bytes: nat): map<int, int> {
    map o | 0 <= o < bytes && o % 8 == 0 && o + 8 <= bytes :: 0
  }

  lemma GainHolds(B: map<int, int>, B': map<int, int>, c: Client, p: int, bytes: nat)
    requires Holds(B, c.live) && p in B' && bytes + 8 <= B'[p] && B' == B[p := B'[p]]
    ensures Holds(B', Gain(c, p, bytes).live)
  {
  }

  lemma GainReads(m: Mem, c: Client, p: int, bytes: nat)
    requires Reads(m, c)
    ensures Reads(m, Gain(c, p, bytes))
  {
    hide BlockReads;
  }

  lemma Gained(m: MallocState, B0: map<int, int>, m0: Mem, c: Client, p: int, bytes: nat)
    requires m.Valid() && PayloadKept(m0, m.mem, B0) && p !in B0 && p in Blocks(m.L)
    requires Blocks(m.L) == B0[p := Blocks(m.L)[p]] && bytes + 8 <= Blocks(m.L)[p]
    requires Holds(B0, c.live) && Reads(m0, c)
    ensures Agrees(m, Gain(c, p, bytes))
  {
    hide *;
    RoomOf(B0, c, m0);
    ReadsStill(m0, m.mem, B0, c);
    GainHolds(B0, Blocks(m.L), c, p, bytes);
    GainReads(m.mem, c, p, bytes);
    AgreesIs(m, Gain(c, p, bytes));
  }

  lemma ZerosRead(m: Mem, p: int, bytes: nat)
    requires ZeroBytes(m, p + 16, bytes)
    ensures BlockReads(m, p, bytes, Zeros(bytes))
  {
    forall o | o in Zeros(bytes) ensures Rd(m, Slot(p, o)) == 0 {
      assert Slot(p, o) == Word(p + 16, o / 8);
    }
  }

  lemma GainZeroReads(m: Mem, c: Client, p: int, bytes: nat)
    requires Reads(m, c) && BlockReads(m, p, bytes, Zeros(bytes)) && p !in c.live
    ensures Reads(m, GainZero(c, p, bytes)) && GainZero(c, p, bytes).live == Gain(c, p, bytes).live
  {
    hide BlockReads, Zeros;
  }

  lemma GainedZero(m: MallocState, B0: map<int, int>, m0: Mem, c: Client, p: int, bytes: nat)
    requires m.Valid() && PayloadKept(m0, m.mem, B0) && p !in B0 && p in Blocks(m.L)
    requires Blocks(m.L) == B0[p := Blocks(m.L)[p]] && bytes + 8 <= Blocks(m.L)[p] && ZeroBytes(m.mem, p + 16, bytes)
    requires Holds(B0, c.live) && Reads(m0, c)
    ensures Agrees(m, GainZero(c, p, bytes))
  {
    hide *;
    RoomOf(B0, c, m0);
    ReadsStill(m0, m.mem, B0, c);
    GainHolds(B0, Blocks(m.L), c, p, bytes);
    HoldsAt(B0, c.live, p);
    ZerosRead(m.mem, p, bytes);
    GainZeroReads(m.mem, c, p, bytes);
    AgreesIs(m, GainZero(c, p, bytes));
  }

  /** Nothing gained, nothing lost. */
  lemma Unmoved(m: MallocState, B0: map<int, int>, m0: Mem, c: Client)
    requires m.Valid() && PayloadKept(m0, m.mem, B0) && Blocks(m.L) == B0 && Holds(B0, c.live) && Reads(m0, c)
    ensures Agrees(m, c)
  {
    hide *;
    RoomOf(B0, c, m0);
    ReadsStill(m0, m.mem, B0, c);
    AgreesIs(m, c);
  }

  /** A block given up. */
  function Lose(c: Client, p: int): Client {
    Client(c.live - {p}, c.words - {p})
  }

  lemma LoseHolds(B: map<int, int>, m: Mem, c: Client, p: int)
    requires Holds(B, c.live) && Reads(m, c)
    ensures Holds(B - {p}, Lose(c, p).live) && Reads(m, Lose(c, p))
  {
    hide BlockReads;
  }

  lemma Lost(m: MallocState, B0: map<int, int>, m0: Mem, c: Client, p: int)
    requires m.Valid() && PayloadKept(m0, m.mem, B0 - {p}) && Blocks(m.L) == B0 - {p} && Holds(B0, c.live)
      && Reads(m0, c)
    ensures Agrees(m, Lose(c, p))
  {
    hide *;
    LoseHolds(B0, m0, c, p);
    RoomOf(B0 - {p}, Lose(c, p), m0);
    ReadsStill(m0, m.mem, B0 - {p}, Lose(c, p));
    AgreesIs(m, Lose(c, p));
  }

  /** The words of p that a resizing to so many bytes carries over: those that fit in both. */
  function Carried(c: Client, p: int, bytes: nat): map<int, int> {
    if p in c.words && p in c.live then
      map o | o in c.words[p] && o % 8 == 0 && o + 8 <= c.live[p] && o + 8 <= bytes :: c.words[p][o]
    else map[]
  }

  /** The block p, resized, is now q. */
  function Move(c: Client, p: int, q: int, bytes: nat): Client {
    Client((c.live - {p})[q := bytes], (c.words - {p})[q := Carried(c, p, bytes)])
  }

  lemma CarriedReads(m0: Mem, m1: Mem, c: Client, p: int, q: int, bytes: U64, oldsize: int)
    requires p in c.live && c.live[p] + 8 <= oldsize && Reads(m0, c)
    requires SameBytes(m0, p + 16, m1, q + 16, Kept(oldsize, bytes))
    ensures BlockReads(m1, q, bytes, Carried(c, p, bytes))
  {
    var ws := Carried(c, p, bytes);
    forall o | o in ws ensures 0 <= o < bytes && Rd(m1, Slot(q, o)) == ws[o] {
      assert BlockReads(m0, p, c.live[p], c.words[p]);
      var k := o / 8;
      assert Slot(p, o) == Word(p + 16, k) && Slot(q, o) == Word(q + 16, k);
      assert 0 <= k < Kept(oldsize, bytes) / 8;
    }
  }

  lemma MoveHolds(B0: map<int, int>, B1: map<int, int>, c: Client, p: int, q: int, bytes: nat)
    requires Holds(B0, c.live) && p in B0 && q in B1 && B1 == (B0 - {p})[q := B1[q]] && bytes + 8 <= B1[q]
    ensures Holds(B1, Move(c, p, q, bytes).live)
  {
  }

  lemma MoveReads(m: Mem, c: Client, p: int, q: int, bytes: nat)
    requires Reads(m, Lose(c, p)) && BlockReads(m, q, bytes, Carried(c, p, bytes))
    ensures Reads(m, Move(c, p, q, bytes))
  {
    hide BlockReads, Carried;
    var c', d := Move(c, p, q, bytes), Lose(c, p);
    forall x | x in c'.words ensures x in c'.live && BlockReads(m, x, c'.live[x], c'.words[x]) {
      if x != q { assert x in d.words && c'.words[x] == d.words[x] && c'.live[x] == d.live[x]; }
    }
  }

  lemma Moved(m: MallocState, B0: map<int, int>, m0: Mem, c: Client, p: int, q: int, bytes: U64)
    requires m.Valid() && PayloadKept(m0, m.mem, B0 - {p}) && p in B0 && q in Blocks(m.L) && (q == p || q !in B0)
    requires Blocks(m.L) == (B0 - {p})[q := Blocks(m.L)[q]] && bytes + 8 <= Blocks(m.L)[q]
    requires SameBytes(m0, p + 16, m.mem, q + 16, Kept(B0[p], bytes))
    requires Holds(B0, c.live) && Reads(m0, c)
    ensures Agrees(m, Move(c, p, q, bytes))
  {
    hide *;
    RoomOf(B0, c, m0);
    LoseHolds(B0, m0, c, p);
    RoomOf(B0 - {p}, Lose(c, p), m0);
    ReadsStill(m0, m.mem, B0 - {p}, Lose(c, p));
    HoldsAt(B0, c.live, p);
    CarriedReads(m0, m.mem, c, p, q, bytes, B0[p]);
    MoveHolds(B0, Blocks(m.L), c, p, q, bytes);
    MoveReads(m.mem, c, p, q, bytes);
    AgreesIs(m, Move(c, p, q, bytes));
  }

  lemma HoldsAt(B: map<int, int>, live: map<int, nat>, p: int)
    requires Holds(B, live)
    ensures p in live <==> p in B
    ensures p in live ==> live[p] + 8 <= B[p]
  {
  }

  /** Words are stored at aligned offsets that begin within what was asked for. */
  predicate CanStore(c: Client, block: int, off: nat) {
    block in c.live && off % 8 == 0 && off < c.live[block]
  }

  /** A word is stored. */
  function Wrote(c: Client, p: int, off: nat, v: int): Client {
    c.(words := c.words[p := (if p in c.words then c.words[p] else map[])[off := v]])
  }

  lemma WroteReads(m: Mem, c: Client, p: int, off: nat, v: int, m': Mem)
    requires Reads(m, c) && p in c.live && off < c.live[p] && m' == m[Slot(p, off) := v]
    requires Reads(m', Lose(c, p))
    ensures Reads(m', Wrote(c, p, off, v))
  {
    var c', d := Wrote(c, p, off, v), Lose(c, p);
    forall x | x in c'.words ensures x in c'.live && BlockReads(m', x, c'.live[x], c'.words[x]) {
      if x != p {
        assert x in d.words && BlockReads(m', x, d.live[x], d.words[x]);
      } else {
        assert p in c.words ==> BlockReads(m, p, c.live[p], c.words[p]);
        SlotsDiffer(p);
      }
    }
  }

  lemma SlotsDiffer(p: int)
    ensures forall o, o' :: Slot(p, o) == Slot(p, o') ==> o == o'
  {
  }

  // ---- blocks cut from one chunk ----

  /** The bytes asked for of each element. */
  function ElementBytes(n: nat, sizes: seq<U64>, same: bool): (bs: seq<U64>)
    requires if same then |sizes| >= 1 else |sizes| >= n
    ensures |bs| == n
  {
    seq(n, i requires 0 <= i < n => if same then sizes[0] else sizes[i])
  }

  /** The first k elements, of the sizes xs from p on. */
  function GainFirst(c: Client, p: int, bs: seq<U64>, xs: seq<int>, k: nat, clear: bool): Client
    requires k <= |bs| == |xs|
  {
    if k == 0 then c else
      var c1, q := GainFirst(c, p, bs, xs, k - 1, clear), p + Sum(xs[..k - 1]);
      if clear then GainZero(c1, q, bs[k - 1]) else Gain(c1, q, bs[k - 1])
  }

  /** The words of the pointer array, when r is the first element. */
  function Pointers(r: int, xs: seq<int>): map<int, int> {
    map o | 0 <= o < 8 * |xs| && o % 8 == 0 :: r + Sum(xs[..o / 8])
  }

  function GainArray(c: Client, arr: int, r: int, xs: seq<int>): Client {
    Client(c.live[arr := 8 * |xs|], c.words[arr := Pointers(r, xs)])
  }

  /** All elements, the first at r, and behind them the pointer array if it is part of the chunk. */
  function GainCut(c: Client, r: int, bs: seq<U64>, xs: seq<int>, clear: bool, own: bool): Client
    requires |bs| == |xs|
  {
    GainFirst(if own then GainArray(c, r - 16 + Sum(xs), r, xs) else c, r - 16, bs, xs, |xs|, clear)
  }

  lemma GainFirstIs(c: Client, p: int, bs: seq<U64>, xs: seq<int>, k: nat, clear: bool)
    requires k <= |bs| == |xs|
    ensures k == 0 ==> GainFirst(c, p, bs, xs, k, clear) == c
    ensures k > 0 ==>
      var c1, q := GainFirst(c, p, bs, xs, k - 1, clear), p + Sum(xs[..k - 1]);
      GainFirst(c, p, bs, xs, k, clear) == if clear then GainZero(c1, q, bs[k - 1]) else Gain(c1, q, bs[k - 1])
  {
  }

  lemma GainsAlike(c: Client, p: int, bytes: nat)
    ensures GainZero(c, p, bytes).live == Gain(c, p, bytes).live == c.live[p := bytes]
    ensures forall x :: x != p ==>
      (x in GainZero(c, p, bytes).words <==> x in c.words) && (x in Gain(c, p, bytes).words <==> x in c.words)
    ensures forall x :: x != p && x in c.words ==>
      GainZero(c, p, bytes).words[x] == c.words[x] && Gain(c, p, bytes).words[x] == c.words[x]
  {
  }

  /** The new blocks lie in [p, p + Sum(xs)), and what is known of other blocks stays. */
  lemma {:induction false} FirstInside(c: Client, p: int, bs: seq<U64>, xs: seq<int>, k: nat, clear: bool)
    requires k <= |bs| == |xs| && forall i :: 0 <= i < |xs| ==> xs[i] >= 32 && xs[i] % 16 == 0
    ensures var d := GainFirst(c, p, bs, xs, k, clear);
            && (forall x :: x < p || x >= p + Sum(xs[..k]) ==>
                            (x in d.live <==> x in c.live) && (x in d.words <==> x in c.words))
            && (forall x :: (x < p || x >= p + Sum(xs[..k])) && x in c.live ==> d.live[x] == c.live[x])
            && (forall x :: (x < p || x >= p + Sum(xs[..k])) && x in c.words ==> d.words[x] == c.words[x])
  {
    hide *;
    GainFirstIs(c, p, bs, xs, k, clear);
    if k > 0 {
      FirstInside(c, p, bs, xs, k - 1, clear);
      SumBounds(xs, k - 1);
      GainsAlike(GainFirst(c, p, bs, xs, k - 1, clear), p + Sum(xs[..k - 1]), bs[k - 1]);
    }
  }

  /** Element j is held, and known to be zero if it was cleared. */
  lemma {:induction false} ElementKnown(c: Client, p: int, bs: seq<U64>, xs: seq<int>, k: nat, clear: bool, j: nat)
    requires j < k <= |bs| == |xs| && forall i :: 0 <= i < |xs| ==> xs[i] >= 32 && xs[i] % 16 == 0
    ensures var d, q := GainFirst(c, p, bs, xs, k, clear), p + Sum(xs[..j]);
            q in d.live && d.live[q] == bs[j] && (clear ==> q in d.words && d.words[q] == Zeros(bs[j]))
  {
    hide *;
    GainFirstIs(c, p, bs, xs, k, clear);
    var c1, q := GainFirst(c, p, bs, xs, k - 1, clear), p + Sum(xs[..k - 1]);
    GainsAlike(c1, q, bs[k - 1]);
    GainZeroIs(c1, q, bs[k - 1]);
    if j < k - 1 {
      ElementKnown(c, p, bs, xs, k - 1, clear, j);
      SumBounds(xs[..k - 1], j);
      assert xs[..k - 1][..j] == xs[..j];
    }
  }

  lemma GainZeroIs(c: Client, p: int, bytes: nat)
    ensures p in GainZero(c, p, bytes).words && GainZero(c, p, bytes).words[p] == Zeros(bytes)
  {
  }

  lemma {:induction false} FirstHolds(B: map<int, int>, c: Client, p: int, bs: seq<U64>, xs: seq<int>, ys: seq<int>,
                                      k: nat, clear: bool)
    requires k <= |bs| == |xs| == |ys| && Holds(B, c.live)
    requires forall i :: 0 <= i < k ==> Sum(ys[..i]) == Sum(xs[..i]) && bs[i] + 8 <= ys[i]
    ensures Holds(AddBlocks(B, p, ys[..k]), GainFirst(c, p, bs, xs, k, clear).live)
  {
    hide *;
    GainFirstIs(c, p, bs, xs, k, clear);
    AddNone(B, p, ys);
    if k > 0 {
      FirstHolds(B, c, p, bs, xs, ys, k - 1, clear);
      var B1, c1, q := AddBlocks(B, p, ys[..k - 1]), GainFirst(c, p, bs, xs, k - 1, clear), p + Sum(xs[..k - 1]);
      assert ys[..k] == ys[..k - 1] + [ys[k - 1]];
      AddOne(B, p, ys[..k - 1], ys[k - 1]);
      GainsAlike(c1, q, bs[k - 1]);
      GainHolds(B1, AddBlocks(B, p, ys[..k]), c1, q, bs[k - 1]);
    }
  }

  lemma {:induction false} FirstReads(m: Mem, c: Client, p: int, bs: seq<U64>, xs: seq<int>, k: nat, clear: bool)
    requires k <= |bs| == |xs| && Reads(m, c) && forall i :: 0 <= i < |xs| ==> xs[i] >= 32 && xs[i] % 16 == 0
    requires forall x :: x in c.live ==> x < p || x >= p + Sum(xs)
    requires clear ==> forall i :: 0 <= i < k ==> BlockReads(m, p + Sum(xs[..i]), bs[i], Zeros(bs[i]))
    ensures Reads(m, GainFirst(c, p, bs, xs, k, clear))
  {
    hide *;
    GainFirstIs(c, p, bs, xs, k, clear);
    if k > 0 {
      FirstReads(m, c, p, bs, xs, k - 1, clear);
      var c1, q := GainFirst(c, p, bs, xs, k - 1, clear), p + Sum(xs[..k - 1]);
      FirstInside(c, p, bs, xs, k - 1, clear);
      SumBounds(xs, k - 1);
      Between(xs, k - 1, k - 1);
      Between(xs, k, k);
      if clear { GainZeroReads(m, c1, q, bs[k - 1]); } else { GainReads(m, c1, q, bs[k - 1]); }
    }
  }

  /** A cleared element reads as zero as far as it was asked for. */
  lemma ElementReads(m: Mem, elems: seq<int>, xs: seq<int>, bs: seq<U64>, i: nat)
    requires Ialloc.AllZero(m, elems, xs) && |bs| == |xs| && i < |xs| && bs[i] + 8 <= xs[i]
    ensures BlockReads(m, elems[i] - 16, bs[i], Zeros(bs[i]))
  {
    forall o | o in Zeros(bs[i]) ensures Rd(m, Slot(elems[i] - 16, o)) == 0 {
      assert Slot(elems[i] - 16, o) == Word(elems[i], o / 8);
    }
  }

  lemma ArrayReads(m: Mem, c: Client, arr: int, r: int, xs: seq<int>, elems: seq<int>)
    requires Reads(m, c) && arr !in c.live && |elems| == |xs|
      && forall i :: 0 <= i < |xs| ==> elems[i] == r + Sum(xs[..i])
    requires forall i :: 0 <= i < |xs| ==> Rd(m, arr + 16 + 8 * i) == elems[i]
    ensures Reads(m, GainArray(c, arr, r, xs))
  {
    hide Sum;
    var d := GainArray(c, arr, r, xs);
    forall x | x in d.words ensures x in d.live && BlockReads(m, x, d.live[x], d.words[x]) {
      if x == arr {
        forall o | o in Pointers(r, xs) ensures Rd(m, Slot(arr, o)) == Pointers(r, xs)[o] {
          assert Slot(arr, o) == arr + 16 + 8 * (o / 8);
        }
      }
    }
  }

  lemma ArrayHolds(B: map<int, int>, c: Client, arr: int, r: int, xs: seq<int>, size: int)
    requires Holds(B, c.live) && 8 * |xs| + 8 <= size
    ensures Holds(B[arr := size], GainArray(c, arr, r, xs).live)
    ensures forall x :: x in GainArray(c, arr, r, xs).live <==> x in c.live || x == arr
  {
  }

  /** What the client knows after an aggregate was cut up agrees with the heap. */
  lemma CutGained(m: MallocState, B0: map<int, int>, m0: Mem, c: Client, elems: seq<int>, xs: seq<int>, bs: seq<U64>,
                  own: bool, marray: int, total: int, clear: bool)
    requires m.Valid() && PayloadKept(m0, m.mem, B0) && Holds(B0, c.live) && Reads(m0, c)
    requires xs != [] && |elems| == |xs| == |bs| && Cut(B0, Blocks(m.L), elems, xs, own, marray, total)
    requires forall i :: 0 <= i < |xs| ==> xs[i] >= 32 && xs[i] % 16 == 0 && bs[i] + 8 <= xs[i]
    requires own ==> forall i :: 0 <= i < |xs| ==> Rd(m.mem, marray + 8 * i) == elems[i]
    requires clear ==> Ialloc.AllZero(m.mem, elems, xs)
    ensures Agrees(m, GainCut(c, elems[0], bs, xs, clear, own))
    ensures forall x :: x in c.live ==> x < elems[0] - 16 || x >= elems[0] - 16 + Sum(xs) + ArraySize(|xs|, own)
  {
    hide *;
    var p, rem := elems[0] - 16, if own then Sum(xs) else total;
    CutIs(B0, Blocks(m.L), elems, xs, own, marray, total, p, rem);
    FirstElement(elems, p, xs, rem);
    RoomOf(B0, c, m0);
    ReadsStill(m0, m.mem, B0, c);
    SumBounds(xs, |xs|);
    assert xs[..|xs|] == xs;
    ArrayFits(|xs|, own);
    var arr := p + Sum(xs);
    var B1 := if own then B0[arr := total - Sum(xs)] else B0;
    var c1 := if own then GainArray(c, arr, p + 16, xs) else c;
    forall x | x in c.live ensures x in B0 && (x < p || x >= p + total) { HoldsAt(B0, c.live, x); }
    if own {
      ArrayHolds(B0, c, arr, p + 16, xs, total - Sum(xs));
      ArrayReads(m.mem, c, arr, p + 16, xs, elems);
    }
    ActualFits(xs, rem, bs);
    var ys := Actual(xs, rem);
    assert ys[..|xs|] == ys;
    FirstHolds(B1, c1, p, bs, xs, ys, |xs|, clear);
    if clear {
      forall i | 0 <= i < |xs| ensures BlockReads(m.mem, p + Sum(xs[..i]), bs[i],
                                                  Zeros(bs[i])) { ElementReads(m.mem, elems, xs, bs, i); }
    }
    FirstReads(m.mem, c1, p, bs, xs, |xs|, clear);
    GainCutIs(c, elems[0], bs, xs, clear, own);
    AgreesIs(m, GainCut(c, elems[0], bs, xs, clear, own));
  }

  lemma GainCutIs(c: Client, r: int, bs: seq<U64>, xs: seq<int>, clear: bool, own: bool)
    requires |bs| == |xs|
    ensures GainCut(c, r, bs, xs, clear, own)
         == GainFirst(if own then GainArray(c, r - 16 + Sum(xs), r, xs) else c, r - 16, bs, xs, |xs|, clear)
  {
  }

  /** The last element may be larger than its size; all begin where their sizes say. */
  lemma ActualFits(xs: seq<int>, rem: int, bs: seq<U64>)
    requires xs != [] && |bs| == |xs| && rem >= Sum(xs)
    requires forall i :: 0 <= i < |xs| ==> xs[i] >= 32 && xs[i] % 16 == 0 && bs[i] + 8 <= xs[i]
    ensures |Actual(xs, rem)| == |xs|
    ensures forall i :: 0 <= i < |xs| ==> Sum(Actual(xs, rem)[..i]) == Sum(xs[..i]) && bs[i] + 8 <= Actual(xs, rem)[i]
  {
    hide Sum;
    var n := |xs|;
    SumBounds(xs, n - 1);
    assert xs[..n] == xs;
    forall i | 0 <= i < n ensures Sum(Actual(xs, rem)[..i]) == Sum(xs[..i]) { TakeActual(xs, rem, i); }
  }

  /** What is known of a block outside the chunk stays. */
  lemma CutKeeps(c: Client, r: int, bs: seq<U64>, xs: seq<int>, clear: bool, own: bool, x: int)
    requires |bs| == |xs| && forall i :: 0 <= i < |xs| ==> xs[i] >= 32 && xs[i] % 16 == 0
    requires x < r - 16 || x >= r - 16 + Sum(xs) + if own then 32 else 0
    ensures var d := GainCut(c, r, bs, xs, clear, own);
            && (x in c.live ==> x in d.live && d.live[x] == c.live[x])
            && (x in c.words ==> x in d.words && d.words[x] == c.words[x])
  {
    hide *;
    SumBounds(xs, |xs|);
    SumBounds(xs, 0);
    assert xs[..|xs|] == xs;
    GainCutIs(c, r, bs, xs, clear, own);
    ArrayElsewhere(c, r - 16 + Sum(xs), r, xs, x);
    FirstInside(if own then GainArray(c, r - 16 + Sum(xs), r, xs) else c, r - 16, bs, xs, |xs|, clear);
  }

  /** The addresses of the elements are known to be in the array. */
  lemma ArrayKnown(c: Client, r: int, bs: seq<U64>, xs: seq<int>, clear: bool, k: nat)
    requires k < |bs| == |xs| && forall i :: 0 <= i < |xs| ==> xs[i] >= 32 && xs[i] % 16 == 0
    ensures var d, arr := GainCut(c, r, bs, xs, clear, true), r - 16 + Sum(xs);
            arr in d.live && arr in d.words && 8 * k in d.words[arr] && d.words[arr][8 * k] == r + Sum(xs[..k])
  {
    hide *;
    SumBounds(xs, |xs|);
    assert xs[..|xs|] == xs;
    GainCutIs(c, r, bs, xs, clear, true);
    PointerAt(c, r - 16 + Sum(xs), r, xs, k);
    FirstInside(GainArray(c, r - 16 + Sum(xs), r, xs), r - 16, bs, xs, |xs|, clear);
  }

  lemma PointerAt(c: Client, arr: int, r: int, xs: seq<int>, k: nat)
    requires k < |xs|
    ensures var d := GainArray(c, arr, r, xs);
            arr in d.live && arr in d.words && 8 * k in d.words[arr] && d.words[arr][8 * k] == r + Sum(xs[..k])
  {
    hide Sum;
    assert 8 * k / 8 == k;
  }

  lemma ArrayElsewhere(c: Client, arr: int, r: int, xs: seq<int>, x: int)
    ensures var d := GainArray(c, arr, r, xs);
            x != arr ==> (x in d.live <==> x in c.live) && (x in d.words <==> x in c.words)
                         && (x in c.live ==> d.live[x] == c.live[x]) && (x in c.words ==> d.words[x] == c.words[x])
  {
  }
}
