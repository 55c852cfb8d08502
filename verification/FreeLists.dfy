/** The linking and unlinking macros, step by step on the state, and the choice of a chunk in a bin. */
module FreeLists {
  import opened Words
  import opened Memory
  import opened BinMaps
  import opened Rings
  import opened Tries
  import opened Bins
  import opened BinOps
  import opened State

  lemma HeaderFirst(m: Mem, map0: U32, i: int, r: seq<int>, D: map<int, int>)
    requires 0 <= i < 32 && SmallBinOK(m, map0, i, r, D) && r != []
    ensures Rd(m, SmallBinAt(i) + 16) == r[0] && r[0] in D && D[r[0]] == 8 * i
    ensures r[0] != SmallBinAt(i)
  {
    var c := [SmallBinAt(i)] + r;
    assert Linked(m, c[0], c[Nxt(|c|, 0)]);
    assert c[0] != c[1];
  }

  lemma NextOfHeader(m: Mem, h: int, r: seq<int>)
    requires r != [] && Ring(m, [h] + r)
    ensures Rd(m, r[0] + 24) == h
  {
    var c := [h] + r;
    assert Linked(m, c[0], c[Nxt(|c|, 0)]);
  }

  lemma BinsValidIs(m: MallocState)
    ensures m.BinsValid() <==>
      BinsOK(m.mem, m.smallmap, m.treemap, m.D, m.rings, m.trees) && forall x :: x in m.D ==> x >= m.leastAddr
  {
  }

  lemma LinkAfterIs(m: Mem, b: int, f: int, p: int)
    ensures LinkAfter(m, b, f, p) == m[b + 16 := p][f + 24 := p][p + 16 := f][p + 24 := b]
  {
  }

  lemma LinkPastIs(m: Mem, b: int, f: int)
    ensures LinkPast(m, b, f) == m[f + 24 := b][b + 16 := f]
  {
  }

  lemma Lengths(m: Mem, smallmap: U32, treemap: U32, D: map<int, int>, rings: seq<seq<int>>, trees: seq<Tree>)
    requires BinsOK(m, smallmap, treemap, D, rings, trees)
    ensures |rings| == 32 && |trees| == 32 && ChunksOK(m, D)
  {
  }

  /**
   * Before inserting: the bit says whether the bin is empty, and the first chunk of a non-empty bin has a good address.
   */
  lemma BeforeInsertSmall(m: Mem, smallmap: U32, treemap: U32, D: map<int, int>, rings: seq<seq<int>>, trees: seq<Tree>,
                          least: int, i: nat)
    requires BinsOK(m, smallmap, treemap, D, rings, trees) && i < 32 && forall x :: x in D ==> x >= least
    ensures SmallNext(m, smallmap, i) == (if Marked(smallmap, i) then Rd(m, SmallBinAt(i) + 16) else SmallBinAt(i))
    ensures Marked(smallmap, i) ==> Rd(m, SmallBinAt(i) + 16) >= least
    ensures SmallBinAt(i) + 32 <= HEAP_FLOOR
  {
    hide Ring, ChunksOK, LargeOK, Complete;
    assert SmallBinOK(m, smallmap, i, rings[i], D);
    if Marked(smallmap, i) { HeaderFirst(m, smallmap, i, rings[i], D); }
  }

  lemma MarkedIs(map0: U32, i: nat)
    requires i < 32
    ensures Marked(MarkBit(map0, i), i) && SameMarks(map0, MarkBit(map0, i), i)
    ensures !Marked(ClearBit(map0, i), i) && SameMarks(map0, ClearBit(map0, i), i)
    ensures SameMarks(map0, map0, i)
  {
  }

  /** insert_small_chunk */
  method InsertSmallChunk(m: MallocState, p: int, s: int)
    requires m.BinsValid() && p !in m.D && 0 <= s < 256 && s % 8 == 0 && p >= m.leastAddr
    requires ChunksOK(m.mem, m.D[p := s])
    modifies m`mem, m`smallmap, m`D, m`rings
    ensures m.BinsValid() && m.D == old(m.D)[p := s]
    ensures s / 8 < |old(m.rings)| && m.rings == old(m.rings)[s / 8 := [p] + old(m.rings)[s / 8]]
    ensures BinWrites(old(m.mem), m.mem, m.D)
  {
    hide *;
    var i := s / 8;
    var b := SmallBinAt(i);
    var f := b;
    ghost var m0, map0, rings0 := m.mem, m.smallmap, m.rings;
    BinsValidIs(m);
    Lengths(m.mem, m.smallmap, m.treemap, m.D, m.rings, m.trees);
    BeforeInsertSmall(m.mem, m.smallmap, m.treemap, m.D, m.rings, m.trees, m.leastAddr, i);
    MarkedIs(m.smallmap, i);
    if !TestBit(m.smallmap, i) {
      m.smallmap := MarkBit(m.smallmap, i);
    } else {
      if Rd(m.mem, b + 16) >= m.leastAddr {
        f := Rd(m.mem, b + 16);
      } else {
        assert false;
      }
    }
    m.mem := m.mem[b + 16 := p];
    m.mem := m.mem[f + 24 := p];
    m.mem := m.mem[p + 16 := f];
    m.mem := m.mem[p + 24 := b];
    LinkAfterIs(m0, b, f, p);
    InsertSmall(m0, map0, m.smallmap, m.treemap, m.D, m.rings, m.trees, p, i);
    m.D := m.D[p := s];
    m.rings := m.rings[i := [p] + m.rings[i]];
    OnlyInIsBinWrites(m0, m.mem, m.D, Elems(rings0[i]) + {p}, b + 16, b + 32);
    BinsValidIs(m);
  }

  /** Where a small binned chunk is, and what its neighbours say about it. */
  lemma BeforeUnlinkSmall(m: Mem, smallmap: U32, treemap: U32, D: map<int, int>, rings: seq<seq<int>>, trees: seq<Tree>,
                          least: int, p: int, i: nat) returns (k: int)
    requires BinsOK(m, smallmap, treemap, D, rings, trees) && forall x :: x in D ==> x >= least
    requires p in D && D[p] < 256 && i == D[p] / 8
    ensures i < 32 && |rings| == 32 && |trees| == 32 && D[p] == 8 * i && 0 <= k < |rings[i]| && rings[i][k] == p
    ensures Rd(m, p + 16) != p && Rd(m, p + 24) != p && Marked(smallmap, i)
    ensures Rd(m, Rd(m, p + 16) + 24) == p && Rd(m, Rd(m, p + 24) + 16) == p
    ensures Rd(m, p + 16) == SmallBinAt(i) || Rd(m, p + 16) >= least
    ensures Rd(m, p + 24) == SmallBinAt(i) || Rd(m, p + 24) >= least
    ensures Rd(m, p + 24) == Rd(m, p + 16) <==> |rings[i]| == 1
    ensures SmallBinAt(i) + 32 <= HEAP_FLOOR
  {
    hide Ring, LargeOK;
    assert ChunkOK(m, p, D[p]);
    assert p in rings[i];
    k :| 0 <= k < |rings[i]| && rings[i][k] == p;
    assert SmallBinOK(m, smallmap, i, rings[i], D);
    AloneInRing(m, SmallBinAt(i), rings[i], k);
  }

  lemma UnlinkSmallMemIs(m: Mem, r: seq<int>, p: int)
    ensures UnlinkSmallMem(m, r, p) == if |r| == 1 then m
      else m[Rd(m, p + 16) + 24 := Rd(m, p + 24)][Rd(m, p + 24) + 16 := Rd(m, p + 16)]
  {
  }

  /** The chunk p left ring i; all others keep their order. */
  ghost predicate Left(rings: seq<seq<int>>, rings': seq<seq<int>>, i: int, p: int) {
    0 <= i < |rings| && exists k :: 0 <= k < |rings[i]| && rings[i][k] == p
                                    && rings' == rings[i := rings[i][..k] + rings[i][k + 1..]]
  }

  ghost predicate IsFirst(rings: seq<seq<int>>, i: int, p: int) {
    0 <= i < |rings| && rings[i] != [] && rings[i][0] == p
  }

  lemma LeftIf(rings: seq<seq<int>>, i: int, k: int)
    requires 0 <= i < |rings| && 0 <= k < |rings[i]|
    ensures Left(rings, DropAt(rings, i, k), i, rings[i][k]) && (k == 0 ==> IsFirst(rings, i, rings[i][k]))
  {
  }

  /** unlink_small_chunk: the consistency checks pass and the corruption action is not reached. */
  method UnlinkSmallChunk(m: MallocState, p: int, s: int)
    requires m.BinsValid() && p in m.D && m.D[p] == s && s < 256
    modifies m`mem, m`smallmap, m`D, m`rings
    ensures m.BinsValid() && m.D == old(m.D) - {p} && Left(old(m.rings), m.rings, s / 8, p)
    ensures BinWrites(old(m.mem), m.mem, old(m.D))
  {
    hide *;
    BinsValidIs(m);
    BinnedSize(m.mem, m.smallmap, m.treemap, m.D, m.rings, m.trees, p);
    var f, b := Rd(m.mem, p + 16), Rd(m.mem, p + 24);
    var i := s / 8;
    ghost var m0, map0, r := m.mem, m.smallmap, m.rings;
    ghost var k := BeforeUnlinkSmall(m.mem, m.smallmap, m.treemap, m.D, m.rings, m.trees, m.leastAddr, p, i);
    assert p != b && p != f;
    UnlinkSmallMemIs(m0, r[i], p);
    MarkedIs(m.smallmap, i);
    if f == SmallBinAt(i) || (f >= m.leastAddr && Rd(m.mem, f + 24) == p) {
      if b == f {
        m.smallmap := ClearBit(m.smallmap, i);
      } else if b == SmallBinAt(i) || (b >= m.leastAddr && Rd(m.mem, b + 16) == p) {
        m.mem := m.mem[f + 24 := b];
        m.mem := m.mem[b + 16 := f];
      } else {
        assert false;
      }
    } else {
      assert false;
    }
    UnlinkSmall(m0, map0, m.smallmap, m.treemap, m.D, m.rings, m.trees, p, i, k);
    OnlyInIsBinWrites(m0, m.mem, m.D, Elems(r[i]), SmallBinAt(i) + 16, SmallBinAt(i) + 32);
    m.D := m.D - {p};
    m.rings := DropAt(m.rings, i, k);
    LeftIf(r, i, k);
    BinsValidIs(m);
  }

  lemma BinnedSize(m: Mem, smallmap: U32, treemap: U32, D: map<int, int>, rings: seq<seq<int>>, trees: seq<Tree>,
                   p: int)
    requires BinsOK(m, smallmap, treemap, D, rings, trees) && p in D
    ensures 32 <= D[p] <= 0xFFFF_FFFF_FFFF_FFFF && D[p] % 16 == 0 && p >= HEAP_FLOOR > 0 && p % 16 == 0
      && Rd(m, p + 8) == D[p] + 1
  {
    assert ChunkOK(m, p, D[p]);
  }

  lemma FirstInBin(m: Mem, smallmap: U32, treemap: U32, D: map<int, int>, rings: seq<seq<int>>, trees: seq<Tree>,
                   i: nat)
    requires BinsOK(m, smallmap, treemap, D, rings, trees) && i < 32 && Marked(smallmap, i)
    ensures |rings| == 32 && rings[i] != [] && Rd(m, SmallBinAt(i) + 16) == rings[i][0] && rings[i][0] in D
      && D[rings[i][0]] == 8 * i
    ensures Rd(m, rings[i][0] + 24) == SmallBinAt(i)
  {
    hide Ring, LargeOK;
    assert SmallBinOK(m, smallmap, i, rings[i], D);
    HeaderFirst(m, smallmap, i, rings[i], D);
    NextOfHeader(m, SmallBinAt(i), rings[i]);
  }

  /** unlink_first_small_chunk on the non-empty bin i. */
  method UnlinkFirstSmallChunk(m: MallocState, i: nat) returns (p: int)
    requires m.BinsValid() && i < 32 && Marked(m.smallmap, i)
    modifies m`mem, m`smallmap, m`D, m`rings
    ensures p in old(m.D) && old(m.D)[p] == 8 * i && IsFirst(old(m.rings), i, p)
    ensures m.BinsValid() && m.D == old(m.D) - {p} && Left(old(m.rings), m.rings, i, p)
    ensures BinWrites(old(m.mem), m.mem, old(m.D))
  {
    hide *;
    BinsValidIs(m);
    var b := SmallBinAt(i);
    p := Rd(m.mem, b + 16);
    ghost var m0, map0, r := m.mem, m.smallmap, m.rings;
    FirstInBin(m.mem, m.smallmap, m.treemap, m.D, m.rings, m.trees, i);
    AtFront(m.mem, m.smallmap, m.treemap, m.D, m.rings, m.trees, m.leastAddr, i);
    UnlinkSmallMemIs(m0, r[i], p);
    MarkedIs(m.smallmap, i);
    var f := Rd(m.mem, p + 16);
    assert p != b && p != f;
    if b == f {
      m.smallmap := ClearBit(m.smallmap, i);
    } else if f >= m.leastAddr && Rd(m.mem, f + 24) == p {
      m.mem := m.mem[f + 24 := b];
      m.mem := m.mem[b + 16 := f];
    } else {
      assert false;
    }
    UnlinkSmall(m0, map0, m.smallmap, m.treemap, m.D, m.rings, m.trees, p, i, 0);
    OnlyInIsBinWrites(m0, m.mem, m.D, Elems(r[i]), SmallBinAt(i) + 16, SmallBinAt(i) + 32);
    m.D := m.D - {p};
    m.rings := DropAt(m.rings, i, 0);
    LeftIf(r, i, 0);
    BinsValidIs(m);
  }

  lemma AtFront(m: Mem, smallmap: U32, treemap: U32, D: map<int, int>, rings: seq<seq<int>>, trees: seq<Tree>,
                least: int, i: nat)
    requires BinsOK(m, smallmap, treemap, D, rings, trees) && forall x :: x in D ==> x >= least
    requires i < 32 && Marked(smallmap, i) && |rings| == 32 && rings[i] != []
    ensures var p := rings[i][0];
            Rd(m, p + 16) != p && p != SmallBinAt(i) && Rd(m, Rd(m, p + 16) + 24) == p
            && (Rd(m, p + 16) == SmallBinAt(i) || Rd(m, p + 16) >= least)
            && (Rd(m, p + 24) == Rd(m, p + 16) <==> |rings[i]| == 1)
    ensures SmallBinAt(i) + 32 <= HEAP_FLOOR && |trees| == 32
  {
    hide Ring, LargeOK;
    assert SmallBinOK(m, smallmap, i, rings[i], D);
    AloneInRing(m, SmallBinAt(i), rings[i], 0);
  }
}
