/**
 * A new noncontiguous segment: top moves to it, and the old top leaves a segment record, fenceposts and perhaps a free
 * chunk.
 */
module AddSegment {
  import opened Memory
  import opened Layouts
  import opened Bins
  import opened State
  import opened HeapSteps
  import opened Chunks
  import opened Segments
  import opened Prepend

  /**
   * Where the segment record goes: as late as it fits, or at the old top when the rest would be too small for a chunk.
   */
  function RecordAt(t: int, oldEnd: int): int {
    var asp := AlignUp(oldEnd - 95);
    if asp < t + 32 then t else asp
  }

  /** The record and at least two fenceposts fit in the reserved foot of the old top. */
  lemma RecordFits(t: int, topsize: int)
    requires t % 16 == 0 && topsize >= 8 && topsize % 8 == 0
    ensures var oldEnd := t + topsize + 80; var c := RecordAt(t, oldEnd);
            c % 16 == 0 && c >= t && (c == t || c - t >= 32) && c + 48 + 16 < oldEnd && oldEnd <= c + 80 + 48
  {
    var oldEnd := t + topsize + 80;
    AlignUpBounds(oldEnd - 95);
    var asp := AlignUp(oldEnd - 95);
    if asp < t + 32 {
      assert t - asp > -32;
      assert (t - asp) % 16 == 0;
      assert t - asp >= -16;
    }
  }

  /** The old top of s, turned into what add_segment leaves of it. */
  function Retired(L: Layout, t: int, c: int): Layout
    requires t in L
  {
    var L1 := if c != t then L[t := Chunk(Free, c - t, true)] else L;
    L1[c := Chunk(Record, 48, c == t)][c + 48 := Chunk(Fence, 8, true)]
  }

  lemma RetiredIs(L: Layout, t: int, c: int)
    requires t in L && c >= t
    ensures forall x :: x in Retired(L, t, c) <==> x in L || x == c || x == c + 48
    ensures Retired(L, t, c)[c] == Chunk(Record, 48, c == t) && Retired(L, t, c)[c + 48] == Chunk(Fence, 8, true)
    ensures c != t ==> Retired(L, t, c)[t] == Chunk(Free, c - t, true)
    ensures forall x :: x in L && x != t && x != c && x != c + 48 ==> Retired(L, t, c)[x] == L[x]
  {
  }

  /** The words of the retired top. */
  predicate RetiredWords(m: Mem, t: int, c: int, base: int, size: int, next: int) {
    && Rd(m, c + 8) == (if c == t then 51 else 50) && Rd(m, c + 56) == 11
    && (c != t ==> Rd(m, t + 8) == c - t + 1 && Rd(m, c) == c - t)
    && Rd(m, c + 16) == base && Rd(m, c + 24) == size && Rd(m, c + 32) == next
  }

  lemma RetiredAt(m: Mem, L: Layout, t: int, c: int, e: int, base: int, size: int, next: int)
    requires t % 16 == 0 && t >= HEAP_FLOOR && c % 16 == 0 && (c == t || c - t >= 32) && c + 64 < e <= ADDRESS_LIMIT
      && t <= c
    requires t in L && c in L && c + 48 in L && L[c] == Chunk(Record, 48, c == t) && L[c + 48] == Chunk(Fence, 8, true)
    requires c != t ==> L[t] == Chunk(Free, c - t, true)
    requires forall x :: x in L && x > t ==> x == c || x == c + 48 || x >= e
    requires RetiredWords(m, t, c, base, size, next)
    ensures At(m, L, t) && At(m, L, c) && At(m, L, c + 48)
  {
  }

  lemma RetireLayout(m: Mem, m': Mem, L: Layout, t: int, c: int, e: int, base: int, size: int, next: int)
    requires LayoutOK(m, L) && t in L && L[t].kind.Top? && L[t].pin && c % 16 == 0 && (c == t || c - t >= 32) && t <= c
    requires c + 64 < e <= ADDRESS_LIMIT && (forall x :: x in L && x > t ==> x >= e)
    requires forall x :: x in L && x != t ==> SameWords(m, m', L, x)
    requires RetiredWords(m', t, c, base, size, next)
    ensures LayoutOK(m', Retired(L, t, c)) && SameBeyond(L, Retired(L, t, c), t, e)
  {
    hide *;
    var L' := Retired(L, t, c);
    RetiredIs(L, t, c);
    TagFacts(m, L, t);
    FloorIs();
    forall x | x in L && x < t ensures x + Extent(L[x]) <= t { ClearOf(m, L, x, t); }
    RetiredAt(m', L', t, c, e, base, size, next);
    SameBeyondIs(L, L', t, e);
    Regional(m, L, m', L', t, e);
  }

  /** A new top in a granted region. */
  lemma NewTopLayout(s: Snap, out: set<int>, tbase: int, tsize: int, nt: int, nts: int)
    requires Inv(s, out) && Granted(s.segs, tbase, tsize) && tsize >= 104 && nt == AlignUp(tbase)
      && nts == tbase + tsize - 80 - nt
    ensures var m1 := s.mem[nt + 8 := nts + 1][nt + nts + 8 := 80]; var L1 := s.L[nt := Chunk(Top, nts, true)];
            LayoutOK(m1, L1) && nt !in s.L && nt >= tbase >= 0x2000 && nts >= tsize - 88 && nts % 8 == 0
            && AwayFromBins(s.mem, m1, s.D)
            && (forall c, w :: c in s.L && c + 8 <= w < c + s.L[c].size + 8 ==> Rd(m1, w) == Rd(s.mem, w))
            && (forall c :: c in s.L ==> c < tbase || c >= tbase + tsize)
  {
    hide *;
    var m1 := s.mem[nt + 8 := nts + 1][nt + nts + 8 := 80];
    var L1 := s.L[nt := Chunk(Top, nts, true)];
    var e := tbase + tsize;
    InvParts(s, out);
    FiledIs(s.L, s.D, out);
    GrantedIs(s.segs, tbase, tsize);
    AlignUpBounds(tbase);
    FirstAligned(tbase);
    ChunksOutsideGrant(s, out, tbase, tsize);
    forall c | c in s.L ensures c >= e || (c < tbase && c + Needs(s.L[c]) <= tbase && c + Extent(s.L[c]) <= tbase) {
      ChunkFacts(s, out, c);
      ReachNeeds(s.L[c]);
    }
    ClearIs(s.L, nt, nt + 8, e);
    TwoWrites(s.mem, nt + 8, nts + 1, nt + nts + 8, 80);
    LocalIs(s.mem, m1, nt + 8, e);
    FloorIs();
    FarWrites(s.mem, m1, s.L, s.D, nt, nt + 8, e);
    SameBeyondIs(s.L, L1, tbase, e);
    TopHere(m1, L1, nt, nts);
    Regional(s.mem, s.L, m1, L1, tbase, e);
  }

  // ---- the segments afterwards ----

  function Pushed(segs: seq<Seg>, tbase: int, tsize: int, rec: int): seq<Seg>
    requires segs != []
  {
    [Seg(tbase, tsize, 0), segs[0].(rec := rec)] + segs[1..]
  }

  lemma PushedIs(segs: seq<Seg>, tbase: int, tsize: int, rec: int)
    requires segs != []
    ensures var p := Pushed(segs, tbase, tsize, rec);
            |p| == |segs| + 1 && p[0] == Seg(tbase, tsize, 0) && p[1] == segs[0].(rec := rec)
            && forall k :: 2 <= k < |p| ==> p[k] == segs[k - 1]
  {
  }

  lemma PushedShapes(segs: seq<Seg>, tbase: int, tsize: int, rec: int)
    requires segs != [] && Granted(segs, tbase, tsize) && tsize > 80
    requires Separate(segs) && forall k :: 0 <= k < |segs| ==> SegShape(segs[k])
    ensures Separate(Pushed(segs, tbase, tsize, rec))
    ensures forall k :: 0 <= k < |segs| + 1 ==> SegShape(Pushed(segs, tbase, tsize, rec)[k])
  {
    var p := Pushed(segs, tbase, tsize, rec);
    forall k | 0 <= k < |p| ensures SegShape(p[k]) { if k > 0 { assert SegShape(segs[k - 1]); } }
    forall j, k | 0 <= j < k < |p| ensures p[j].base + p[j].size <= p[k].base || p[k].base + p[k].size <= p[j].base {
      if j > 0 { assert segs[j - 1].base == p[j].base && segs[k - 1].base == p[k].base; }
    }
  }

  lemma WithinPushed(segs: seq<Seg>, tbase: int, tsize: int, rec: int, a: int, e: int)
    requires segs != [] && (Within(segs, a, e) || (tbase <= a && e <= tbase + tsize))
    ensures Within(Pushed(segs, tbase, tsize, rec), a, e)
  {
    var p := Pushed(segs, tbase, tsize, rec);
    if tbase <= a && e <= tbase + tsize {
      assert InSeg(p[0], a, e);
    } else {
      var j :| 0 <= j < |segs| && InSeg(segs[j], a, e);
      assert InSeg(p[j + 1], a, e);
    }
  }

  lemma PushedTiled(L: Layout, L': Layout, segs: seq<Seg>, t: int, topsize: int, c: int, tbase: int, tsize: int,
                    nt: int, nts: int)
    requires SegsTiled(L, segs, t, topsize) && segs != [] && t in L && L[t] == Chunk(Top, topsize, true)
    requires Granted(segs, tbase, tsize) && tsize > 80 && nt == AlignUp(tbase) && nts == tbase + tsize - 80 - nt
    requires t <= c && c + 64 < t + topsize + 80 && t % 16 == 0
    requires forall x :: x in L ==> (x < tbase || x >= tbase + tsize) && (x > t ==> x >= t + topsize + 80) && nt != x
    requires L' == Retired(L[nt := Chunk(Top, nts, true)], t, c)
    ensures SegsTiled(L', Pushed(segs, tbase, tsize, c + 16), nt, nts)
  {
    hide *;
    var p := Pushed(segs, tbase, tsize, c + 16);
    SegsUnfold(L, segs, t, topsize);
    SegsUnfold(L', p, nt, nts);
    PushedIs(segs, tbase, tsize, c + 16);
    PushedShapes(segs, tbase, tsize, c + 16);
    GrantedIs(segs, tbase, tsize);
    AlignUpBounds(tbase);
    RetiredIs(L[nt := Chunk(Top, nts, true)], t, c);
    ReachTop(L[t]);
    OutsideOfGrant(segs, tbase, tsize, t, t + Reach(L[t]));
    forall k | 0 <= k < |p| ensures SegShape(p[k]) && FirstOK(L', p[k]) && FenceEnds(L', p[k]) {
      PushedFirst(L, L', segs, k, t, c, tbase, tsize, nt);
      PushedFence(L, L', segs, k, t, topsize, c, tbase, tsize, nt);
    }
    forall x | x in L' ensures Within(p, x, x + Reach(L'[x])) {
      ReachTop(L'[x]);
      if x in L && x != t {
        WithinPushed(segs, tbase, tsize, c + 16, x, x + Reach(L[x]));
      } else if x == nt {
        WithinPushed(segs, tbase, tsize, c + 16, x, x + Reach(L'[x]));
      } else {
        Shrink(segs, t, t + topsize + 80, x, x + Reach(L'[x]));
        WithinPushed(segs, tbase, tsize, c + 16, x, x + Reach(L'[x]));
      }
    }
    PushedNamed(L, L', segs, t, c, tbase, tsize, nt);
    NoRecordInIs(L, segs[0]);
    RecordOutside(L, L', segs, tbase, tsize, t, c, nt);
  }

  lemma PushedNamed(L: Layout, L': Layout, segs: seq<Seg>, t: int, c: int, tbase: int, tsize: int, nt: int)
    requires segs != [] && RecordsNamed(L, segs)
    requires forall x :: x in L' && L'[x].kind.Record? ==> x == c || (x in L && L[x].kind.Record?)
    ensures RecordsNamed(L', Pushed(segs, tbase, tsize, c + 16))
  {
    var p := Pushed(segs, tbase, tsize, c + 16);
    forall x | x in L' && L'[x].kind.Record? ensures Named(p, x) {
      if x == c {
        assert p[1].rec - 16 == x;
      } else {
        assert Named(segs, x);
        var k :| 1 <= k < |segs| && segs[k].rec - 16 == x;
        assert p[k + 1].rec - 16 == x;
      }
    }
  }

  lemma PushedFirst(L: Layout, L': Layout, segs: seq<Seg>, k: int, t: int, c: int, tbase: int, tsize: int, nt: int)
    requires segs != [] && 0 <= k <= |segs| && (forall j :: 0 <= j < |segs| ==> FirstOK(L, segs[j]))
      && nt == AlignUp(tbase)
    requires nt in L' && L'[nt].pin && t in L && t in L' && L'[t].pin
    requires forall x :: x in L && x != t ==> x in L' && L'[x] == L[x]
    ensures FirstOK(L', Pushed(segs, tbase, tsize, c + 16)[k])
  {
    hide *;
    var p := Pushed(segs, tbase, tsize, c + 16);
    PushedIs(segs, tbase, tsize, c + 16);
    FirstOKIs(L', p[k]);
    if k > 0 { FirstOKIs(L, segs[k - 1]); }
  }

  lemma PushedFence(L: Layout, L': Layout, segs: seq<Seg>, k: int, t: int, topsize: int, c: int, tbase: int, tsize: int,
                    nt: int)
    requires segs != [] && 0 <= k <= |segs| && (forall j :: 0 <= j < |segs| ==>
                                                            FenceEnds(L, segs[j]) && SegShape(segs[j]))
                                                            && Separate(segs)
    requires Granted(segs, tbase, tsize) && tbase <= nt < tbase + tsize && t in L && t <= c && c + 64 < t + topsize + 80
    requires segs[0].base <= t && t + topsize + 80 == segs[0].base + segs[0].size
    requires forall x :: x in L ==> (x < tbase || x >= tbase + tsize) && (x > t ==> x >= t + topsize + 80) && x != nt
    requires forall x :: x in L' ==> x in L || x == c || x == c + 48 || x == nt
    requires forall x :: x in L' && L'[x].kind.Fence? ==> x == c + 48 || (x in L && x != t && L[x].kind.Fence?)
    ensures FenceEnds(L', Pushed(segs, tbase, tsize, c + 16)[k])
  {
    hide *;
    var p := Pushed(segs, tbase, tsize, c + 16);
    PushedIs(segs, tbase, tsize, c + 16);
    FenceEndsIs(L', p[k]);
    GrantedIs(segs, tbase, tsize);
    SegShapeIs(segs[0]);
    if k > 0 {
      FenceEndsIs(L, segs[k - 1]);
      SegShapeIs(segs[k - 1]);
      if k > 1 { Apart(segs, 0, k - 1); }
    }
  }

  lemma Apart(segs: seq<Seg>, j: int, k: int)
    requires Separate(segs) && 0 <= j < k < |segs|
    ensures segs[j].base + segs[j].size <= segs[k].base || segs[k].base + segs[k].size <= segs[j].base
  {
  }

  lemma RecordOutside(L: Layout, L': Layout, segs: seq<Seg>, tbase: int, tsize: int, t: int, c: int, nt: int)
    requires forall x :: x in L' ==> x in L || x == c || x == c + 48 || (x == nt && L'[x].kind.Top?)
    requires forall x :: x in L ==> x < tbase || x >= tbase + tsize
    requires c + 48 < tbase || c >= tbase + tsize
    ensures NoRecordIn(L', Seg(tbase, tsize, 0))
  {
  }

  lemma PushedRecords(m: Mem, m': Mem, L: Layout, L': Layout, segs: seq<Seg>, t: int, c: int, tbase: int, tsize: int,
                      next: int)
    requires RecordsOK(m, L, segs) && segs != [] && next == (if |segs| > 1 then segs[1].rec else 0)
    requires forall x :: x in L && (L[x].kind.Record? || L[x].kind.Fence?) ==> x in L' && L'[x] == L[x]
    requires c + 48 in L' && L'[c + 48] == Chunk(Fence, 8, true) && segs[0].base <= c
      && c + 64 <= segs[0].base + segs[0].size
    requires forall x, w :: x in L && L[x].kind.Record? && x + 16 <= w < x + L[x].size + 8 ==> Rd(m', w) == Rd(m, w)
    requires c in L' && L'[c] == Chunk(Record, 48, c == t) && c > 0
    requires Rd(m', c + 16) == segs[0].base && Rd(m', c + 24) == segs[0].size && Rd(m', c + 32) == next
    ensures RecordsOK(m', L', Pushed(segs, tbase, tsize, c + 16))
  {
    var p := Pushed(segs, tbase, tsize, c + 16);
    forall k | 1 <= k < |p| ensures RecordOK(m', L', p, k) {
      if k > 1 {
        assert RecordOK(m, L, segs, k - 1);
        var r := segs[k - 1].rec - 16;
        assert r in L && L[r].kind.Record? && L[r].size == 48;
      }
    }
  }

  // ---- the whole step ----

  lemma RetiredFiled(L: Layout, L': Layout, D: map<int, int>, out: set<int>, t: int, c: int, nt: int, nts: int,
                     topsize: int)
    requires Filed(L, D, out) && t in L && L[t].kind.Top? && nt !in L && c !in D && c + 48 !in D && t <= c
    requires L' == Retired(L[nt := Chunk(Top, nts, true)], t, c) && nt != c && nt != c + 48 && nt != t
    requires forall x :: x in L ==> x != c + 48 && (x == c ==> x == t)
    ensures Filed(L', D, out + {t})
  {
  }

  lemma RetiredTop(L: Layout, L': Layout, t: int, topsize: int, c: int, nt: int, nts: int)
    requires TopOK(L, t, topsize) && t != 0 && nt !in L && nt != 0 && t <= c && nt != c && nt != c + 48 && nt != t
      && t in L
    requires L' == Retired(L[nt := Chunk(Top, nts, true)], t, c)
    ensures TopOK(L', nt, nts)
  {
  }

  lemma RetiredBlocks(L: Layout, L': Layout, t: int, c: int, nt: int, nts: int)
    requires t in L && L[t].kind.Top? && nt !in L && t <= c && nt != c && nt != c + 48 && nt != t
    requires L' == Retired(L[nt := Chunk(Top, nts, true)], t, c)
    requires forall x :: x in L ==> x != c + 48 && (x == c ==> x == t)
    ensures Blocks(L') == Blocks(L)
    ensures forall d, ds :: DvOK(L, d, ds) ==> DvOK(L', d, ds)
    ensures forall x :: x in L && x != t ==> x in L' && L'[x] == L[x]
  {
    forall x ensures x in Blocks(L') <==> x in Blocks(L) { }
    forall x | x in Blocks(L') ensures Blocks(L')[x] == Blocks(L)[x] { }
  }

  /** The memory side of it: chunks, bins and the words of other chunks. */
  lemma AddSegmentFrames(s: Snap, m': Mem, tbase: int, tsize: int, nt: int, nts: int, c: int, out: set<int>)
    requires Inv(s, out) && s.top != 0 && s.segs != [] && Granted(s.segs, tbase, tsize) && tsize >= 104
    requires nt == AlignUp(tbase) && nts == tbase + tsize - 80 - nt && c == RecordAt(s.top, s.top + s.topsize + 80)
      && s.top in s.L
    requires Local(s.mem[nt + 8 := nts + 1][nt + nts + 8 := 80], m', s.top + 8, s.top + s.topsize + 80)
    requires RetiredWords(m', s.top, c, s.segBase, s.segSize, s.segNext)
    ensures LayoutOK(m', Retired(s.L[nt := Chunk(Top, nts, true)], s.top, c))
    ensures BinsOK(m', s.smallmap, s.treemap, s.D, s.rings, s.trees)
    ensures forall x, w :: x in s.L && x != s.top && x + 8 <= w < x + s.L[x].size + 8 ==> Rd(m', w) == Rd(s.mem, w)
    ensures nts >= tsize - 88 && nt >= tbase >= 0x2000 && nt !in s.L && nt != c && nt != c + 48 && nt != s.top
    ensures s.top >= 0x2000 && s.L[s.top] == Chunk(Top, s.topsize, true) && s.top % 16 == 0
    ensures s.top <= c && (c == s.top || c - s.top >= 32) && c + 64 < s.top + s.topsize + 80
    ensures forall x :: x in s.L ==> (x < tbase || x >= tbase + tsize) && (x > s.top ==> x >= s.top + s.topsize + 80)
  {
    hide *;
    var m1 := s.mem[nt + 8 := nts + 1][nt + nts + 8 := 80];
    var L1 := s.L[nt := Chunk(Top, nts, true)];
    var t, e := s.top, s.top + s.topsize + 80;
    InvParts(s, out);
    SegsOKIs(s);
    SegsUnfold(s.L, s.segs, s.top, s.topsize);
    FiledIs(s.L, s.D, out);
    GrantedIs(s.segs, tbase, tsize);
    NewTopLayout(s, out, tbase, tsize, nt, nts);
    TopIs(s.mem, s.L, t, s.topsize);
    ChunkFacts(s, out, t);
    RecordFits(t, s.topsize);
    SegShapeIs(s.segs[0]);
    AlignUpBounds(tbase);
    assert c < e && nt != c && nt != c + 48 && nt != t;
    ClearBelow(m1, L1, t, e);
    FloorIs();
    FarWrites(m1, m', L1, s.D, t, t + 8, e);
    RetireLayout(m1, m', L1, t, c, e, s.segBase, s.segSize, s.segNext);
    AwayTwice(s.mem, m1, m', s.D);
    BinsFrame(s.mem, m', s.smallmap, s.treemap, s.D, s.rings, s.trees);
    forall x, w | x in s.L && x != t && x + 8 <= w < x + s.L[x].size + 8 ensures Rd(m', w) == Rd(s.mem, w) {
      assert x in L1 && L1[x] == s.L[x];
      assert Rd(m', w) == Rd(m1, w);
    }
  }

  lemma AddSegmentStep(s: Snap, s': Snap, tbase: int, tsize: int, nt: int, nts: int, c: int, out: set<int>)
    requires Inv(s, out) && s.top != 0 && s.segs != [] && Granted(s.segs, tbase, tsize) && tsize >= 104
    requires nt == AlignUp(tbase) && nts == tbase + tsize - 80 - nt && c == RecordAt(s.top, s.top + s.topsize + 80)
      && s.top in s.L
    requires var m1 := s.mem[nt + 8 := nts + 1][nt + nts + 8 := 80];
             Local(m1, s'.mem, s.top + 8, s.top + s.topsize + 80)
             && RetiredWords(s'.mem, s.top, c, s.segBase, s.segSize, s.segNext)
    requires s' == s.(mem := s'.mem, L := Retired(s.L[nt := Chunk(Top, nts, true)], s.top, c), top := nt,
                      topsize := nts,
                      segs := Pushed(s.segs, tbase, tsize, c + 16), segBase := tbase, segSize := tsize,
                          segNext := c + 16, least := s'.least)
    requires s'.least <= s.least && s'.least <= tbase
    ensures Inv(s', out + {s.top}) && Blocks(s'.L) == Blocks(s.L) && PayloadKept(s.mem, s'.mem, Blocks(s.L))
    ensures forall d, ds :: DvOK(s.L, d, ds) ==> DvOK(s'.L, d, ds)
    ensures c != s.top ==> s.top in s'.L && s'.L[s.top] == Chunk(Free, c - s.top, true)
    ensures c == s.top ==> s.top in s'.L && s'.L[s.top].kind.Record?
    ensures nts >= tsize - 88
  {
    hide *;
    var t := s.top;
    InvParts(s, out);
    SegsOKIs(s);
    FiledIs(s.L, s.D, out);
    SegsUnfold(s.L, s.segs, s.top, s.topsize);
    AddSegmentFrames(s, s'.mem, tbase, tsize, nt, nts, c, out);
    RetiredIs(s.L[nt := Chunk(Top, nts, true)], t, c);
    RetiredFiled(s.L, s'.L, s.D, out, t, c, nt, nts, s.topsize);
    RetiredTop(s.L, s'.L, t, s.topsize, c, nt, nts);
    RetiredBlocks(s.L, s'.L, t, c, nt, nts);
    PushedTiled(s.L, s'.L, s.segs, t, s.topsize, c, tbase, tsize, nt, nts);
    HeadSegIs(s.segs, s.segBase, s.segSize, s.segNext);
    PushedIs(s.segs, tbase, tsize, c + 16);
    HeadSegIs(s'.segs, s'.segBase, s'.segSize, s'.segNext);
    RetiredWordsIs(s'.mem, t, c, s.segBase, s.segSize, s.segNext);
    PushedRecords(s.mem, s'.mem, s.L, s'.L, s.segs, t, c, tbase, tsize, s.segNext);
    SegsOKIs(s');
    BlocksIs(s.L);
    PayloadIs(s.mem, s'.mem, Blocks(s.L));
    InvParts(s', out + {t});
  }

  lemma RetiredWordsIs(m: Mem, t: int, c: int, base: int, size: int, next: int)
    ensures RetiredWords(m, t, c, base, size, next) <==>
      && Rd(m, c + 8) == (if c == t then 51 else 50) && Rd(m, c + 56) == 11
      && (c != t ==> Rd(m, t + 8) == c - t + 1 && Rd(m, c) == c - t)
      && Rd(m, c + 16) == base && Rd(m, c + 24) == size && Rd(m, c + 32) == next
  {
  }
}
