/** calloc: a request for a product of sizes, cleared. */
module Calloc {
  import opened Words
  import opened Sizes
  import opened Layouts
  import opened State
  import opened HeapSteps
  import opened Chunks
  import opened Binning
  import opened Payload
  import opened SystemMemory
  import opened Allocate

  /** What a served request for so many bytes gives its caller. */
  lemma ServedRoom(m: MallocState, L: Layout, mem: int, bytes: U64)
    requires m.Valid() && Served(L, m.L, mem, ChunkRequest(bytes)) && mem != 0
    ensures bytes < 0xFFFF_FFFF_FFFF_FF80
    ensures mem - 16 in m.L && m.L[mem - 16].kind.Live? && mem - 16 !in Blocks(L) && mem - 16 in Blocks(m.L)
    ensures Blocks(m.L)[mem - 16] == m.L[mem - 16].size && bytes + 8 <= m.L[mem - 16].size
    ensures Blocks(m.L) == Blocks(L)[mem - 16 := m.L[mem - 16].size]
  {
    hide *;
    ServedIs(L, m.L, mem, ChunkRequest(bytes));
    ChunkRequestIs(bytes);
    BlocksIs(m.L);
    if bytes >= 0xFFFF_FFFF_FFFF_FF80 { TooLarge(m, mem, ChunkRequest(bytes), L); }
  }

  lemma ServedSameLive(L: Layout, L': Layout, mem: int, nb: int)
    requires Served(L, L', mem, nb) && mem == 0
    ensures Blocks(L') == Blocks(L)
  {
  }

  /**
   * dlcalloc: a product that overflows fails, as does one that nothing fits; else the block is cleared as far as asked
   * for.
   */
  method CallocMem(m: MallocState, nElements: U64, elemSize: U64) returns (mem: int)
    requires m.Valid()
    modifies m
    ensures m.Valid() && PayloadKept(old(m.mem), m.mem, Blocks(old(m.L)))
    ensures nElements * elemSize >= 0x1_0000_0000_0000_0000 ==> mem == 0
    ensures mem == 0 ==> Blocks(m.L) == Blocks(old(m.L))
    ensures mem == 0 <==> Denied(old(m.L), old(m.Side()), ChunkRequest(CallocRequest(nElements, elemSize)))
    ensures AskedIfNeeded(old(m.L), old(m.Side()), m.Side(), ChunkRequest(CallocRequest(nElements, elemSize)))
    ensures mem != 0 ==> Served(old(m.L), m.L, mem, ChunkRequest(CallocRequest(nElements, elemSize)))
    ensures mem != 0 ==> CallocRequest(nElements, elemSize) == nElements * elemSize
                         && ZeroBytes(m.mem, mem, CallocRequest(nElements, elemSize))
  {
    hide *;
    var req := CallocRequest(nElements, elemSize);
    ghost var L0, m0 := m.L, m.mem;
    CallocFails(nElements, elemSize);
    mem := Malloc(m, req);
    if mem == 0 {
      ServedSameLive(L0, m.L, mem, ChunkRequest(req));
    } else {
      ServedRoom(m, L0, mem, req);
      ghost var s1, c := m.Now(), mem - 16;
      NowIs(m);
      ValidIs(m);
      ConsistentIs(m, {m.dv});
      SideIs(m);
      ClearBytes(m, mem, req);
      SideIs(m);
      NowIs(m);
      BlockWrites(m, s1, c, mem, mem + req);
      PayloadThen(m0, s1.mem, m.mem, Blocks(L0), Blocks(L0), Blocks(m.L) - {c});
    }
  }

  lemma CallocFails(n: U64, size: U64)
    ensures n * size < 0x1_0000_0000_0000_0000 ==> CallocRequest(n, size) == n * size
    ensures n * size >= 0x1_0000_0000_0000_0000 ==> CallocRequest(n, size) >= 0xFFFF_FFFF_FFFF_FF80
  {
    hide *;
    CallocDetectsOverflow(n, size);
    Limits();
  }

  lemma Limits()
    ensures SIZE_T_MOD == 0x1_0000_0000_0000_0000 && MAX_SIZE_T == 0xFFFF_FFFF_FFFF_FFFF
  {
  }
}
