/** Memory as a map from the byte address of an 8-byte word to its value; words never written read as zero. */
module Memory {
  type Mem = map<int, int>

  function Rd(m: Mem, a: int): int {
    if a in m then m[a] else 0
  }

  /** Static data (the bin headers and tree roots) lies below this address and all chunks above it. */
  const HEAP_FLOOR: int := 0x2000

  /** User addresses end here (47 bits). */
  const ADDRESS_LIMIT: int := 0x8000_0000_0000

  /** smallbin_at(M, i): the bin header overlaid on the fd and bk words of a chunk at this address. */
  function SmallBinAt(i: int): int {
    0x1000 + 16 * i
  }

  /** treebin_at(M, i): the word holding the root of tree i. */
  function TreeBinAt(i: int): int {
    0x1800 + 8 * i
  }

  lemma NoKeys(D: map<int, int>)
    requires forall x :: x in D ==> false
    ensures D == map[]
  {
    assert forall x :: x in D.Keys ==> false;
  }
}
