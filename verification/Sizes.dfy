/** Sizes, request padding and the packed head word, for 64-bit words and 16-byte alignment. */
module Sizes {
  import opened Words

  const CHUNK_OVERHEAD: nat := 8
  const MIN_CHUNK_SIZE: nat := 32
  const MIN_REQUEST: nat := 23
  const MAX_REQUEST: nat := SIZE_T_MOD - 128
  const MAX_SMALL_REQUEST: nat := 232
  const MIN_LARGE_SIZE: nat := 256
  const TOP_FOOT_SIZE: nat := 80

  function PadRequest(req: nat): nat {
    (req + 23) / 16 * 16
  }

  function Request2Size(req: nat): nat {
    if req < MIN_REQUEST then MIN_CHUNK_SIZE else PadRequest(req)
  }

  /** The padded size is aligned, holds the request and its overhead, and wastes less than a minimal chunk. */
  lemma Request2SizeFits(req: nat)
    ensures Request2Size(req) % 16 == 0
    ensures MIN_CHUNK_SIZE <= Request2Size(req)
    ensures req + CHUNK_OVERHEAD <= Request2Size(req) < req + CHUNK_OVERHEAD + MIN_CHUNK_SIZE
    ensures Request2Size(req) < MIN_LARGE_SIZE <==> req <= MAX_SMALL_REQUEST
    ensures req < MAX_REQUEST ==> Request2Size(req) < SIZE_T_MOD - 96
  {
  }

  /** The bytes calloc asks for: an overflowing product becomes the largest request, which always fails. */
  function CallocRequest(n: U64, size: U64): U64 {
    if n == 0 then 0
    else
      var req := (n * size) % SIZE_T_MOD;
      if (n > 0xFFFF || size > 0xFFFF) && req / n != size then MAX_SIZE_T else req
  }

  lemma CallocDetectsOverflow(n: U64, size: U64)
    ensures n * size < SIZE_T_MOD ==> CallocRequest(n, size) == n * size
    ensures n * size >= SIZE_T_MOD ==> CallocRequest(n, size) == MAX_SIZE_T
  {
    if n > 0 {
      var prod := n * size;
      if prod < SIZE_T_MOD {
        DivUnique(prod, n, size, 0);
      } else {
        var req := prod % SIZE_T_MOD;
        if n <= 0xFFFF && size <= 0xFFFF {
          SmallProduct(n, size);
          assert false;
        }
        assert n * (req / n) <= req;
        if req / n == size {
          assert false;
        }
      }
    }
  }

  lemma SmallProduct(n: nat, size: nat)
    requires n <= 0xFFFF && size <= 0xFFFF
    ensures n * size <= 0xFFFF * 0xFFFF
  {
    assert n * size <= 0xFFFF * size by {
      assert (0xFFFF - n) * size >= 0;
    }
  }

  // ---- the head word ----

  function HeadWord(size: int, cinuse: bool, pinuse: bool): int {
    size + (if cinuse then 2 else 0) + (if pinuse then 1 else 0)
  }

  function ChunkSize(head: int): int {
    head - head % 8
  }

  predicate Cinuse(head: int) {
    head / 2 % 2 == 1
  }

  predicate Pinuse(head: int) {
    head % 2 == 1
  }

  /** Neither free nor directly mapped. */
  predicate IsInuse(head: int) {
    head % 4 != 1
  }

  predicate IsMmapped(head: int) {
    head % 4 == 0
  }

  function SetPinuse(head: int): int {
    if head % 2 == 1 then head else head + 1
  }

  function ClearPinuse(head: int): int {
    if head % 2 == 1 then head - 1 else head
  }

  /** The packed fields come back unchanged. */
  lemma HeadDecodes(size: int, c: bool, p: bool)
    requires size % 8 == 0
    ensures ChunkSize(HeadWord(size, c, p)) == size
    ensures Cinuse(HeadWord(size, c, p)) == c
    ensures Pinuse(HeadWord(size, c, p)) == p
    ensures IsInuse(HeadWord(size, c, p)) == (c || !p)
    ensures IsMmapped(HeadWord(size, c, p)) == (!c && !p)
    ensures SetPinuse(HeadWord(size, c, p)) == HeadWord(size, c, true)
    ensures ClearPinuse(HeadWord(size, c, p)) == HeadWord(size, c, false)
  {
    var k := size / 8;
    var low := (if c then 2 else 0) + (if p then 1 else 0);
    assert HeadWord(size, c, p) == 8 * k + low;
    DivUnique(8 * k + low, 8, k, low);
    DivUnique(8 * k + low, 4, 2 * k, low);
    DivUnique(8 * k + low, 2, 4 * k + low / 2, low % 2);
    DivUnique(4 * k + low / 2, 2, 2 * k, low / 2);
  }

  predicate IsSmall(s: nat) {
    s / 8 < 32
  }
}
