/**
  How the loader cuts the input into chunks: chunk c owns the row ids
  [c * size, min(c * size + size, n)), and there are ceil(n / size) chunks.
*/
module Chunks {

  /** The loader's chunk size. */
  const ChunkSize: nat := 10000

  /** (arrayLength + chunkSize - 1) / chunkSize. */
  function NumChunks(n: nat, size: nat): nat
    requires size > 0
  {
    (n + size - 1) / size
  }

  /** startIndex = chunkIndex * chunkSize. */
  function ChunkStart(c: nat, size: nat): nat
  {
    c * size
  }

  /** endIndex = Math.Min(startIndex + chunkSize, arrayLength). */
  function ChunkEnd(c: nat, size: nat, n: nat): nat
  {
    if c * size + size < n then c * size + size else n
  }

  /** Row i is processed by chunk c. */
  predicate InChunk(i: int, c: nat, size: nat, n: nat)
  {
    ChunkStart(c, size) <= i < ChunkEnd(c, size, n)
  }

  /** The position where chunk c starts, or n once the chunks have run out:
      chunk c is the range from Boundary(c) to Boundary(c + 1). */
  function Boundary(c: nat, size: nat, n: nat): nat
  {
    if c * size < n then c * size else n
  }

  lemma MulMonotone(a: nat, b: nat, size: nat)
    requires a <= b
    ensures a * size <= b * size
  {
  }

  /** The number of chunks is the ceiling of n / size: enough chunks to cover
      n rows, and one fewer would not be. */
  lemma NumChunksIsCeiling(n: nat, size: nat)
    requires size > 0
    ensures NumChunks(n, size) * size >= n
    ensures NumChunks(n, size) > 0 ==> (NumChunks(n, size) - 1) * size < n
    ensures n == 0 ==> NumChunks(n, size) == 0
  {
    var q := (n + size - 1) / size;
    var r := (n + size - 1) % size;
    assert n + size - 1 == q * size + r;
    assert 0 <= r < size;
    if q > 0 {
      assert (q - 1) * size == q * size - size;
    }
  }

  /** The chunk boundaries in terms of Boundary: every chunk is non-empty,
      runs from Boundary(c) to Boundary(c + 1), the first starts at 0 and the
      last ends at n. */
  lemma ChunkBoundaries(n: nat, size: nat)
    requires size > 0
    ensures Boundary(0, size, n) == 0
    ensures Boundary(NumChunks(n, size), size, n) == n
    ensures forall c: nat :: c < NumChunks(n, size) ==>
      && ChunkStart(c, size) == Boundary(c, size, n)
      && ChunkEnd(c, size, n) == Boundary(c + 1, size, n)
      && ChunkStart(c, size) < ChunkEnd(c, size, n) <= n
  {
    NumChunksIsCeiling(n, size);
    var k := NumChunks(n, size);
    forall c: nat | c < k
      ensures ChunkStart(c, size) == Boundary(c, size, n)
      ensures ChunkEnd(c, size, n) == Boundary(c + 1, size, n)
      ensures ChunkStart(c, size) < ChunkEnd(c, size, n) <= n
    {
      MulMonotone(c, k - 1, size);
      assert (c + 1) * size == c * size + size;
    }
  }

  /** Row i of [0, n) lies in chunk i / size, which exists. */
  lemma RowInChunk(n: nat, size: nat, i: int)
    requires size > 0 && 0 <= i < n
    ensures i / size < NumChunks(n, size) && InChunk(i, i / size, size, n)
  {
    NumChunksIsCeiling(n, size);
    var k := NumChunks(n, size);
    var c := i / size;
    assert c * size + i % size == i;
    if c >= k {
      MulMonotone(k, c, size);
      assert false;
    }
  }

  /** No row lies in two chunks. */
  lemma ChunkUnique(n: nat, size: nat, i: int, c1: nat, c2: nat)
    requires size > 0 && InChunk(i, c1, size, n) && InChunk(i, c2, size, n)
    ensures c1 == c2
  {
    if c1 < c2 {
      assert (c1 + 1) * size == c1 * size + size;
      MulMonotone(c1 + 1, c2, size);
    } else if c2 < c1 {
      assert (c2 + 1) * size == c2 * size + size;
      MulMonotone(c2 + 1, c1, size);
    }
  }

  /** A chunk only holds rows of [0, n), and only existing chunks hold rows. */
  lemma ChunkInRange(n: nat, size: nat, i: int, c: nat)
    requires size > 0 && InChunk(i, c, size, n)
    ensures 0 <= i < n && c < NumChunks(n, size)
  {
    NumChunksIsCeiling(n, size);
    if c >= NumChunks(n, size) {
      MulMonotone(NumChunks(n, size), c, size);
    }
  }

  /** The chunk ranges partition [0, n): every row lies in chunk i / size,
      which exists, and in no other chunk; no chunk holds a row outside [0, n). */
  lemma ChunkRangesPartition(n: nat, size: nat)
    requires size > 0
    ensures forall i :: 0 <= i < n ==> i / size < NumChunks(n, size) && InChunk(i, i / size, size, n)
    ensures forall i, c1: nat, c2: nat :: InChunk(i, c1, size, n) && InChunk(i, c2, size, n) ==> c1 == c2
    ensures forall i, c: nat :: InChunk(i, c, size, n) ==> 0 <= i < n && c < NumChunks(n, size)
  {
    forall i | 0 <= i < n
      ensures i / size < NumChunks(n, size) && InChunk(i, i / size, size, n)
    {
      RowInChunk(n, size, i);
    }
    forall i, c1: nat, c2: nat | InChunk(i, c1, size, n) && InChunk(i, c2, size, n)
      ensures c1 == c2
    {
      ChunkUnique(n, size, i, c1, c2);
    }
    forall i, c: nat | InChunk(i, c, size, n)
      ensures 0 <= i < n && c < NumChunks(n, size)
    {
      ChunkInRange(n, size, i, c);
    }
  }
}
