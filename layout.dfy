/**
 * Geometry of a simplefs virtual disk: the compile-time constants of
 * simplefs.c, the constants it takes from its header, the placement of the
 * metadata regions, and the integer arithmetic on byte positions that the
 * read and append paths rely on.
 */
module Layout {

  /** A byte of a block or of a caller's buffer. */
  newtype byte = x: int | 0 <= x < 256

  /** The contents of one disk block (BLOCKSIZE bytes on a well-formed disk). */
  type Block = seq<byte>

  /** A block of zero bytes: what dd leaves and what delete writes over a released block. */
  function ZeroBlock(): (b: Block)
    ensures |b| == BLOCKSIZE && forall i :: 0 <= i < |b| ==> b[i] == 0
  {
    seq(BLOCKSIZE, _ => 0)
  }

  /** Block size in bytes (from the header; 1024 index entries x 4096 = 4194304). */
  const BLOCKSIZE: int := 4096
  /** Size of the name buffers, terminator included. */
  const MAX_NAME: int := 110
  /** Longest accepted file name, in characters. */
  const MAX_NAME_LEN: int := 109
  /** Number of 32-bit words in the free-block bitmap. */
  const BITMAP_MAX: int := 4096
  /** Number of bits of the bitmap: every block number the bitmap can name. */
  const NBLOCKS: int := 131072
  const ROOT_MAX: int := 128
  const FCB_MAX: int := 128
  const OFT_MAX: int := 16
  const INDEX_MAX: int := 1024
  /** Last block of each metadata region (the superblock is a single block). */
  const SUPERBLOCK_INDEX: int := 0
  const BITMAP_INDEX: int := 4
  const ROOT_INDEX: int := 8
  const FCB_TABLE_INDEX: int := 12
  /** Blocks 0 .. RESERVED-1 hold the superblock and the three regions. */
  const RESERVED: int := 13
  /** Largest file size: one index table of INDEX_MAX entries, BLOCKSIZE bytes each. */
  const MAX_FILE_SIZE: int := 4194304
  /** Open modes (from the header). */
  const MODE_READ: int := 0
  const MODE_APPEND: int := 1

  /** The four consecutive blocks that read_struct/write_struct move for a region ending at `upper`. */
  function RegionBlocks(upper: int): (r: seq<int>)
    ensures |r| == 4 && r[3] == upper
    ensures forall i :: 0 <= i < 3 ==> r[i] + 1 == r[i + 1]
  {
    [upper - 3, upper - 2, upper - 1, upper]
  }

  /** The region layout: bitmap in 1-4, directory in 5-8, FCB table in 9-12, and together
      with the superblock they cover exactly the reserved blocks, each once. */
  lemma RegionLayout()
    ensures RegionBlocks(BITMAP_INDEX) == [1, 2, 3, 4]
    ensures RegionBlocks(ROOT_INDEX) == [5, 6, 7, 8]
    ensures RegionBlocks(FCB_TABLE_INDEX) == [9, 10, 11, 12]
    ensures forall k :: 0 <= k < RESERVED <==>
      k == SUPERBLOCK_INDEX || k in RegionBlocks(BITMAP_INDEX) || k in RegionBlocks(ROOT_INDEX)
      || k in RegionBlocks(FCB_TABLE_INDEX)
    ensures NBLOCKS == BITMAP_MAX * 32 && MAX_FILE_SIZE == INDEX_MAX * BLOCKSIZE
  {
  }

  /** Number of blocks needed to hold n bytes: ceil(n / BLOCKSIZE), computed on integers. */
  function CeilDiv(n: int): (q: int)
    requires n >= 0
    ensures q >= 0 && q * 4096 >= n
    ensures q == 0 || (q - 1) * 4096 < n
  {
    (n + 4095) / 4096
  }

  /** Byte position i*BLOCKSIZE + k lies in block i at offset k. */
  lemma DivModBlock(i: int, k: int)
    requires i >= 0 && 0 <= k < 4096
    ensures (i * 4096 + k) / 4096 == i
    ensures (i * 4096 + k) % 4096 == k
  {
  }

  /** A position below q blocks lies in one of the first q blocks. */
  lemma BlockOfBelow(p: int, q: int)
    requires 0 <= p < q * 4096
    ensures 0 <= p / 4096 < q
  {
  }

  /** CeilDiv is the least count of blocks that covers n bytes, so it is determined by that. */
  lemma CeilDivUnique(n: int, q: int)
    requires n >= 0 && q >= 0
    requires q * 4096 >= n && (q == 0 || (q - 1) * 4096 < n)
    ensures CeilDiv(n) == q
  {
  }

  /** A size that is a multiple of the block size fills its blocks exactly. */
  lemma CeilDivExact(q: int)
    requires q >= 0
    ensures CeilDiv(q * 4096) == q
  {
  }
}
