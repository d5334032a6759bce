/**
 * What append does to the persisted image: it fills the partly written last
 * block, takes new blocks first-fit and writes the rest of the data into
 * them, and grows the index table and the FCB. The proofs show that a
 * completed append keeps the image consistent, adds exactly the appended
 * bytes to the file and leaves every other file alone, and that an append
 * that runs out of free blocks part-way changes no file.
 */
module AppendEffects {
  import opened Layout
  import opened Bitmap
  import opened IndexTable
  import opened Tables
  import opened DiskImage
  import opened Effects

  /** The file's last block is partly written, so append first fills it (simplefs.c line 499). */
  predicate PartlyFilled(c: Fcb)
  {
    c.filesize != 0 && c.filesize % BLOCKSIZE != 0
  }

  /** Bytes the fill step copies into the last block: as many as fit there, at most n. */
  function FillCount(c: Fcb, n: int): (k: int)
    requires 0 <= n && c.offsetOfLastWrtBlock <= BLOCKSIZE
    ensures 0 <= k <= n
    ensures PartlyFilled(c) ==> k <= BLOCKSIZE - c.offsetOfLastWrtBlock
  {
    if !PartlyFilled(c) then 0
    else if n > BLOCKSIZE - c.offsetOfLastWrtBlock then BLOCKSIZE - c.offsetOfLastWrtBlock
    else n
  }

  /** Blocks append takes after the fill: the bytes left, over BLOCKSIZE, rounded up (line 519). */
  function NewBlocks(c: Fcb, n: int): (nb: int)
    requires 0 <= n && c.offsetOfLastWrtBlock <= BLOCKSIZE
    ensures nb >= 0
  {
    CeilDiv(n - FillCount(c, n))
  }

  /** Bytes the j-th new block receives out of the m left after the fill (lines 560-569). */
  function ChunkLen(m: int, j: int): int
  {
    if m - j * BLOCKSIZE > BLOCKSIZE then BLOCKSIZE else m - j * BLOCKSIZE
  }

  /** The block b with src copied over it from offset `at` on: a memcpy into a block buffer. */
  function Overwrite(b: Block, at: int, src: seq<byte>): (r: Block)
    requires 0 <= at && at + |src| <= |b|
    ensures |r| == |b|
    ensures forall q :: 0 <= q < |b| ==> r[q] == if at <= q < at + |src| then src[q - at] else b[q]
  {
    b[..at] + src + b[at + |src|..]
  }

  /** The blocks once the fill step has written the last block back (lines 499-517). */
  function Filled(blocks: seq<Block>, c: Fcb, data: seq<byte>): (r: seq<Block>)
    requires c.offsetOfLastWrtBlock <= BLOCKSIZE
    requires PartlyFilled(c) ==> 0 <= c.offsetOfLastWrtBlock
    requires PartlyFilled(c) ==>
      0 <= c.blockLastWritten < |blocks| && |blocks[c.blockLastWritten]| == BLOCKSIZE
    ensures |r| == |blocks|
  {
    if PartlyFilled(c) then
      var lb := c.blockLastWritten;
      blocks[lb := Overwrite(blocks[lb], c.offsetOfLastWrtBlock, data[..FillCount(c, |data|)])]
    else blocks
  }

  /** The blocks once the allocation loop has written chunk cs[j] to block ks[j], in turn. */
  function StoredChunks(blocks: seq<Block>, ks: seq<int>, cs: seq<Block>): (r: seq<Block>)
    requires |cs| == |ks| && forall i :: 0 <= i < |ks| ==> 0 <= ks[i] < |blocks|
    ensures |r| == |blocks|
    decreases |ks|
  {
    if |ks| == 0 then blocks
    else StoredChunks(blocks, ks[..|ks| - 1], cs[..|cs| - 1])[ks[|ks| - 1] := cs[|cs| - 1]]
  }

  /** When no block is written twice, block ks[j] holds cs[j] and every other block is kept. */
  lemma {:induction false} StoredChunksAt(blocks: seq<Block>, ks: seq<int>, cs: seq<Block>)
    requires |cs| == |ks| && forall i :: 0 <= i < |ks| ==> 0 <= ks[i] < |blocks|
    requires forall i, j :: 0 <= i < j < |ks| ==> ks[i] != ks[j]
    ensures forall j :: 0 <= j < |ks| ==> StoredChunks(blocks, ks, cs)[ks[j]] == cs[j]
    ensures forall k :: 0 <= k < |blocks| && k !in ks ==> StoredChunks(blocks, ks, cs)[k] == blocks[k]
    decreases |ks|
  {
    if |ks| > 0 {
      var pre, last := ks[..|ks| - 1], ks[|ks| - 1];
      StoredChunksAt(blocks, pre, cs[..|cs| - 1]);
      assert ks == pre + [last];
      assert last !in pre;
    }
  }

  /** Writing one more chunk is one more block write. */
  lemma StoredChunksSnoc(blocks: seq<Block>, ks: seq<int>, cs: seq<Block>, b: int, c: Block)
    requires |cs| == |ks| && forall i :: 0 <= i < |ks| ==> 0 <= ks[i] < |blocks|
    requires 0 <= b < |blocks|
    ensures StoredChunks(blocks, ks + [b], cs + [c]) == StoredChunks(blocks, ks, cs)[b := c]
  {
    assert (ks + [b])[..|ks|] == ks;
    assert (cs + [c])[..|cs|] == cs;
  }

  /** Every written block holds BLOCKSIZE bytes and starts with its chunk of the data that
      is left after the first k bytes went into the last block. */
  predicate ChunksOk(cs: seq<Block>, data: seq<byte>, k: int)
    requires 0 <= k <= |data|
  {
    forall j :: 0 <= j < |cs| ==>
      && |cs[j]| == BLOCKSIZE
      && 0 < ChunkLen(|data| - k, j) && k + j * BLOCKSIZE + ChunkLen(|data| - k, j) <= |data|
      && cs[j][..ChunkLen(|data| - k, j)] == data[k + j * BLOCKSIZE..k + j * BLOCKSIZE + ChunkLen(|data| - k, j)]
  }

  /** The index table with the new blocks ks entered from entry u on (lines 544-559). */
  function Extend(t: seq<int>, u: int, ks: seq<int>): (r: seq<int>)
    requires 0 <= u && u + |ks| <= |t|
    ensures |r| == |t|
  {
    t[..u] + ks + t[u + |ks|..]
  }

  /** Entries u.. hold ks and every other entry is kept. */
  lemma ExtendAt(t: seq<int>, u: int, ks: seq<int>)
    requires 0 <= u && u + |ks| <= |t|
    ensures forall i :: 0 <= i < |t| ==> Extend(t, u, ks)[i] == if u <= i < u + |ks| then ks[i - u] else t[i]
  {
  }

  /** Block numbers fit the index block's 32-bit entries. */
  lemma ExtendStorable(t: seq<int>, u: int, ks: seq<int>)
    requires Storable(t) && 0 <= u && u + |ks| <= |t|
    requires forall i :: 0 <= i < |ks| ==> 0 <= ks[i] < NBLOCKS
    ensures Storable(Extend(t, u, ks))
  {
    ExtendAt(t, u, ks);
  }

  /** Entering one more block is one more entry write. */
  lemma ExtendSnoc(t: seq<int>, u: int, ks: seq<int>, b: int)
    requires 0 <= u && u + |ks| < |t|
    ensures Extend(t, u, ks + [b]) == Extend(t, u, ks)[u + |ks| := b]
  {
  }

  /** The owner map after append: block ks[j] becomes data block u + j of FCB f. */
  function Claimed(owner: seq<Owner>, f: int, u: int, ks: seq<int>): (r: seq<Owner>)
    requires forall i :: 0 <= i < |ks| ==> 0 <= ks[i] < |owner|
    ensures |r| == |owner|
    decreases |ks|
  {
    if |ks| == 0 then owner
    else Claimed(owner, f, u, ks[..|ks| - 1])[ks[|ks| - 1] := DataOf(f, u + |ks| - 1)]
  }

  /** When no block is taken twice, ks[j] is owned as entry u + j and every other block keeps
      its owner. */
  lemma {:induction false} ClaimedAt(owner: seq<Owner>, f: int, u: int, ks: seq<int>)
    requires forall i :: 0 <= i < |ks| ==> 0 <= ks[i] < |owner|
    requires forall i, j :: 0 <= i < j < |ks| ==> ks[i] != ks[j]
    ensures forall j :: 0 <= j < |ks| ==> Claimed(owner, f, u, ks)[ks[j]] == DataOf(f, u + j)
    ensures forall k :: 0 <= k < |owner| && k !in ks ==> Claimed(owner, f, u, ks)[k] == owner[k]
    decreases |ks|
  {
    if |ks| > 0 {
      var pre, last := ks[..|ks| - 1], ks[|ks| - 1];
      ClaimedAt(owner, f, u, pre);
      assert ks == pre + [last];
      assert last !in pre;
    }
  }

  /** The FCB held in memory once the fill and the allocation loop have moved the cursor to
      the last byte written (lines 514-515 and 573-574); its size is not yet updated. */
  function Cursor(c: Fcb, n: int, ks: seq<int>): Fcb
    requires 0 <= n && c.offsetOfLastWrtBlock <= BLOCKSIZE
  {
    if |ks| > 0 then
      c.(blockLastWritten := ks[|ks| - 1], offsetOfLastWrtBlock := ChunkLen(n - FillCount(c, n), |ks| - 1))
    else if PartlyFilled(c) then c.(offsetOfLastWrtBlock := c.offsetOfLastWrtBlock + FillCount(c, n))
    else c
  }

  /** The FCB append writes back (line 580): the cursor moved and the size grown by n. */
  function AppendedFcb(c: Fcb, n: int, ks: seq<int>): Fcb
    requires 0 <= n && c.offsetOfLastWrtBlock <= BLOCKSIZE
  {
    Cursor(c, n, ks).(filesize := c.filesize + n)
  }

  /** How the sizes fit together: the used entries grow by exactly the new blocks, which stay
      within the index table, and new blocks start right after the filled last block. */
  lemma AppendRoom(c: Fcb, t: seq<int>, n: int)
    requires CursorOk(c, t) && 0 <= n && c.filesize + n <= MAX_FILE_SIZE
    ensures UsedEntries(c.filesize) + NewBlocks(c, n) == UsedEntries(c.filesize + n) <= INDEX_MAX
    ensures NewBlocks(c, n) > 0 ==> c.filesize + FillCount(c, n) == UsedEntries(c.filesize) * BLOCKSIZE
    ensures PartlyFilled(c) ==> 1 <= UsedEntries(c.filesize) && c.offsetOfLastWrtBlock < BLOCKSIZE
    ensures !PartlyFilled(c) ==> c.filesize == UsedEntries(c.filesize) * BLOCKSIZE
  {
    var u := UsedEntries(c.filesize);
    var k := FillCount(c, n);
    var m := n - k;
    if PartlyFilled(c) {
      assert c.offsetOfLastWrtBlock != BLOCKSIZE;
      if m > 0 {
        CeilDivShift(u, m);
      } else {
        CeilDivUnique(c.filesize + n, u);
      }
    } else {
      if c.filesize != 0 {
        assert c.offsetOfLastWrtBlock == BLOCKSIZE by {
          DivModBlock(u - 1, c.offsetOfLastWrtBlock % BLOCKSIZE);
        }
      }
      CeilDivShift(u, n);
    }
  }

  /** Whole blocks before a partial tail: rounding up adds the whole blocks. */
  lemma CeilDivShift(a: int, m: int)
    requires a >= 0 && m >= 0
    ensures CeilDiv(a * BLOCKSIZE + m) == a + CeilDiv(m)
  {
    CeilDivUnique(a * BLOCKSIZE + m, a + CeilDiv(m));
  }

  /** The grown FCB and index table agree: the cursor names the last byte written. */
  lemma AppendCursorOk(c: Fcb, t: seq<int>, n: int, ks: seq<int>)
    requires CursorOk(c, t) && 0 <= n && c.filesize + n <= MAX_FILE_SIZE
    requires |ks| == NewBlocks(c, n) && forall i :: 0 <= i < |ks| ==> RESERVED <= ks[i] < NBLOCKS
    ensures UsedEntries(c.filesize) + |ks| == UsedEntries(c.filesize + n) <= INDEX_MAX
    ensures CursorOk(AppendedFcb(c, n, ks), Extend(t, UsedEntries(c.filesize), ks))
  {
    AppendRoom(c, t, n);
    var u := UsedEntries(c.filesize);
    var t' := Extend(t, u, ks);
    var c' := AppendedFcb(c, n, ks);
    var m := n - FillCount(c, n);
    if |ks| > 0 {
      assert (|ks| - 1) * BLOCKSIZE < m <= |ks| * BLOCKSIZE;
      assert c'.offsetOfLastWrtBlock == m - (|ks| - 1) * BLOCKSIZE;
      assert c'.blockLastWritten == t'[u + |ks| - 1];
    } else if PartlyFilled(c) {
      assert c'.blockLastWritten == t'[u - 1];
    }
  }

  /** The blocks a completed append leaves: the filled last block, the chunks in the new
      blocks, and the grown index table written to the file's index block (lines 499-517,
      544-577 and 582). */
  function AppendedBlocks(blocks: seq<Block>, c: Fcb, t: seq<int>, data: seq<byte>, ks: seq<int>, cs: seq<Block>): (r: seq<Block>)
    requires CursorOk(c, t) && |blocks| == NBLOCKS && forall k :: 0 <= k < NBLOCKS ==> |blocks[k]| == BLOCKSIZE
    requires 0 <= c.indexTablePtr < NBLOCKS
    requires |cs| == |ks| && forall i :: 0 <= i < |ks| ==> 0 <= ks[i] < NBLOCKS
    requires UsedEntries(c.filesize) + |ks| <= INDEX_MAX
    ensures |r| == NBLOCKS
  {
    StoredChunks(Filled(blocks, c, data), ks, cs)[c.indexTablePtr := Encode(Extend(t, UsedEntries(c.filesize), ks))]
  }

  /** The image a completed append writes back (simplefs.c lines 499-584) for FCB f, the
      appended data, the blocks ks it took and the chunks cs it wrote to them: the counters
      move by |ks|, the bits of ks are cleared, the FCB carries the new size and cursor, the
      filled last block and the chunks are stored, and the index block holds the grown table. */
  function Appended(img: Image, tables: seq<seq<int>>, f: int, data: seq<byte>, ks: seq<int>, cs: seq<Block>): (r: Image)
    requires FcbsOk(img.fcbs, tables) && |img.bitmap| == BITMAP_MAX && |img.blocks| == NBLOCKS
    requires forall k :: 0 <= k < NBLOCKS ==> |img.blocks[k]| == BLOCKSIZE
    requires 0 <= f < FCB_MAX && Active(img.fcbs, f)
    requires |cs| == |ks| && forall i :: 0 <= i < |ks| ==> 0 <= ks[i] < NBLOCKS
    requires UsedEntries(img.fcbs[f].filesize) + |ks| <= INDEX_MAX
  {
    var c := img.fcbs[f];
    assert FcbOk(c, tables[f]);
    Image(
      img.sb.(blocksFree := img.sb.blocksFree - |ks|, blocksOccupied := img.sb.blocksOccupied + |ks|),
      ClearBits(img.bitmap, ks),
      img.root,
      img.fcbs[f := AppendedFcb(c, |data|, ks)],
      AppendedBlocks(img.blocks, c, tables[f], data, ks, cs))
  }

  /** sfs_append refuses before writing anything (lines 476-493): the slot is not open, it is
      open for reading, or the data would take the file past MAX_FILE_SIZE. */
  predicate AppendRefused(fcbs: seq<Fcb>, oft: seq<OftEntry>, fd: int, n: int)
    requires OftOk(oft, fcbs) && 0 <= fd < OFT_MAX
  {
    || oft[fd].fcbIndex == -1
    || oft[fd].openMode != MODE_APPEND
    || fcbs[oft[fd].fcbIndex].filesize + n > MAX_FILE_SIZE
  }

  /** One more chunk that begins with the next part of the data keeps the chunks in order. */
  lemma ChunksOkSnoc(cs: seq<Block>, data: seq<byte>, k: int, c: Block, rem: int)
    requires 0 <= k <= |data| && ChunksOk(cs, data, k) && |c| == BLOCKSIZE
    requires 0 < rem == |data| - k - |cs| * BLOCKSIZE
    requires
      var len := if rem > BLOCKSIZE then BLOCKSIZE else rem;
      c[..len] == data[|data| - rem..|data| - rem + len]
    ensures ChunksOk(cs + [c], data, k)
  {
    var len := ChunkLen(|data| - k, |cs|);
    assert k + |cs| * BLOCKSIZE == |data| - rem;
    assert c[..len] == data[k + |cs| * BLOCKSIZE..k + |cs| * BLOCKSIZE + len];
  }

  /** The state of the allocation loop (lines 519-578) after it took the blocks ks and wrote
      the chunks cs: the bitmap copy has their bits cleared, the index-table buffer names them
      from the file's first unused entry on, and the disk holds the chunks. */
  predicate Allocating(bm0: seq<Word>, t0: seq<int>, blocks0: seq<Block>, c: Fcb, data: seq<byte>,
                       ks: seq<int>, cs: seq<Block>, bm: seq<Word>, t: seq<int>, blocks: seq<Block>)
  {
    && CursorOk(c, t0) && |bm0| == BITMAP_MAX && |blocks0| == NBLOCKS
    && c.filesize + |data| <= MAX_FILE_SIZE
    && |ks| <= NewBlocks(c, |data|) && |cs| == |ks|
    && FirstFits(bm0, ks) && bm == ClearBits(bm0, ks)
    && UsedEntries(c.filesize) + NewBlocks(c, |data|) <= INDEX_MAX
    && t == Extend(t0, UsedEntries(c.filesize), ks)
    && ChunksOk(cs, data, FillCount(c, |data|))
    && blocks == StoredChunks(blocks0, ks, cs)
  }

  /** Before the loop nothing is taken yet. */
  lemma AllocStart(bm0: seq<Word>, t0: seq<int>, blocks0: seq<Block>, c: Fcb, data: seq<byte>)
    requires CursorOk(c, t0) && |bm0| == BITMAP_MAX && |blocks0| == NBLOCKS
    requires c.filesize + |data| <= MAX_FILE_SIZE
    ensures Allocating(bm0, t0, blocks0, c, data, [], [], bm0, t0, blocks0)
  {
    AppendRoom(c, t0, |data|);
    assert Extend(t0, UsedEntries(c.filesize), []) == t0;
  }

  /** While blocks are still needed, the first unused entry of the buffer is the one after
      the blocks taken so far. */
  lemma AllocEntry(bm0: seq<Word>, t0: seq<int>, blocks0: seq<Block>, c: Fcb, data: seq<byte>,
                   ks: seq<int>, cs: seq<Block>, bm: seq<Word>, t: seq<int>, blocks: seq<Block>)
    requires Allocating(bm0, t0, blocks0, c, data, ks, cs, bm, t, blocks)
    requires |ks| < NewBlocks(c, |data|)
    ensures |t| == INDEX_MAX && UsedEntries(c.filesize) + |ks| < INDEX_MAX
    ensures t[UsedEntries(c.filesize) + |ks|] == -1
    ensures forall i :: 0 <= i < UsedEntries(c.filesize) + |ks| ==> t[i] != -1
  {
  }

  /** One turn of the loop while blocks are still needed, rem bytes of the data being left:
      taking the lowest free block b, entering it at the first unused entry and writing the
      next chunk (the next min(rem, BLOCKSIZE) bytes) to it keeps the loop's state; the turn
      is the last one exactly when rem fits in one block. */
  lemma AllocStep(bm0: seq<Word>, t0: seq<int>, blocks0: seq<Block>, c: Fcb, data: seq<byte>,
                  ks: seq<int>, cs: seq<Block>, bm: seq<Word>, t: seq<int>, blocks: seq<Block>,
                  rem: int, b: int, chunk: Block, bm': seq<Word>, t': seq<int>, blocks': seq<Block>)
    requires Allocating(bm0, t0, blocks0, c, data, ks, cs, bm, t, blocks)
    requires |ks| < NewBlocks(c, |data|) && rem == |data| - FillCount(c, |data|) - |ks| * BLOCKSIZE
    requires LowestFree(bm, b) && |chunk| == BLOCKSIZE
    requires
      var toCopy := if rem > BLOCKSIZE then BLOCKSIZE else rem;
      0 <= |data| - rem <= |data| - rem + toCopy <= |data|
      && chunk[..toCopy] == data[|data| - rem..|data| - rem + toCopy]
    requires bm' == ClearBit(bm, b) && blocks' == blocks[b := chunk]
    requires t' == t[UsedEntries(c.filesize) + |ks| := b]
    ensures |ks| + 1 < NewBlocks(c, |data|) ==> rem > BLOCKSIZE
    ensures |ks| + 1 == NewBlocks(c, |data|) ==> 0 < rem <= BLOCKSIZE
    ensures Allocating(bm0, t0, blocks0, c, data, ks + [b], cs + [chunk], bm', t', blocks')
  {
    var u, k, m := UsedEntries(c.filesize), FillCount(c, |data|), |data| - FillCount(c, |data|);
    var j := |ks|;
    assert 0 < m - j * BLOCKSIZE by {
      assert (NewBlocks(c, |data|) - 1) * BLOCKSIZE < m;
    }
    if j + 1 < NewBlocks(c, |data|) {
      assert (j + 1) * BLOCKSIZE < m by {
        assert (NewBlocks(c, |data|) - 1) * BLOCKSIZE < m;
      }
    }
    ClearBitsSnoc(bm0, ks, b);
    FirstFitsSnoc(bm0, ks, b);
    ExtendSnoc(t0, u, ks, b);
    StoredChunksSnoc(blocks0, ks, cs, b, chunk);
    ChunksOkSnoc(cs, data, k, chunk, rem);
  }

  /** One completed turn of the allocation loop on the state copies: the loop's state holds
      for the blocks ks + [b], the counters move by one more block, the cursor moves to b, and
      the bytes left shrink by the chunk. */
  lemma TurnTaken(bm0: seq<Word>, t0: seq<int>, blocks0: seq<Block>, c: Fcb, data: seq<byte>,
                  ks: seq<int>, cs: seq<Block>, bm: seq<Word>, t: seq<int>, blocks: seq<Block>,
                  rem: int, b: int, chunk: Block, bm': seq<Word>, t': seq<int>, blocks': seq<Block>,
                  sb0: Superblock, sb: Superblock, sb': Superblock,
                  fc0: seq<Fcb>, f: int, fc: seq<Fcb>, fc': seq<Fcb>)
    requires Allocating(bm0, t0, blocks0, c, data, ks, cs, bm, t, blocks)
    requires |ks| < NewBlocks(c, |data|) && rem == |data| - FillCount(c, |data|) - |ks| * BLOCKSIZE
    requires LowestFree(bm, b) && |chunk| == BLOCKSIZE
    requires
      var toCopy := if rem > BLOCKSIZE then BLOCKSIZE else rem;
      0 <= |data| - rem <= |data| - rem + toCopy <= |data|
      && chunk[..toCopy] == data[|data| - rem..|data| - rem + toCopy]
    requires bm' == ClearBit(bm, b) && blocks' == blocks[b := chunk]
    requires t' == t[UsedEntries(c.filesize) + |ks| := b]
    requires sb == sb0.(blocksFree := sb0.blocksFree - |ks|, blocksOccupied := sb0.blocksOccupied + |ks|)
    requires sb' == sb.(blocksFree := sb.blocksFree - 1, blocksOccupied := sb.blocksOccupied + 1)
    requires 0 <= f < |fc0| && fc == fc0[f := Cursor(c, |data|, ks)]
    requires fc' == fc[f := fc[f].(blockLastWritten := b,
                                   offsetOfLastWrtBlock := if rem > BLOCKSIZE then BLOCKSIZE else rem)]
    ensures Allocating(bm0, t0, blocks0, c, data, ks + [b], cs + [chunk], bm', t', blocks')
    ensures sb' == sb0.(blocksFree := sb0.blocksFree - (|ks| + 1), blocksOccupied := sb0.blocksOccupied + (|ks| + 1))
    ensures fc' == fc0[f := Cursor(c, |data|, ks + [b])]
    ensures
      var rem' := rem - if rem > BLOCKSIZE then BLOCKSIZE else rem;
      && (|ks| + 1 < NewBlocks(c, |data|) ==> rem' == |data| - FillCount(c, |data|) - (|ks| + 1) * BLOCKSIZE)
      && (|ks| + 1 == NewBlocks(c, |data|) ==> rem' == 0)
  {
    AllocStep(bm0, t0, blocks0, c, data, ks, cs, bm, t, blocks, rem, b, chunk, bm', t', blocks');
    CursorSnoc(c, |data|, ks, b, rem);
  }

  /** Each new block moves the cursor to itself, at the length of the chunk it received. */
  lemma CursorSnoc(c: Fcb, n: int, ks: seq<int>, b: int, rem: int)
    requires 0 <= n && c.offsetOfLastWrtBlock <= BLOCKSIZE
    requires rem == n - FillCount(c, n) - |ks| * BLOCKSIZE
    ensures Cursor(c, n, ks + [b])
         == Cursor(c, n, ks).(blockLastWritten := b, offsetOfLastWrtBlock := if rem > BLOCKSIZE then BLOCKSIZE else rem)
  {
  }

  /** One completed append of `data` to FCB f: the size stays within MAX_FILE_SIZE, the blocks
      ks are the ones first-fit takes, as many as the data left after the fill needs, each
      chunk begins with its part of the data, and the image, the tables and the owner map take
      their forms after append. */
  predicate AppendStep(img: Image, tables: seq<seq<int>>, owner: seq<Owner>, f: int, data: seq<byte>,
                       ks: seq<int>, cs: seq<Block>, img': Image, tables': seq<seq<int>>, owner': seq<Owner>)
    requires ImageOk(img, tables, owner) && 0 <= f < FCB_MAX && Active(img.fcbs, f)
  {
    var c := img.fcbs[f];
    var u := UsedEntries(c.filesize);
    && c.filesize + |data| <= MAX_FILE_SIZE
    && |ks| == NewBlocks(c, |data|) && FirstFits(img.bitmap, ks)
    && |cs| == |ks| && ChunksOk(cs, data, FillCount(c, |data|))
    && u + |ks| <= INDEX_MAX
    && img' == Appended(img, tables, f, data, ks, cs)
    && tables' == tables[f := Extend(tables[f], u, ks)]
    && owner' == Claimed(owner, f, u, ks)
  }

  /** One append of `data` to FCB f that runs out of free blocks part-way (lines 537-541):
      first-fit took the blocks ks, fewer than needed, until no bit was left, and only the
      filled last block and the chunks written so far reached the disk. */
  predicate AppendFails(img: Image, tables: seq<seq<int>>, owner: seq<Owner>, f: int, data: seq<byte>,
                        ks: seq<int>, cs: seq<Block>, img': Image)
    requires ImageOk(img, tables, owner) && 0 <= f < FCB_MAX && Active(img.fcbs, f)
  {
    var c := img.fcbs[f];
    && c.filesize + |data| <= MAX_FILE_SIZE
    && |ks| < NewBlocks(c, |data|) && FirstFits(img.bitmap, ks)
    && (forall j :: 0 <= j < NBLOCKS ==> !Bit(ClearBits(img.bitmap, ks), j))
    && |cs| == |ks| && ChunksOk(cs, data, FillCount(c, |data|))
    && img' == img.(blocks := StoredChunks(Filled(img.blocks, c, data), ks, cs))
  }

  /** The allocation loop run to completion on the filled image, followed by the write-back
      of the superblock, the index block, the bitmap and the FCB, is one completed append. */
  lemma AllocatedAppends(img: Image, tables: seq<seq<int>>, owner: seq<Owner>, f: int, data: seq<byte>,
                         ks: seq<int>, cs: seq<Block>, bm: seq<Word>, t: seq<int>, blocks: seq<Block>, img': Image)
    requires ImageOk(img, tables, owner) && 0 <= f < FCB_MAX && Active(img.fcbs, f)
    requires img.fcbs[f].filesize + |data| <= MAX_FILE_SIZE
    requires
      var c := img.fcbs[f];
      && Allocating(img.bitmap, tables[f], Filled(img.blocks, c, data), c, data, ks, cs, bm, t, blocks)
      && |ks| == NewBlocks(c, |data|) && Storable(t)
      && img' == Image(img.sb.(blocksFree := img.sb.blocksFree - |ks|, blocksOccupied := img.sb.blocksOccupied + |ks|),
                       bm, img.root, img.fcbs[f := AppendedFcb(c, |data|, ks)], blocks[c.indexTablePtr := Encode(t)])
    ensures
      var u := UsedEntries(img.fcbs[f].filesize);
      AppendStep(img, tables, owner, f, data, ks, cs, img', tables[f := Extend(tables[f], u, ks)],
                 Claimed(owner, f, u, ks))
  {
    assert FcbOk(img.fcbs[f], tables[f]);
    FirstFitsFree(img.bitmap, ks);
    assert img' == Appended(img, tables, f, data, ks, cs);
  }

  /** The allocation loop stopped early on the filled image, with no free bit left: an append
      that fails, having written the filled last block and the chunks. */
  lemma AllocatedFails(img: Image, tables: seq<seq<int>>, owner: seq<Owner>, f: int, data: seq<byte>,
                       ks: seq<int>, cs: seq<Block>, bm: seq<Word>, t: seq<int>, blocks: seq<Block>, img': Image)
    requires ImageOk(img, tables, owner) && 0 <= f < FCB_MAX && Active(img.fcbs, f)
    requires img.fcbs[f].filesize + |data| <= MAX_FILE_SIZE
    requires
      var c := img.fcbs[f];
      && Allocating(img.bitmap, tables[f], Filled(img.blocks, c, data), c, data, ks, cs, bm, t, blocks)
      && |ks| < NewBlocks(c, |data|)
      && (forall j :: 0 <= j < NBLOCKS ==> !Bit(bm, j))
      && img' == img.(blocks := blocks)
    ensures AppendFails(img, tables, owner, f, data, ks, cs, img')
  {
  }

  /** The blocks first-fit takes are distinct free blocks past the reserved ones. */
  lemma TakenBlocksFree(img: Image, tables: seq<seq<int>>, owner: seq<Owner>, ks: seq<int>)
    requires ImageOk(img, tables, owner) && FirstFits(img.bitmap, ks)
    ensures forall i :: 0 <= i < |ks| ==> RESERVED <= ks[i] < NBLOCKS && Bit(img.bitmap, ks[i]) && owner[ks[i]] == Free
    ensures forall k :: 0 <= k < NBLOCKS && k in ks ==> owner[k] == Free
    ensures forall i, j :: 0 <= i < j < |ks| ==> ks[i] != ks[j]
  {
    FirstFitsFree(img.bitmap, ks);
  }

  /** The last block of a partly filled file is its last used data block. */
  lemma LastBlockOwned(img: Image, tables: seq<seq<int>>, owner: seq<Owner>, f: int)
    requires ImageOk(img, tables, owner) && 0 <= f < FCB_MAX && Active(img.fcbs, f)
    requires PartlyFilled(img.fcbs[f])
    ensures 1 <= UsedEntries(img.fcbs[f].filesize) && img.fcbs[f].offsetOfLastWrtBlock < BLOCKSIZE
    ensures img.fcbs[f].blockLastWritten == tables[f][UsedEntries(img.fcbs[f].filesize) - 1]
    ensures owner[img.fcbs[f].blockLastWritten] == DataOf(f, UsedEntries(img.fcbs[f].filesize) - 1)
  {
    assert FcbOk(img.fcbs[f], tables[f]);
    AppendRoom(img.fcbs[f], tables[f], 0);
  }

  /** The blocks after the fill and the chunk writes, block by block: chunk j is in block
      ks[j], the last block of a partly filled file has the data's first bytes from the cursor
      on, and every other block is as before. */
  lemma ChunkedBlocksAt(blocks: seq<Block>, c: Fcb, data: seq<byte>, ks: seq<int>, cs: seq<Block>)
    requires |blocks| == NBLOCKS && forall k :: 0 <= k < NBLOCKS ==> |blocks[k]| == BLOCKSIZE
    requires forall i :: 0 <= i < |ks| ==> 0 <= ks[i] < NBLOCKS
    requires forall i, j :: 0 <= i < j < |ks| ==> ks[i] != ks[j]
    requires c.offsetOfLastWrtBlock <= BLOCKSIZE
    requires PartlyFilled(c) ==>
      0 <= c.offsetOfLastWrtBlock && 0 <= c.blockLastWritten < NBLOCKS && c.blockLastWritten !in ks
    requires |cs| == |ks| && ChunksOk(cs, data, FillCount(c, |data|))
    ensures
      var b := StoredChunks(Filled(blocks, c, data), ks, cs);
      && |b| == NBLOCKS
      && (forall k :: 0 <= k < NBLOCKS ==> |b[k]| == BLOCKSIZE)
      && (forall j :: 0 <= j < |ks| ==> b[ks[j]] == cs[j])
      && (PartlyFilled(c) ==>
            b[c.blockLastWritten] == Overwrite(blocks[c.blockLastWritten], c.offsetOfLastWrtBlock, data[..FillCount(c, |data|)]))
      && (forall k :: 0 <= k < NBLOCKS && k !in ks && (PartlyFilled(c) ==> k != c.blockLastWritten) ==> b[k] == blocks[k])
  {
    StoredChunksAt(Filled(blocks, c, data), ks, cs);
  }

  /** A partly filled last block of a file holds, after append, its old bytes up to the cursor
      and then the data's first bytes; the table still names it. */
  predicate LastFilled(blocks: seq<Block>, blocks': seq<Block>, t: seq<int>, t': seq<int>, c: Fcb, data: seq<byte>)
    requires CursorOk(c, t)
  {
    PartlyFilled(c) ==>
      && 1 <= UsedEntries(c.filesize) <= |t'|
      && t'[UsedEntries(c.filesize) - 1] == t[UsedEntries(c.filesize) - 1]
      && 0 <= t[UsedEntries(c.filesize) - 1] < |blocks| && t[UsedEntries(c.filesize) - 1] < |blocks'|
      && |blocks[t[UsedEntries(c.filesize) - 1]]| == BLOCKSIZE
      && blocks'[t[UsedEntries(c.filesize) - 1]]
         == Overwrite(blocks[t[UsedEntries(c.filesize) - 1]], c.offsetOfLastWrtBlock, data[..FillCount(c, |data|)])
  }

  /** How the blocks and the table of a file look after append, against before: the table
      keeps its used entries and enters the new blocks ks after them, the blocks the file had
      keep their bytes except the last one of a partly filled file, which holds the data's
      first bytes from the cursor on, and block ks[j] holds chunk cs[j]. */
  predicate AppendLayout(blocks: seq<Block>, blocks': seq<Block>, t: seq<int>, t': seq<int>, c: Fcb,
                         data: seq<byte>, ks: seq<int>, cs: seq<Block>)
  {
    && CursorOk(c, t) && c.filesize + |data| <= MAX_FILE_SIZE && |blocks'| == |blocks|
    && Addressable(blocks, t, c.filesize) && Addressable(blocks', t', c.filesize + |data|)
    && |ks| == NewBlocks(c, |data|)
    && (forall i :: 0 <= i < UsedEntries(c.filesize) ==> t'[i] == t[i])
    && (forall i :: 0 <= i < UsedEntries(c.filesize) && !(PartlyFilled(c) && i == UsedEntries(c.filesize) - 1)
          ==> blocks'[t[i]] == blocks[t[i]])
    && LastFilled(blocks, blocks', t, t', c, data)
    && ChunksPlaced(blocks', t', UsedEntries(c.filesize), ks, cs, data, FillCount(c, |data|))
  }

  /** After append the file starts with its old bytes. */
  lemma OldBytesKept(blocks: seq<Block>, blocks': seq<Block>, t: seq<int>, t': seq<int>, c: Fcb,
                     data: seq<byte>, ks: seq<int>, cs: seq<Block>)
    requires AppendLayout(blocks, blocks', t, t', c, data, ks, cs)
    ensures forall p :: 0 <= p < c.filesize ==>
              FileBytes(blocks', t', c.filesize + |data|)[p] == FileBytes(blocks, t, c.filesize)[p]
  {
    var s, u := c.filesize, UsedEntries(c.filesize);
    forall i, q | 0 <= i < u && 0 <= q < BLOCKSIZE && i * BLOCKSIZE + q < s
      ensures blocks'[t[i]][q] == blocks[t[i]][q]
    {
      if PartlyFilled(c) && i == u - 1 {
        assert q < c.offsetOfLastWrtBlock;
      }
    }
    FileBytesPrefix(blocks, blocks', t, t', s, s + |data|);
  }

  /** After append the bytes the fill step wrote follow the old end of the file. */
  lemma FilledBytes(blocks: seq<Block>, blocks': seq<Block>, t: seq<int>, t': seq<int>, c: Fcb,
                    data: seq<byte>, size': int)
    requires CursorOk(c, t) && Addressable(blocks', t', size') && c.filesize + FillCount(c, |data|) <= size'
    requires LastFilled(blocks, blocks', t, t', c, data)
    ensures forall p :: c.filesize <= p < c.filesize + FillCount(c, |data|) ==>
              FileBytes(blocks', t', size')[p] == data[p - c.filesize]
  {
    if !PartlyFilled(c) {
      return;
    }
    var u := UsedEntries(c.filesize);
    forall p | c.filesize <= p < c.filesize + FillCount(c, |data|)
      ensures FileBytes(blocks', t', size')[p] == data[p - c.filesize]
    {
      FileBytesAt(blocks', t', size', u - 1, c.offsetOfLastWrtBlock + p - c.filesize);
    }
  }

  /** Table entries u, u+1, ... name the blocks ks, and block ks[j] holds chunk cs[j] of the
      data left after its first k bytes, which the chunks cover. */
  predicate ChunksPlaced(blocks': seq<Block>, t': seq<int>, u: int, ks: seq<int>, cs: seq<Block>,
                         data: seq<byte>, k: int)
    requires 0 <= k <= |data|
  {
    && 0 <= u && |cs| == |ks| && ChunksOk(cs, data, k) && |data| - k <= |ks| * BLOCKSIZE
    && u + |ks| <= |t'| && (forall j :: 0 <= j < |ks| ==> 0 <= ks[j] < |blocks'|)
    && (forall j :: 0 <= j < |ks| ==> t'[u + j] == ks[j] && blocks'[ks[j]] == cs[j])
  }

  /** The chunks in the new blocks, entered from entry u on, are the file's bytes from block u
      on, where the data that is left after its first k bytes continues: the file's byte
      start + x is data[x] for x past k. */
  lemma ChunkBytes(blocks': seq<Block>, t': seq<int>, u: int, ks: seq<int>, cs: seq<Block>, data: seq<byte>,
                   k: int, start: int, size': int)
    requires Addressable(blocks', t', size') && 0 <= k <= |data| && size' == start + |data|
    requires |ks| > 0 ==> start + k == u * BLOCKSIZE
    requires ChunksPlaced(blocks', t', u, ks, cs, data, k)
    ensures forall p :: start + k <= p < size' ==> FileBytes(blocks', t', size')[p] == data[p - start]
  {
    if |ks| == 0 {
      return;
    }
    forall p | start + k <= p < size'
      ensures FileBytes(blocks', t', size')[p] == data[p - start]
    {
      var x := p - start;
      var j, r := (x - k) / BLOCKSIZE, (x - k) % BLOCKSIZE;
      assert x - k == j * BLOCKSIZE + r;
      assert j < |ks|;
      FileBytesAt(blocks', t', size', u + j, r);
      assert (u + j) * BLOCKSIZE + r == start + x;
      assert r < ChunkLen(|data| - k, j);
      assert cs[j][..ChunkLen(|data| - k, j)][r] == cs[j][r];
    }
  }
  /** After append the data follows the old end of the file: first the bytes the fill step
      wrote, then the new blocks' chunks. */
  lemma NewBytes(blocks: seq<Block>, blocks': seq<Block>, t: seq<int>, t': seq<int>, c: Fcb,
                 data: seq<byte>, ks: seq<int>, cs: seq<Block>)
    requires CursorOk(c, t) && c.filesize + |data| <= MAX_FILE_SIZE
    requires Addressable(blocks', t', c.filesize + |data|) && |ks| == NewBlocks(c, |data|)
    requires LastFilled(blocks, blocks', t, t', c, data)
    requires ChunksPlaced(blocks', t', UsedEntries(c.filesize), ks, cs, data, FillCount(c, |data|))
    ensures forall p {:trigger FileBytes(blocks', t', c.filesize + |data|)[p]} ::
              c.filesize <= p < c.filesize + |data| ==>
              FileBytes(blocks', t', c.filesize + |data|)[p] == data[p - c.filesize]
  {
    var s, n := c.filesize, |data|;
    FilledBytes(blocks, blocks', t, t', c, data, s + n);
    AppendRoom(c, t, n);
    ChunkBytes(blocks', t', UsedEntries(s), ks, cs, data, FillCount(c, n), s, s + n);
  }

  /** A sequence is pre followed by d when it agrees with pre below m, pre's length, and with
      d from there on. */
  lemma Joined<T>(b: seq<T>, pre: seq<T>, d: seq<T>, m: int)
    requires |pre| == m && |b| == m + |d|
    requires forall p :: 0 <= p < m ==> b[p] == pre[p]
    requires forall p :: m <= p < m + |d| ==> b[p] == d[p - m]
    ensures b == pre + d
  {
  }

  /** The bytes of a file after append are its old bytes followed by the data. */
  lemma AppendedBytes(blocks: seq<Block>, blocks': seq<Block>, t: seq<int>, t': seq<int>, c: Fcb,
                      data: seq<byte>, ks: seq<int>, cs: seq<Block>)
    requires AppendLayout(blocks, blocks', t, t', c, data, ks, cs)
    ensures FileBytes(blocks', t', c.filesize + |data|) == FileBytes(blocks, t, c.filesize) + data
  {
    OldBytesKept(blocks, blocks', t, t', c, data, ks, cs);
    NewBytes(blocks, blocks', t, t', c, data, ks, cs);
    Joined(FileBytes(blocks', t', c.filesize + |data|), FileBytes(blocks, t, c.filesize), data, c.filesize);
  }

  /** Blocks ks, free before, become data blocks u, u+1, ... of FCB f; no other block changes
      owner. */
  predicate Takes(owner: seq<Owner>, owner': seq<Owner>, f: int, u: int, ks: seq<int>)
  {
    && |owner| == NBLOCKS && |owner'| == NBLOCKS
    && (forall i :: 0 <= i < |ks| ==> 0 <= ks[i] < NBLOCKS)
    && (forall k :: 0 <= k < NBLOCKS && k !in ks ==> owner'[k] == owner[k])
    && (forall k :: 0 <= k < NBLOCKS && k in ks ==> owner[k] == Free && owner'[k].DataOf?)
    && (forall j :: 0 <= j < |ks| ==> owner'[ks[j]] == DataOf(f, u + j))
  }

  /** FCB f, in use with u entries, becomes c' with the same index block, its table t' keeping
      those entries and entering ks after them; the FCBs and tables stay well formed. */
  predicate Grows(fcbs: seq<Fcb>, tables: seq<seq<int>>, f: int, u: int, ks: seq<int>, c': Fcb, t': seq<int>)
    requires FcbsOk(fcbs, tables)
  {
    && 0 <= f < FCB_MAX && Active(fcbs, f) && u == UsedEntries(fcbs[f].filesize)
    && c'.indexTablePtr == fcbs[f].indexTablePtr && 0 <= c'.filesize <= MAX_FILE_SIZE
    && u + |ks| == UsedEntries(c'.filesize) <= |t'|
    && (forall i :: 0 <= i < u ==> t'[i] == tables[f][i])
    && (forall j :: 0 <= j < |ks| ==> t'[u + j] == ks[j])
    && FcbsOk(fcbs[f := c'], tables[f := t'])
  }

  /** Claiming distinct free blocks takes exactly them. */
  lemma ClaimedTakes(bm: seq<Word>, owner: seq<Owner>, f: int, u: int, ks: seq<int>)
    requires FreeAgrees(bm, owner)
    requires forall i :: 0 <= i < |ks| ==> 0 <= ks[i] < NBLOCKS && Bit(bm, ks[i])
    requires forall i, j :: 0 <= i < j < |ks| ==> ks[i] != ks[j]
    ensures Takes(owner, Claimed(owner, f, u, ks), f, u, ks)
  {
    var owner' := Claimed(owner, f, u, ks);
    ClaimedAt(owner, f, u, ks);
    forall k | 0 <= k < NBLOCKS && k in ks
      ensures owner[k] == Free && owner'[k].DataOf?
    {
      var j :| 0 <= j < |ks| && ks[j] == k;
    }
  }

  /** Every FCB in use still owns its index block and the blocks its used entries name. */
  lemma GrownFilesOwned(fcbs: seq<Fcb>, tables: seq<seq<int>>, owner: seq<Owner>, f: int, u: int,
                        ks: seq<int>, c': Fcb, t': seq<int>, owner': seq<Owner>)
    requires FcbsOk(fcbs, tables) && |owner| == NBLOCKS && FilesOwned(fcbs, tables, owner)
    requires Grows(fcbs, tables, f, u, ks, c', t') && Takes(owner, owner', f, u, ks)
    ensures FilesOwned(fcbs[f := c'], tables[f := t'], owner')
  {
    var fcbs', tables' := fcbs[f := c'], tables[f := t'];
    forall g | 0 <= g < FCB_MAX && Active(fcbs', g)
      ensures owner'[fcbs'[g].indexTablePtr] == IndexOf(g)
    {
      assert owner[fcbs[g].indexTablePtr] == IndexOf(g);
    }
    forall g, i | 0 <= g < FCB_MAX && Active(fcbs', g) && 0 <= i < UsedEntries(fcbs'[g].filesize)
      ensures owner'[tables'[g][i]] == DataOf(g, i)
    {
      if g != f || i < u {
        assert owner[tables[g][i]] == DataOf(g, i);
      } else {
        assert owner'[ks[i - u]] == DataOf(f, u + (i - u));
      }
    }
  }

  /** The owners still point back correctly after append: an index block's FCB is in use
      with that index block, and a data block's FCB is in use and names the block at the
      entry the owner records; the taken blocks are FCB f's new entries u... */
  lemma GrownOwnersBack(fcbs: seq<Fcb>, tables: seq<seq<int>>, owner: seq<Owner>, f: int, u: int,
                          ks: seq<int>, c': Fcb, t': seq<int>, owner': seq<Owner>)
    requires FcbsOk(fcbs, tables) && |owner| == NBLOCKS && OwnersBack(fcbs, tables, owner)
    requires Grows(fcbs, tables, f, u, ks, c', t') && Takes(owner, owner', f, u, ks)
    ensures OwnersBack(fcbs[f := c'], tables[f := t'], owner')
  {
    var fcbs', tables' := fcbs[f := c'], tables[f := t'];
    forall k | 0 <= k < NBLOCKS && owner'[k].IndexOf?
      ensures 0 <= owner'[k].fcb < FCB_MAX && Active(fcbs', owner'[k].fcb)
      ensures fcbs'[owner'[k].fcb].indexTablePtr == k
    {
      assert k !in ks;
    }
    forall k | 0 <= k < NBLOCKS && owner'[k].DataOf?
      ensures 0 <= owner'[k].fcb < FCB_MAX && Active(fcbs', owner'[k].fcb)
      ensures 0 <= owner'[k].pos < UsedEntries(fcbs'[owner'[k].fcb].filesize)
      ensures tables'[owner'[k].fcb][owner'[k].pos] == k
    {
      if k in ks {
        var j :| 0 <= j < |ks| && ks[j] == k;
        assert owner'[k] == DataOf(f, u + j);
      } else {
        assert owner'[k] == owner[k];
      }
    }
  }

  /** Clearing the bits of the taken blocks, which are no longer free or reserved, keeps the
      bitmap marking exactly the free blocks. */
  lemma GrownBits(bm: seq<Word>, owner: seq<Owner>, f: int, u: int, ks: seq<int>, owner': seq<Owner>)
    requires FreeAgrees(bm, owner) && Takes(owner, owner', f, u, ks)
    ensures FreeAgrees(ClearBits(bm, ks), owner')
  {
    ClearBitsAt(bm, ks);
  }

  /** Taking the free blocks ks as entries u.. of FCB f keeps the owner map in agreement with
      the bitmap (their bits cleared), the FCBs (f grown to c') and the tables (f's extended). */
  lemma GrownOwnersOk(bm: seq<Word>, fcbs: seq<Fcb>, tables: seq<seq<int>>, owner: seq<Owner>,
                      f: int, ks: seq<int>, c': Fcb)
    requires FcbsOk(fcbs, tables) && OwnersOk(bm, fcbs, tables, owner)
    requires 0 <= f < FCB_MAX && Active(fcbs, f)
    requires forall i :: 0 <= i < |ks| ==> 0 <= ks[i] < NBLOCKS && Bit(bm, ks[i])
    requires forall i, j :: 0 <= i < j < |ks| ==> ks[i] != ks[j]
    requires c'.indexTablePtr == fcbs[f].indexTablePtr && 0 <= c'.filesize <= MAX_FILE_SIZE
    requires UsedEntries(fcbs[f].filesize) + |ks| == UsedEntries(c'.filesize) <= INDEX_MAX
    requires FcbsOk(fcbs[f := c'], tables[f := Extend(tables[f], UsedEntries(fcbs[f].filesize), ks)])
    ensures OwnersOk(ClearBits(bm, ks), fcbs[f := c'],
                     tables[f := Extend(tables[f], UsedEntries(fcbs[f].filesize), ks)],
                     Claimed(owner, f, UsedEntries(fcbs[f].filesize), ks))
  {
    var u := UsedEntries(fcbs[f].filesize);
    var t' := Extend(tables[f], u, ks);
    var owner' := Claimed(owner, f, u, ks);
    ClaimedTakes(bm, owner, f, u, ks);
    assert FcbOk(fcbs[f], tables[f]);
    ExtendAt(tables[f], u, ks);
    assert Grows(fcbs, tables, f, u, ks, c', t');
    GrownFilesOwned(fcbs, tables, owner, f, u, ks, c', t', owner');
    GrownOwnersBack(fcbs, tables, owner, f, u, ks, c', t', owner');
    GrownBits(bm, owner, f, u, ks, owner');
  }
}
