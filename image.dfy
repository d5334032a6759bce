/**
 * The persisted state of a simplefs disk as one value, the consistency
 * conditions that every operation keeps, and what a file's bytes are.
 *
 * Allocation is described with a ghost owner map: for every block number it
 * records whether the block is free, one of the reserved metadata blocks,
 * the index table of some FCB, or the i-th data block of some FCB. The map
 * being a function gives, for free, that no block has two owners; the
 * bitmap must mark exactly the ownerless blocks free.
 */
module DiskImage {
  import opened Layout
  import opened Bitmap
  import opened IndexTable
  import opened Tables

  /** Everything the disk holds: the four metadata regions and every block's bytes. */
  datatype Image = Image(sb: Superblock, bitmap: seq<Word>, root: seq<DirEntry>, fcbs: seq<Fcb>, blocks: seq<Block>)

  /** Who a block belongs to. */
  datatype Owner = Free | Reserved | IndexOf(fcb: int) | DataOf(fcb: int, pos: int)

  /** FCB f describes an existing file. */
  predicate Active(fcbs: seq<Fcb>, f: int)
    requires 0 <= f < |fcbs|
  {
    fcbs[f].indexTablePtr != -1
  }

  /** The number of data blocks a file of `size` bytes occupies. */
  function UsedEntries(size: int): (m: int)
    requires 0 <= size <= MAX_FILE_SIZE
    ensures 0 <= m <= INDEX_MAX
  {
    CeilDiv(size)
  }

  /** The append cursor of a file agrees with its size and its index table: the used entries
      are packed at the front and number ceil(size / BLOCKSIZE), the cursor is (-1, -1) for
      an empty file and otherwise names the last used entry and the bytes filled in it. */
  predicate CursorOk(c: Fcb, t: seq<int>)
  {
    && Storable(t)
    && 0 <= c.filesize <= MAX_FILE_SIZE
    && (forall i :: 0 <= i < UsedEntries(c.filesize) ==> RESERVED <= t[i] < NBLOCKS)
    && (forall i :: UsedEntries(c.filesize) <= i < INDEX_MAX ==> t[i] == -1)
    && (c.filesize == 0 ==> c.blockLastWritten == -1 && c.offsetOfLastWrtBlock == -1)
    && (c.filesize > 0 ==>
          && c.blockLastWritten == t[UsedEntries(c.filesize) - 1]
          && 1 <= c.offsetOfLastWrtBlock <= BLOCKSIZE
          && c.filesize == (UsedEntries(c.filesize) - 1) * 4096 + c.offsetOfLastWrtBlock)
  }

  /** An FCB is either entirely unused or describes a file whose index table is `t`. */
  predicate FcbOk(c: Fcb, t: seq<int>)
  {
    c == FreeFcb || (RESERVED <= c.indexTablePtr < NBLOCKS && CursorOk(c, t))
  }

  /** A directory entry is either unused (empty name, -1) or names an existing file. */
  predicate EntryOk(e: DirEntry, fcbs: seq<Fcb>)
  {
    e == FreeEntry
    || (0 < |e.filename| <= MAX_NAME_LEN && 0 <= e.fcbIndex < |fcbs| && Active(fcbs, e.fcbIndex))
  }

  predicate SuperOk(sb: Superblock)
  {
    0 <= sb.blocks <= NBLOCKS && sb.blocksFree + sb.blocksOccupied == sb.blocks
  }

  predicate DirOk(root: seq<DirEntry>, fcbs: seq<Fcb>)
  {
    && |root| == ROOT_MAX
    && (forall i :: 0 <= i < ROOT_MAX ==> EntryOk(root[i], fcbs))
    && (forall i, j :: 0 <= i < ROOT_MAX && 0 <= j < ROOT_MAX && i != j && root[i].fcbIndex != -1
          ==> root[i].fcbIndex != root[j].fcbIndex)
  }

  predicate FcbsOk(fcbs: seq<Fcb>, tables: seq<seq<int>>)
  {
    && |fcbs| == FCB_MAX && |tables| == FCB_MAX
    && forall f :: 0 <= f < FCB_MAX ==> FcbOk(fcbs[f], tables[f])
  }

  /** The bitmap marks exactly the ownerless blocks free, and exactly the first RESERVED
      blocks are reserved. */
  predicate FreeAgrees(bm: seq<Word>, owner: seq<Owner>)
  {
    && |bm| == BITMAP_MAX && |owner| == NBLOCKS
    && (forall k :: 0 <= k < NBLOCKS ==> (Bit(bm, k) <==> owner[k] == Free))
    && (forall k :: 0 <= k < NBLOCKS ==> (owner[k] == Reserved <==> k < RESERVED))
  }

  /** Every file owns its index block and, as entry i, the block its i-th used entry names. */
  predicate FilesOwned(fcbs: seq<Fcb>, tables: seq<seq<int>>, owner: seq<Owner>)
    requires FcbsOk(fcbs, tables) && |owner| == NBLOCKS
  {
    && (forall f :: 0 <= f < FCB_MAX && Active(fcbs, f) ==> owner[fcbs[f].indexTablePtr] == IndexOf(f))
    && (forall f, i :: 0 <= f < FCB_MAX && Active(fcbs, f) && 0 <= i < UsedEntries(fcbs[f].filesize)
          ==> owner[tables[f][i]] == DataOf(f, i))
  }

  /** Every owned block's owner is a file that names that block where the owner says. */
  predicate OwnersBack(fcbs: seq<Fcb>, tables: seq<seq<int>>, owner: seq<Owner>)
    requires FcbsOk(fcbs, tables) && |owner| == NBLOCKS
  {
    && (forall k :: 0 <= k < NBLOCKS && owner[k].IndexOf? ==>
          0 <= owner[k].fcb < FCB_MAX && Active(fcbs, owner[k].fcb) && fcbs[owner[k].fcb].indexTablePtr == k)
    && (forall k :: 0 <= k < NBLOCKS && owner[k].DataOf? ==>
          && 0 <= owner[k].fcb < FCB_MAX && Active(fcbs, owner[k].fcb)
          && 0 <= owner[k].pos < UsedEntries(fcbs[owner[k].fcb].filesize)
          && tables[owner[k].fcb][owner[k].pos] == k)
  }

  /** The owner map agrees with the bitmap, the FCBs and their index tables, in both directions. */
  predicate OwnersOk(bm: seq<Word>, fcbs: seq<Fcb>, tables: seq<seq<int>>, owner: seq<Owner>)
    requires FcbsOk(fcbs, tables)
  {
    FreeAgrees(bm, owner) && FilesOwned(fcbs, tables, owner) && OwnersBack(fcbs, tables, owner)
  }

  /** Every block has BLOCKSIZE bytes and every file's index block holds its table. */
  predicate StoredOk(blocks: seq<Block>, fcbs: seq<Fcb>, tables: seq<seq<int>>)
    requires FcbsOk(fcbs, tables)
  {
    && |blocks| == NBLOCKS
    && (forall k :: 0 <= k < NBLOCKS ==> |blocks[k]| == BLOCKSIZE)
    && (forall f :: 0 <= f < FCB_MAX && Active(fcbs, f) ==> blocks[fcbs[f].indexTablePtr] == Encode(tables[f]))
  }

  /** The consistency of a disk image under a given owner map and set of decoded tables. */
  predicate ImageOk(img: Image, tables: seq<seq<int>>, owner: seq<Owner>)
  {
    && SuperOk(img.sb)
    && FcbsOk(img.fcbs, tables)
    && DirOk(img.root, img.fcbs)
    && OwnersOk(img.bitmap, img.fcbs, tables, owner)
    && StoredOk(img.blocks, img.fcbs, tables)
  }

  /** Every open slot of the open-file table refers to an existing file. */
  predicate OftOk(oft: seq<OftEntry>, fcbs: seq<Fcb>)
  {
    && |oft| == OFT_MAX
    && forall d :: 0 <= d < OFT_MAX ==>
         oft[d].fcbIndex == -1 || (0 <= oft[d].fcbIndex < |fcbs| && Active(fcbs, oft[d].fcbIndex))
  }

  /** The consistency of a mounted session: the image, and the open-file table over it. */
  predicate SessionOk(img: Image, tables: seq<seq<int>>, owner: seq<Owner>, oft: seq<OftEntry>)
  {
    ImageOk(img, tables, owner) && OftOk(oft, img.fcbs)
  }

  /** The blocks a table's first `size` bytes live in exist and have full size. */
  predicate Addressable(blocks: seq<Block>, t: seq<int>, size: int)
  {
    && 0 <= size <= MAX_FILE_SIZE && |t| >= UsedEntries(size)
    && forall i :: 0 <= i < UsedEntries(size) ==> 0 <= t[i] < |blocks| && |blocks[t[i]]| == BLOCKSIZE
  }

  /** The bytes of a file: byte p is at offset p % BLOCKSIZE of the block that index entry
      p / BLOCKSIZE names. */
  function FileBytes(blocks: seq<Block>, t: seq<int>, size: int): (r: seq<byte>)
    requires Addressable(blocks, t, size)
    ensures |r| == size
  {
    seq(size, p requires 0 <= p < size =>
      BlockOfBelow(p, UsedEntries(size)); blocks[t[p / 4096]][p % 4096])
  }

  /** The bytes of the file that FCB f describes. */
  function Contents(img: Image, tables: seq<seq<int>>, owner: seq<Owner>, f: int): (r: seq<byte>)
    requires ImageOk(img, tables, owner) && 0 <= f < FCB_MAX && Active(img.fcbs, f)
    ensures |r| == img.fcbs[f].filesize
  {
    FileBytes(img.blocks, tables[f], img.fcbs[f].filesize)
  }

  /** Byte q of the i-th block a table names is byte i * BLOCKSIZE + q of the file. */
  lemma FileBytesAt(blocks: seq<Block>, t: seq<int>, size: int, i: int, q: int)
    requires Addressable(blocks, t, size)
    requires 0 <= i && 0 <= q < BLOCKSIZE && i * BLOCKSIZE + q < size
    ensures i < UsedEntries(size)
    ensures FileBytes(blocks, t, size)[i * BLOCKSIZE + q] == blocks[t[i]][q]
  {
    DivModBlock(i, q);
    BlockOfBelow(i * BLOCKSIZE + q, UsedEntries(size));
  }

  /** An existing file's table addresses full blocks for its used entries and is -1 beyond. */
  lemma FileAddressable(img: Image, tables: seq<seq<int>>, owner: seq<Owner>, f: int)
    requires ImageOk(img, tables, owner) && 0 <= f < FCB_MAX && Active(img.fcbs, f)
    ensures Addressable(img.blocks, tables[f], img.fcbs[f].filesize) && |tables[f]| == INDEX_MAX
    ensures forall i :: UsedEntries(img.fcbs[f].filesize) <= i < INDEX_MAX ==> tables[f][i] == -1
  {
  }

  /** Every file of the first image is still a file of the second, with the same bytes. */
  predicate FilesPreserved(img: Image, tables: seq<seq<int>>, owner: seq<Owner>,
                           img': Image, tables': seq<seq<int>>, owner': seq<Owner>)
    requires ImageOk(img, tables, owner) && ImageOk(img', tables', owner')
  {
    forall g :: 0 <= g < FCB_MAX && Active(img.fcbs, g) ==>
      Active(img'.fcbs, g) && Contents(img', tables', owner', g) == Contents(img, tables, owner, g)
  }

  /** Every file of the first image other than FCB f is still a file of the second, with the
      same bytes. */
  predicate OthersPreserved(img: Image, tables: seq<seq<int>>, owner: seq<Owner>,
                            img': Image, tables': seq<seq<int>>, owner': seq<Owner>, f: int)
    requires ImageOk(img, tables, owner) && ImageOk(img', tables', owner')
  {
    forall g :: 0 <= g < FCB_MAX && g != f && Active(img.fcbs, g) ==>
      Active(img'.fcbs, g) && Contents(img', tables', owner', g) == Contents(img, tables, owner, g)
  }

  /** A file keeps its first `size` bytes when the blocks its first entries name keep those
      bytes, whatever follows. */
  lemma FileBytesPrefix(blocks: seq<Block>, blocks': seq<Block>, t: seq<int>, t': seq<int>, size: int, size': int)
    requires Addressable(blocks, t, size) && Addressable(blocks', t', size') && size <= size'
    requires forall i :: 0 <= i < UsedEntries(size) ==> t'[i] == t[i]
    requires forall i, q :: 0 <= i < UsedEntries(size) && 0 <= q < BLOCKSIZE && i * BLOCKSIZE + q < size
               ==> blocks'[t[i]][q] == blocks[t[i]][q]
    ensures forall p :: 0 <= p < size ==> FileBytes(blocks', t', size')[p] == FileBytes(blocks, t, size)[p]
  {
    forall p | 0 <= p < size
      ensures FileBytes(blocks', t', size')[p] == FileBytes(blocks, t, size)[p]
    {
      var i, q := p / BLOCKSIZE, p % BLOCKSIZE;
      assert p == i * BLOCKSIZE + q;
      FileBytesAt(blocks, t, size, i, q);
      FileBytesAt(blocks', t', size', i, q);
    }
  }
}
