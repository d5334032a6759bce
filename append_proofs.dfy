/**
 * The proofs that append keeps a disk consistent: a completed append grows
 * exactly the one file by exactly the appended bytes, and an append that runs
 * out of free blocks part-way leaves every file as it was.
 */
module AppendProofs {
  import opened Layout
  import opened Bitmap
  import opened IndexTable
  import opened Tables
  import opened DiskImage
  import opened Effects
  import opened AppendEffects

  /** Where the blocks append touches sit in the owner map: the file with cursor c and table
      t owns its index block and its used data blocks, and the taken blocks ks are distinct
      free blocks past the reserved ones. */
  predicate AppendSite(blocks: seq<Block>, owner: seq<Owner>, c: Fcb, t: seq<int>, f: int, ks: seq<int>)
  {
    && CursorOk(c, t) && |blocks| == NBLOCKS && (forall k :: 0 <= k < NBLOCKS ==> |blocks[k]| == BLOCKSIZE)
    && |owner| == NBLOCKS && RESERVED <= c.indexTablePtr < NBLOCKS && owner[c.indexTablePtr] == IndexOf(f)
    && (forall i :: 0 <= i < UsedEntries(c.filesize) ==> owner[t[i]] == DataOf(f, i))
    && (forall i :: 0 <= i < |ks| ==> RESERVED <= ks[i] < NBLOCKS && owner[ks[i]] == Free)
    && (forall k :: 0 <= k < NBLOCKS && k in ks ==> owner[k] == Free)
    && (forall i, j :: 0 <= i < j < |ks| ==> ks[i] != ks[j])
  }

  /** On a consistent image, the blocks first-fit takes for an existing file are an append
      site, and their bits are set. */
  lemma AppendSiteOk(img: Image, tables: seq<seq<int>>, owner: seq<Owner>, f: int, ks: seq<int>)
    requires ImageOk(img, tables, owner) && 0 <= f < FCB_MAX && Active(img.fcbs, f)
    requires FirstFits(img.bitmap, ks)
    ensures AppendSite(img.blocks, owner, img.fcbs[f], tables[f], f, ks)
    ensures forall i :: 0 <= i < |ks| ==> Bit(img.bitmap, ks[i])
  {
    assert FcbOk(img.fcbs[f], tables[f]);
    TakenBlocksFree(img, tables, owner, ks);
  }

  /** The last block of a partly filled file is its last used data block, which the taken
      blocks and the index block are not. */
  lemma SiteLastBlock(blocks: seq<Block>, owner: seq<Owner>, c: Fcb, t: seq<int>, f: int, ks: seq<int>)
    requires AppendSite(blocks, owner, c, t, f, ks) && PartlyFilled(c)
    ensures 1 <= UsedEntries(c.filesize) && 0 <= c.offsetOfLastWrtBlock < BLOCKSIZE
    ensures c.blockLastWritten == t[UsedEntries(c.filesize) - 1] && RESERVED <= c.blockLastWritten < NBLOCKS
    ensures owner[c.blockLastWritten] == DataOf(f, UsedEntries(c.filesize) - 1)
    ensures c.blockLastWritten !in ks && c.blockLastWritten != c.indexTablePtr
  {
    AppendRoom(c, t, 0);
  }

  /** The blocks a completed append leaves, block by block: the index block holds the grown
      table, block ks[j] holds chunk j, a partly filled last block has the data's first bytes
      after its old ones, and every block that is neither free nor the file's own is as before,
      and so are the file's blocks other than a partly filled last one. */
  lemma AppendedBlocksAt(blocks: seq<Block>, owner: seq<Owner>, c: Fcb, t: seq<int>, f: int,
                         data: seq<byte>, ks: seq<int>, cs: seq<Block>)
    requires AppendSite(blocks, owner, c, t, f, ks)
    requires |cs| == |ks| && ChunksOk(cs, data, FillCount(c, |data|))
    requires UsedEntries(c.filesize) + |ks| <= INDEX_MAX
    ensures
      var b := AppendedBlocks(blocks, c, t, data, ks, cs);
      && (forall k :: 0 <= k < NBLOCKS ==> |b[k]| == BLOCKSIZE)
      && b[c.indexTablePtr] == Encode(Extend(t, UsedEntries(c.filesize), ks))
      && (forall j :: 0 <= j < |ks| ==> b[ks[j]] == cs[j])
      && (PartlyFilled(c) ==>
            b[c.blockLastWritten] == Overwrite(blocks[c.blockLastWritten], c.offsetOfLastWrtBlock, data[..FillCount(c, |data|)]))
      && (forall k ::
            (0 <= k < NBLOCKS && owner[k] != Free && !(owner[k].IndexOf? && owner[k].fcb == f)
             && !(owner[k].DataOf? && owner[k].fcb == f)) ==> b[k] == blocks[k])
      && (forall i :: 0 <= i < UsedEntries(c.filesize) && !(PartlyFilled(c) && i == UsedEntries(c.filesize) - 1)
            ==> b[t[i]] == blocks[t[i]])
  {
    var u := UsedEntries(c.filesize);
    if PartlyFilled(c) {
      SiteLastBlock(blocks, owner, c, t, f, ks);
    }
    ChunkedBlocksAt(blocks, c, data, ks, cs);
    assert c.indexTablePtr !in ks;
    forall i | 0 <= i < u && !(PartlyFilled(c) && i == u - 1)
      ensures t[i] !in ks && t[i] != c.indexTablePtr && (PartlyFilled(c) ==> t[i] != c.blockLastWritten)
    {
      assert owner[t[i]] == DataOf(f, i);
    }
  }

  /** After a completed append the grown table addresses the grown file. */
  lemma AppendedAddressable(blocks: seq<Block>, owner: seq<Owner>, c: Fcb, t: seq<int>, f: int,
                            data: seq<byte>, ks: seq<int>, cs: seq<Block>)
    requires AppendSite(blocks, owner, c, t, f, ks)
    requires c.filesize + |data| <= MAX_FILE_SIZE && |ks| == NewBlocks(c, |data|)
    requires |cs| == |ks| && ChunksOk(cs, data, FillCount(c, |data|))
    requires UsedEntries(c.filesize) + |ks| <= INDEX_MAX
    ensures Addressable(AppendedBlocks(blocks, c, t, data, ks, cs), Extend(t, UsedEntries(c.filesize), ks),
                        c.filesize + |data|)
  {
    AppendedBlocksAt(blocks, owner, c, t, f, data, ks, cs);
    AppendRoom(c, t, |data|);
  }

  /** After a completed append a partly filled last block holds the data's first bytes after
      its old ones. */
  lemma AppendedLastFilled(blocks: seq<Block>, owner: seq<Owner>, c: Fcb, t: seq<int>, f: int,
                           data: seq<byte>, ks: seq<int>, cs: seq<Block>)
    requires AppendSite(blocks, owner, c, t, f, ks)
    requires c.filesize + |data| <= MAX_FILE_SIZE && |ks| == NewBlocks(c, |data|)
    requires |cs| == |ks| && ChunksOk(cs, data, FillCount(c, |data|))
    requires UsedEntries(c.filesize) + |ks| <= INDEX_MAX
    ensures LastFilled(blocks, AppendedBlocks(blocks, c, t, data, ks, cs), t,
                       Extend(t, UsedEntries(c.filesize), ks), c, data)
  {
    if PartlyFilled(c) {
      AppendedBlocksAt(blocks, owner, c, t, f, data, ks, cs);
      SiteLastBlock(blocks, owner, c, t, f, ks);
    }
  }

  /** After a completed append the new entries name the blocks holding the chunks. */
  lemma AppendedChunksPlaced(blocks: seq<Block>, owner: seq<Owner>, c: Fcb, t: seq<int>, f: int,
                             data: seq<byte>, ks: seq<int>, cs: seq<Block>)
    requires AppendSite(blocks, owner, c, t, f, ks)
    requires c.filesize + |data| <= MAX_FILE_SIZE && |ks| == NewBlocks(c, |data|)
    requires |cs| == |ks| && ChunksOk(cs, data, FillCount(c, |data|))
    requires UsedEntries(c.filesize) + |ks| <= INDEX_MAX
    ensures ChunksPlaced(AppendedBlocks(blocks, c, t, data, ks, cs), Extend(t, UsedEntries(c.filesize), ks),
                         UsedEntries(c.filesize), ks, cs, data, FillCount(c, |data|))
  {
    AppendedBlocksAt(blocks, owner, c, t, f, data, ks, cs);
    AppendRoom(c, t, |data|);
  }

  /** The file's blocks and table after a completed append are laid out as append lays them
      out, so its bytes are its old bytes followed by the data. */
  lemma AppendLayoutHolds(blocks: seq<Block>, owner: seq<Owner>, c: Fcb, t: seq<int>, f: int,
                          data: seq<byte>, ks: seq<int>, cs: seq<Block>)
    requires AppendSite(blocks, owner, c, t, f, ks)
    requires c.filesize + |data| <= MAX_FILE_SIZE && |ks| == NewBlocks(c, |data|)
    requires |cs| == |ks| && ChunksOk(cs, data, FillCount(c, |data|))
    requires UsedEntries(c.filesize) + |ks| <= INDEX_MAX
    ensures AppendLayout(blocks, AppendedBlocks(blocks, c, t, data, ks, cs), t,
                         Extend(t, UsedEntries(c.filesize), ks), c, data, ks, cs)
  {
    AppendedBlocksAt(blocks, owner, c, t, f, data, ks, cs);
    AppendedAddressable(blocks, owner, c, t, f, data, ks, cs);
    AppendedLastFilled(blocks, owner, c, t, f, data, ks, cs);
    AppendedChunksPlaced(blocks, owner, c, t, f, data, ks, cs);
  }

  /** A completed append adds exactly the data to the end of the file's bytes: with the blocks,
      the grown table and the grown size append leaves, the file reads as before and then the data. */
  lemma AppendContents(blocks: seq<Block>, owner: seq<Owner>, c: Fcb, t: seq<int>, f: int,
                       data: seq<byte>, ks: seq<int>, cs: seq<Block>, blocks': seq<Block>, t': seq<int>, c': Fcb)
    requires AppendSite(blocks, owner, c, t, f, ks)
    requires c.filesize + |data| <= MAX_FILE_SIZE && |ks| == NewBlocks(c, |data|)
    requires |cs| == |ks| && ChunksOk(cs, data, FillCount(c, |data|))
    requires UsedEntries(c.filesize) + |ks| <= INDEX_MAX
    requires blocks' == AppendedBlocks(blocks, c, t, data, ks, cs)
    requires t' == Extend(t, UsedEntries(c.filesize), ks) && c'.filesize == c.filesize + |data|
    ensures Addressable(blocks, t, c.filesize) && Addressable(blocks', t', c'.filesize)
    ensures FileBytes(blocks', t', c'.filesize) == FileBytes(blocks, t, c.filesize) + data
  {
    AppendLayoutHolds(blocks, owner, c, t, f, data, ks, cs);
    AppendedBytes(blocks, blocks', t, t', c, data, ks, cs);
  }

  /** Replacing an FCB in use by one with the same index block and a cursor that fits its new
      table keeps the FCBs well formed. */
  lemma GrownFcbsOk(fcbs: seq<Fcb>, tables: seq<seq<int>>, f: int, c': Fcb, t': seq<int>)
    requires FcbsOk(fcbs, tables) && 0 <= f < FCB_MAX && Active(fcbs, f)
    requires c'.indexTablePtr == fcbs[f].indexTablePtr && CursorOk(c', t')
    ensures FcbsOk(fcbs[f := c'], tables[f := t'])
    ensures forall g :: 0 <= g < FCB_MAX ==> Active(fcbs[f := c'], g) == Active(fcbs, g)
  {
    assert FcbOk(fcbs[f], tables[f]);
  }

  /** The directory only asks which FCBs are in use. */
  lemma SameActiveDirOk(root: seq<DirEntry>, fcbs: seq<Fcb>, fcbs': seq<Fcb>)
    requires DirOk(root, fcbs) && |fcbs'| == |fcbs|
    requires forall g :: 0 <= g < |fcbs| ==> Active(fcbs', g) == Active(fcbs, g)
    ensures DirOk(root, fcbs')
  {
    forall i | 0 <= i < ROOT_MAX
      ensures EntryOk(root[i], fcbs')
    {
      assert EntryOk(root[i], fcbs);
    }
  }

  /** So does the open-file table. */
  lemma SameActiveOftOk(oft: seq<OftEntry>, fcbs: seq<Fcb>, fcbs': seq<Fcb>)
    requires OftOk(oft, fcbs) && |fcbs'| == |fcbs|
    requires forall g :: 0 <= g < |fcbs| ==> Active(fcbs', g) == Active(fcbs, g)
    ensures OftOk(oft, fcbs')
  {
  }

  /** After a completed append every file's index block still holds its table: the file's own
      holds the grown one, and every other index block is untouched. */
  lemma AppendStoredOk(blocks: seq<Block>, fcbs: seq<Fcb>, tables: seq<seq<int>>, owner: seq<Owner>, f: int,
                       data: seq<byte>, ks: seq<int>, cs: seq<Block>, c': Fcb)
    requires FcbsOk(fcbs, tables) && StoredOk(blocks, fcbs, tables) && |owner| == NBLOCKS
    requires FilesOwned(fcbs, tables, owner) && 0 <= f < FCB_MAX && Active(fcbs, f)
    requires AppendSite(blocks, owner, fcbs[f], tables[f], f, ks)
    requires |cs| == |ks| && ChunksOk(cs, data, FillCount(fcbs[f], |data|))
    requires UsedEntries(fcbs[f].filesize) + |ks| <= INDEX_MAX
    requires c'.indexTablePtr == fcbs[f].indexTablePtr
    requires FcbsOk(fcbs[f := c'], tables[f := Extend(tables[f], UsedEntries(fcbs[f].filesize), ks)])
    ensures StoredOk(AppendedBlocks(blocks, fcbs[f], tables[f], data, ks, cs), fcbs[f := c'],
                     tables[f := Extend(tables[f], UsedEntries(fcbs[f].filesize), ks)])
  {
    AppendedBlocksAt(blocks, owner, fcbs[f], tables[f], f, data, ks, cs);
    forall g | 0 <= g < FCB_MAX && g != f && Active(fcbs, g)
      ensures owner[fcbs[g].indexTablePtr] == IndexOf(g)
    {
    }
  }

  /** A completed append leaves the bytes of every other file alone: their blocks are
      neither free nor the appended file's. */
  lemma AppendKeepsOthers(blocks: seq<Block>, fcbs: seq<Fcb>, tables: seq<seq<int>>, owner: seq<Owner>, f: int,
                          data: seq<byte>, ks: seq<int>, cs: seq<Block>, g: int)
    requires FcbsOk(fcbs, tables) && |owner| == NBLOCKS && FilesOwned(fcbs, tables, owner)
    requires 0 <= f < FCB_MAX && Active(fcbs, f)
    requires AppendSite(blocks, owner, fcbs[f], tables[f], f, ks)
    requires |cs| == |ks| && ChunksOk(cs, data, FillCount(fcbs[f], |data|))
    requires UsedEntries(fcbs[f].filesize) + |ks| <= INDEX_MAX
    requires 0 <= g < FCB_MAX && g != f && Active(fcbs, g) && Addressable(blocks, tables[g], fcbs[g].filesize)
    ensures Addressable(AppendedBlocks(blocks, fcbs[f], tables[f], data, ks, cs), tables[g], fcbs[g].filesize)
    ensures FileBytes(AppendedBlocks(blocks, fcbs[f], tables[f], data, ks, cs), tables[g], fcbs[g].filesize)
         == FileBytes(blocks, tables[g], fcbs[g].filesize)
  {
    var b := AppendedBlocks(blocks, fcbs[f], tables[f], data, ks, cs);
    AppendedBlocksAt(blocks, owner, fcbs[f], tables[f], f, data, ks, cs);
    forall i | 0 <= i < UsedEntries(fcbs[g].filesize)
      ensures b[tables[g][i]] == blocks[tables[g][i]]
    {
      assert owner[tables[g][i]] == DataOf(g, i);
    }
    FileBytesFrame(blocks, b, tables[g], fcbs[g].filesize);
  }

  /** The blocks an append that ran out of blocks leaves: the chunks went to free blocks and
      the fill only wrote the file's last block past its old bytes; every other block in use
      is as before. */
  lemma FailedBlocksAt(blocks: seq<Block>, owner: seq<Owner>, c: Fcb, t: seq<int>, f: int,
                       data: seq<byte>, ks: seq<int>, cs: seq<Block>)
    requires AppendSite(blocks, owner, c, t, f, ks)
    requires |cs| == |ks| && ChunksOk(cs, data, FillCount(c, |data|))
    ensures
      var b := StoredChunks(Filled(blocks, c, data), ks, cs);
      && |b| == NBLOCKS
      && (forall k :: 0 <= k < NBLOCKS ==> |b[k]| == BLOCKSIZE)
      && (forall k :: (0 <= k < NBLOCKS && owner[k] != Free && !(PartlyFilled(c) && k == c.blockLastWritten))
            ==> b[k] == blocks[k])
      && (PartlyFilled(c) ==>
            && 1 <= UsedEntries(c.filesize) && c.blockLastWritten == t[UsedEntries(c.filesize) - 1]
            && 0 <= c.blockLastWritten < NBLOCKS
            && forall q :: 0 <= q < c.offsetOfLastWrtBlock ==> b[c.blockLastWritten][q] == blocks[c.blockLastWritten][q])
  {
    if PartlyFilled(c) {
      SiteLastBlock(blocks, owner, c, t, f, ks);
    }
    ChunkedBlocksAt(blocks, c, data, ks, cs);
  }

  /** An append that ran out of blocks keeps the bytes of every file, its own included: the
      fill only wrote past the file's end. */
  lemma FailedKeepsFile(blocks: seq<Block>, fcbs: seq<Fcb>, tables: seq<seq<int>>, owner: seq<Owner>, f: int,
                        data: seq<byte>, ks: seq<int>, cs: seq<Block>, g: int)
    requires FcbsOk(fcbs, tables) && |owner| == NBLOCKS && FilesOwned(fcbs, tables, owner)
    requires 0 <= f < FCB_MAX && Active(fcbs, f)
    requires AppendSite(blocks, owner, fcbs[f], tables[f], f, ks)
    requires |cs| == |ks| && ChunksOk(cs, data, FillCount(fcbs[f], |data|))
    requires 0 <= g < FCB_MAX && Active(fcbs, g) && Addressable(blocks, tables[g], fcbs[g].filesize)
    ensures Addressable(StoredChunks(Filled(blocks, fcbs[f], data), ks, cs), tables[g], fcbs[g].filesize)
    ensures FileBytes(StoredChunks(Filled(blocks, fcbs[f], data), ks, cs), tables[g], fcbs[g].filesize)
         == FileBytes(blocks, tables[g], fcbs[g].filesize)
  {
    var c, b := fcbs[f], StoredChunks(Filled(blocks, fcbs[f], data), ks, cs);
    var t, s := tables[g], fcbs[g].filesize;
    FailedBlocksAt(blocks, owner, c, tables[f], f, data, ks, cs);
    assert FcbOk(fcbs[g], t);
    forall i, q | 0 <= i < UsedEntries(s) && 0 <= q < BLOCKSIZE && i * BLOCKSIZE + q < s
      ensures b[t[i]][q] == blocks[t[i]][q]
    {
      assert owner[t[i]] == DataOf(g, i);
      if PartlyFilled(c) && t[i] == c.blockLastWritten {
        assert owner[c.blockLastWritten] == DataOf(f, UsedEntries(c.filesize) - 1);
        assert q < c.offsetOfLastWrtBlock;
      }
    }
    FileBytesPrefix(blocks, b, t, t, s, s);
  }

  /** An append that ran out of blocks leaves every index block as it was. */
  lemma FailedStoredOk(blocks: seq<Block>, fcbs: seq<Fcb>, tables: seq<seq<int>>, owner: seq<Owner>, f: int,
                       data: seq<byte>, ks: seq<int>, cs: seq<Block>)
    requires FcbsOk(fcbs, tables) && StoredOk(blocks, fcbs, tables) && |owner| == NBLOCKS
    requires FilesOwned(fcbs, tables, owner) && 0 <= f < FCB_MAX && Active(fcbs, f)
    requires AppendSite(blocks, owner, fcbs[f], tables[f], f, ks)
    requires |cs| == |ks| && ChunksOk(cs, data, FillCount(fcbs[f], |data|))
    ensures StoredOk(StoredChunks(Filled(blocks, fcbs[f], data), ks, cs), fcbs, tables)
  {
    FailedBlocksAt(blocks, owner, fcbs[f], tables[f], f, data, ks, cs);
    forall g | 0 <= g < FCB_MAX && Active(fcbs, g)
      ensures owner[fcbs[g].indexTablePtr] == IndexOf(g)
    {
    }
  }

  /** A completed append leaves a consistent image in which the same FCBs are in use and
      |ks| fewer blocks are free. */
  lemma AppendImageOk(img: Image, tables: seq<seq<int>>, owner: seq<Owner>, f: int, data: seq<byte>,
                      ks: seq<int>, cs: seq<Block>, img': Image, tables': seq<seq<int>>, owner': seq<Owner>)
    requires ImageOk(img, tables, owner) && 0 <= f < FCB_MAX && Active(img.fcbs, f)
    requires AppendStep(img, tables, owner, f, data, ks, cs, img', tables', owner')
    ensures ImageOk(img', tables', owner')
    ensures forall g :: 0 <= g < FCB_MAX ==> Active(img'.fcbs, g) == Active(img.fcbs, g)
    ensures CountFree(img'.bitmap, NBLOCKS) == CountFree(img.bitmap, NBLOCKS) - |ks|
  {
    var c := img.fcbs[f];
    var c' := AppendedFcb(c, |data|, ks);
    var t' := Extend(tables[f], UsedEntries(c.filesize), ks);
    AppendSiteOk(img, tables, owner, f, ks);
    AppendCursorOk(c, tables[f], |data|, ks);
    GrownFcbsOk(img.fcbs, tables, f, c', t');
    SameActiveDirOk(img.root, img.fcbs, img'.fcbs);
    GrownOwnersOk(img.bitmap, img.fcbs, tables, owner, f, ks, c');
    AppendStoredOk(img.blocks, img.fcbs, tables, owner, f, data, ks, cs, c');
    CountFreeClearBits(img.bitmap, ks, NBLOCKS);
  }

  /** The parts of the image after a completed append, one by one. */
  lemma AppendStepParts(img: Image, tables: seq<seq<int>>, owner: seq<Owner>, f: int, data: seq<byte>,
                        ks: seq<int>, cs: seq<Block>, img': Image, tables': seq<seq<int>>, owner': seq<Owner>)
    requires ImageOk(img, tables, owner) && 0 <= f < FCB_MAX && Active(img.fcbs, f)
    requires AppendStep(img, tables, owner, f, data, ks, cs, img', tables', owner')
    ensures UsedEntries(img.fcbs[f].filesize) + |ks| <= INDEX_MAX && |cs| == |ks|
    ensures img'.fcbs == img.fcbs[f := AppendedFcb(img.fcbs[f], |data|, ks)]
    ensures img'.fcbs[f].filesize == img.fcbs[f].filesize + |data|
    ensures tables' == tables[f := Extend(tables[f], UsedEntries(img.fcbs[f].filesize), ks)]
    ensures img'.blocks == AppendedBlocks(img.blocks, img.fcbs[f], tables[f], data, ks, cs)
  {
  }

  /** A completed append keeps the bytes of every other file. */
  lemma AppendKeepsOtherFiles(img: Image, tables: seq<seq<int>>, owner: seq<Owner>, f: int, data: seq<byte>,
                              ks: seq<int>, cs: seq<Block>, img': Image, tables': seq<seq<int>>, owner': seq<Owner>)
    requires ImageOk(img, tables, owner) && 0 <= f < FCB_MAX && Active(img.fcbs, f)
    requires ImageOk(img', tables', owner')
    requires AppendStep(img, tables, owner, f, data, ks, cs, img', tables', owner')
    ensures OthersPreserved(img, tables, owner, img', tables', owner', f)
  {
    AppendStepParts(img, tables, owner, f, data, ks, cs, img', tables', owner');
    AppendSiteOk(img, tables, owner, f, ks);
    forall g | 0 <= g < FCB_MAX && g != f && Active(img.fcbs, g)
      ensures Active(img'.fcbs, g) && Contents(img', tables', owner', g) == Contents(img, tables, owner, g)
    {
      assert FcbOk(img.fcbs[g], tables[g]);
      AppendKeepsOthers(img.blocks, img.fcbs, tables, owner, f, data, ks, cs, g);
    }
  }

  /** A completed append keeps the session consistent, grows FCB f by exactly the data, keeps
      every other file, and takes |ks| blocks off both the bitmap and the superblock's counters. */
  lemma AppendKeepsImageOk(img: Image, tables: seq<seq<int>>, owner: seq<Owner>, oft: seq<OftEntry>,
                           f: int, data: seq<byte>, ks: seq<int>, cs: seq<Block>,
                           img': Image, tables': seq<seq<int>>, owner': seq<Owner>)
    requires SessionOk(img, tables, owner, oft) && 0 <= f < FCB_MAX && Active(img.fcbs, f)
    requires AppendStep(img, tables, owner, f, data, ks, cs, img', tables', owner')
    ensures SessionOk(img', tables', owner', oft)
    ensures Active(img'.fcbs, f) && Contents(img', tables', owner', f) == Contents(img, tables, owner, f) + data
    ensures OthersPreserved(img, tables, owner, img', tables', owner', f)
    ensures CountFree(img'.bitmap, NBLOCKS) == CountFree(img.bitmap, NBLOCKS) - |ks|
    ensures img'.sb.blocksFree == img.sb.blocksFree - |ks|
  {
    AppendImageOk(img, tables, owner, f, data, ks, cs, img', tables', owner');
    SameActiveOftOk(oft, img.fcbs, img'.fcbs);
    AppendStepParts(img, tables, owner, f, data, ks, cs, img', tables', owner');
    AppendSiteOk(img, tables, owner, f, ks);
    AppendContents(img.blocks, owner, img.fcbs[f], tables[f], f, data, ks, cs, img'.blocks, tables'[f], img'.fcbs[f]);
    AppendKeepsOtherFiles(img, tables, owner, f, data, ks, cs, img', tables', owner');
  }

  /** An append that runs out of blocks keeps the session consistent and every file's bytes,
      and happens only when the blocks it took were all the free ones. */
  lemma AppendFailsOk(img: Image, tables: seq<seq<int>>, owner: seq<Owner>, oft: seq<OftEntry>,
                      f: int, data: seq<byte>, ks: seq<int>, cs: seq<Block>, img': Image)
    requires SessionOk(img, tables, owner, oft) && 0 <= f < FCB_MAX && Active(img.fcbs, f)
    requires AppendFails(img, tables, owner, f, data, ks, cs, img')
    ensures SessionOk(img', tables, owner, oft)
    ensures FilesPreserved(img, tables, owner, img', tables, owner)
    ensures CountFree(img.bitmap, NBLOCKS) == |ks| < NewBlocks(img.fcbs[f], |data|)
  {
    AppendSiteOk(img, tables, owner, f, ks);
    FailedStoredOk(img.blocks, img.fcbs, tables, owner, f, data, ks, cs);
    assert ImageOk(img', tables, owner);
    forall g | 0 <= g < FCB_MAX && Active(img.fcbs, g)
      ensures Active(img'.fcbs, g) && Contents(img', tables, owner, g) == Contents(img, tables, owner, g)
    {
      assert FcbOk(img.fcbs[g], tables[g]);
      FailedKeepsFile(img.blocks, img.fcbs, tables, owner, f, data, ks, cs, g);
    }
    CountFreeClearBits(img.bitmap, ks, NBLOCKS);
    CountFreeZero(ClearBits(img.bitmap, ks), NBLOCKS);
  }

  /** What the append of `data` to existing file f may rely on before it writes anything: the
      file's cursor fits its index table, which is stored in its index block, and a partly
      filled last block is a full-size block other than the index block. */
  lemma AppendStart(img: Image, tables: seq<seq<int>>, owner: seq<Owner>, f: int)
    requires ImageOk(img, tables, owner) && 0 <= f < FCB_MAX && Active(img.fcbs, f)
    ensures
      var c := img.fcbs[f];
      && CursorOk(c, tables[f]) && |img.bitmap| == BITMAP_MAX && |img.blocks| == NBLOCKS
      && 0 <= c.indexTablePtr < NBLOCKS && img.blocks[c.indexTablePtr] == Encode(tables[f])
      && (PartlyFilled(c) ==>
            && 0 <= c.offsetOfLastWrtBlock && 0 <= c.blockLastWritten < NBLOCKS
            && |img.blocks[c.blockLastWritten]| == BLOCKSIZE && c.blockLastWritten != c.indexTablePtr)
  {
    AppendSiteOk(img, tables, owner, f, []);
    if PartlyFilled(img.fcbs[f]) {
      SiteLastBlock(img.blocks, owner, img.fcbs[f], tables[f], f, []);
    }
  }

  /** The outcome of sfs_append on an open file f once its checks passed, returning r: the
      session stays consistent; r is -1 exactly when fewer blocks were free than the data
      needs, and then the files are as before; otherwise r is the data's length and the
      append took one step that grew f by `data` and kept every other file. */
  ghost predicate AppendOutcome(img: Image, tables: seq<seq<int>>, owner: seq<Owner>, oft: seq<OftEntry>,
                          f: int, data: seq<byte>, r: int,
                          img': Image, tables': seq<seq<int>>, owner': seq<Owner>)
    requires SessionOk(img, tables, owner, oft) && 0 <= f < FCB_MAX && Active(img.fcbs, f)
  {
    && SessionOk(img', tables', owner', oft)
    && (r == -1 || r == |data|)
    && (r == -1 <==> CountFree(img.bitmap, NBLOCKS) < NewBlocks(img.fcbs[f], |data|))
    && (r == -1 ==>
          && tables' == tables && owner' == owner
          && (exists ks, cs :: AppendFails(img, tables, owner, f, data, ks, cs, img'))
          && FilesPreserved(img, tables, owner, img', tables', owner'))
    && (r != -1 ==>
          && (exists ks, cs :: AppendStep(img, tables, owner, f, data, ks, cs, img', tables', owner'))
          && Active(img'.fcbs, f)
          && Contents(img', tables', owner', f) == Contents(img, tables, owner, f) + data
          && OthersPreserved(img, tables, owner, img', tables', owner', f))
  }

  /** An append whose allocation loop ran out of free blocks leaves a consistent session with
      every file's bytes unchanged, and happens exactly when fewer blocks were free than needed. */
  lemma AppendRunFails(img: Image, tables: seq<seq<int>>, owner: seq<Owner>, oft: seq<OftEntry>,
                       f: int, data: seq<byte>, ks: seq<int>, cs: seq<Block>,
                       bm: seq<Word>, t: seq<int>, blocks: seq<Block>,
                       img': Image, tables': seq<seq<int>>, owner': seq<Owner>)
    requires SessionOk(img, tables, owner, oft) && 0 <= f < FCB_MAX && Active(img.fcbs, f)
    requires img.fcbs[f].filesize + |data| <= MAX_FILE_SIZE
    requires Allocating(img.bitmap, tables[f], Filled(img.blocks, img.fcbs[f], data), img.fcbs[f], data,
                        ks, cs, bm, t, blocks)
    requires |ks| < NewBlocks(img.fcbs[f], |data|) && forall j :: 0 <= j < NBLOCKS ==> !Bit(bm, j)
    requires img' == img.(blocks := blocks) && tables' == tables && owner' == owner
    ensures AppendFails(img, tables, owner, f, data, ks, cs, img')
    ensures AppendOutcome(img, tables, owner, oft, f, data, -1, img', tables', owner')
  {
    AllocatedFails(img, tables, owner, f, data, ks, cs, bm, t, blocks, img');
    AppendFailsOk(img, tables, owner, oft, f, data, ks, cs, img');
  }

  /** An append whose allocation loop took every block it needed, once committed, is one
      append step: the session stays consistent, the file's bytes grow by `data`, every other
      file is as before, and enough blocks were free. */
  lemma AppendRunOk(img: Image, tables: seq<seq<int>>, owner: seq<Owner>, oft: seq<OftEntry>,
                    f: int, data: seq<byte>, ks: seq<int>, cs: seq<Block>,
                    bm: seq<Word>, t: seq<int>, blocks: seq<Block>,
                    img': Image, tables': seq<seq<int>>, owner': seq<Owner>)
    requires SessionOk(img, tables, owner, oft) && 0 <= f < FCB_MAX && Active(img.fcbs, f)
    requires img.fcbs[f].filesize + |data| <= MAX_FILE_SIZE
    requires Allocating(img.bitmap, tables[f], Filled(img.blocks, img.fcbs[f], data), img.fcbs[f], data,
                        ks, cs, bm, t, blocks)
    requires |ks| == NewBlocks(img.fcbs[f], |data|) && Storable(t)
    requires img' == Image(img.sb.(blocksFree := img.sb.blocksFree - |ks|, blocksOccupied := img.sb.blocksOccupied + |ks|),
                           bm, img.root, img.fcbs[f := AppendedFcb(img.fcbs[f], |data|, ks)],
                           blocks[img.fcbs[f].indexTablePtr := Encode(t)])
    requires tables' == tables[f := Extend(tables[f], UsedEntries(img.fcbs[f].filesize), ks)]
    requires owner' == Claimed(owner, f, UsedEntries(img.fcbs[f].filesize), ks)
    ensures AppendStep(img, tables, owner, f, data, ks, cs, img', tables', owner')
    ensures AppendOutcome(img, tables, owner, oft, f, data, |data|, img', tables', owner')
  {
    AllocatedAppends(img, tables, owner, f, data, ks, cs, bm, t, blocks, img');
    AppendKeepsImageOk(img, tables, owner, oft, f, data, ks, cs, img', tables', owner');
  }
}
