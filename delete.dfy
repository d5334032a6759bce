/**
 * What delete does to the persisted image, as a function of the image
 * before, and the proofs that it keeps the image consistent, leaves every
 * other file alone and frees one block more than its counters record.
 */
module DeleteEffects {
  import opened Layout
  import opened Bitmap
  import opened IndexTable
  import opened Tables
  import opened DiskImage
  import opened Effects

  /** Delete's choice: the first directory entry carrying the name. */
  predicate DeleteChoice(img: Image, name: string, s: int)
    requires |img.root| == ROOT_MAX
  {
    0 <= s < ROOT_MAX && img.root[s].filename == name
    && forall i :: 0 <= i < s ==> img.root[i].filename != name
  }

  /** The data blocks of the file that FCB f describes: its used index entries. */
  function DataBlocks(img: Image, tables: seq<seq<int>>, owner: seq<Owner>, f: int): (ks: seq<int>)
    requires ImageOk(img, tables, owner) && 0 <= f < FCB_MAX && Active(img.fcbs, f)
    ensures |ks| == UsedEntries(img.fcbs[f].filesize)
    ensures forall i :: 0 <= i < |ks| ==> RESERVED <= ks[i] < NBLOCKS && owner[ks[i]] == DataOf(f, i)
  {
    tables[f][..UsedEntries(img.fcbs[f].filesize)]
  }

  /** The blocks after zeroing the blocks of `ks`, one write per entry in turn. */
  function ZeroedBlocks(blocks: seq<Block>, ks: seq<int>): (r: seq<Block>)
    requires forall i :: 0 <= i < |ks| ==> 0 <= ks[i] < |blocks|
    ensures |r| == |blocks|
    decreases |ks|
  {
    if |ks| == 0 then blocks else ZeroedBlocks(blocks, ks[..|ks| - 1])[ks[|ks| - 1] := ZeroBlock()]
  }

  /** After the writes, exactly the blocks of `ks` hold zeros and every other block is kept. */
  lemma {:induction false} ZeroedBlocksAt(blocks: seq<Block>, ks: seq<int>)
    requires forall i :: 0 <= i < |ks| ==> 0 <= ks[i] < |blocks|
    ensures forall k :: 0 <= k < |blocks| ==>
      ZeroedBlocks(blocks, ks)[k] == if k in ks then ZeroBlock() else blocks[k]
    decreases |ks|
  {
    if |ks| > 0 {
      var pre := ks[..|ks| - 1];
      ZeroedBlocksAt(blocks, pre);
      assert ks == pre + [ks[|ks| - 1]];
    }
  }

  /** Zeroing one more block is one more write. */
  lemma ZeroedBlocksSnoc(blocks: seq<Block>, ks: seq<int>, b: int)
    requires forall i :: 0 <= i < |ks| ==> 0 <= ks[i] < |blocks|
    requires 0 <= b < |blocks|
    ensures ZeroedBlocks(blocks, ks + [b]) == ZeroedBlocks(blocks, ks)[b := ZeroBlock()]
  {
    assert (ks + [b])[..|ks|] == ks;
  }

  /** Setting one more bit is one more SetBit. */
  lemma SetBitsSnoc(bm: seq<Word>, ks: seq<int>, b: int)
    requires forall i :: 0 <= i < |ks| ==> 0 <= ks[i] < |bm| * 32
    requires 0 <= b < |bm| * 32
    ensures SetBits(bm, ks + [b]) == SetBit(SetBits(bm, ks), b)
  {
    assert (ks + [b])[..|ks|] == ks;
  }

  /** The image delete writes back (simplefs.c lines 625-648) when entry s names FCB f with
      index block ptr and data blocks ks: the entry and the FCB are cleared, every data block
      and the index block are zeroed and marked free, and the counters move by |ks| only. */
  function Deleted(img: Image, s: int, ks: seq<int>): (r: Image)
    requires |img.root| == ROOT_MAX && |img.fcbs| == FCB_MAX && |img.bitmap| == BITMAP_MAX
    requires |img.blocks| == NBLOCKS && 0 <= s < ROOT_MAX && 0 <= img.root[s].fcbIndex < FCB_MAX
    requires 0 <= img.fcbs[img.root[s].fcbIndex].indexTablePtr < NBLOCKS
    requires forall i :: 0 <= i < |ks| ==> 0 <= ks[i] < NBLOCKS
    ensures |r.root| == ROOT_MAX && |r.fcbs| == FCB_MAX && |r.bitmap| == BITMAP_MAX && |r.blocks| == NBLOCKS
  {
    var f := img.root[s].fcbIndex;
    var ptr := img.fcbs[f].indexTablePtr;
    Image(
      img.sb.(blocksFree := img.sb.blocksFree + |ks|, blocksOccupied := img.sb.blocksOccupied - |ks|),
      SetBit(SetBits(img.bitmap, ks), ptr),
      img.root[s := FreeEntry],
      img.fcbs[f := FreeFcb],
      ZeroedBlocks(img.blocks, ks)[ptr := ZeroBlock()])
  }

  /** The owner map after delete: the blocks of FCB f become free. */
  function Released(owner: seq<Owner>, f: int): (r: seq<Owner>)
    ensures |r| == |owner|
    ensures forall k :: 0 <= k < |owner| ==>
      r[k] == if owner[k] == IndexOf(f) || (owner[k].DataOf? && owner[k].fcb == f) then Free else owner[k]
  {
    seq(|owner|, k requires 0 <= k < |owner| =>
      if owner[k] == IndexOf(f) || (owner[k].DataOf? && owner[k].fcb == f) then Free else owner[k])
  }

  /** The open-file table after delete has closed every slot of FCB f (simplefs.c lines 617-623). */
  function ClosedAll(oft: seq<OftEntry>, f: int): (r: seq<OftEntry>)
    ensures |r| == |oft|
    ensures forall d :: 0 <= d < |oft| ==> r[d] == if oft[d].fcbIndex == f then ClosedSlot else oft[d]
  {
    seq(|oft|, d requires 0 <= d < |oft| => if oft[d].fcbIndex == f then ClosedSlot else oft[d])
  }

  /** The FCB named by a non-empty name's entry describes an existing file. */
  lemma NamedFileActive(img: Image, tables: seq<seq<int>>, owner: seq<Owner>, name: string, s: int)
    requires ImageOk(img, tables, owner) && name != "" && DeleteChoice(img, name, s)
    ensures 0 <= img.root[s].fcbIndex < FCB_MAX && Active(img.fcbs, img.root[s].fcbIndex)
  {
    assert EntryOk(img.root[s], img.fcbs);
  }

  /** One run of delete that finds the name: entry s is the first entry carrying it, and the
      image, the owner map and the open-file table take their forms after delete. */
  predicate DeleteStep(img: Image, tables: seq<seq<int>>, owner: seq<Owner>, oft: seq<OftEntry>,
                       name: string, s: int, img': Image, owner': seq<Owner>, oft': seq<OftEntry>)
    requires ImageOk(img, tables, owner)
  {
    && name != "" && DeleteChoice(img, name, s)
    && 0 <= img.root[s].fcbIndex < FCB_MAX && Active(img.fcbs, img.root[s].fcbIndex)
    && img' == Deleted(img, s, DataBlocks(img, tables, owner, img.root[s].fcbIndex))
    && owner' == Released(owner, img.root[s].fcbIndex)
    && oft' == ClosedAll(oft, img.root[s].fcbIndex)
  }

  /** Delete keeps the session consistent, removes the file, keeps every other file's bytes,
      and frees |ks| + 1 blocks while its counter records |ks|. */
  lemma DeleteKeepsImageOk(img: Image, tables: seq<seq<int>>, owner: seq<Owner>, oft: seq<OftEntry>,
                           name: string, s: int, img': Image, owner': seq<Owner>, oft': seq<OftEntry>)
    requires SessionOk(img, tables, owner, oft)
    requires DeleteStep(img, tables, owner, oft, name, s, img', owner', oft')
    ensures SessionOk(img', tables, owner', oft')
    ensures !Active(img'.fcbs, img.root[s].fcbIndex)
    ensures FilesPreserved(img', tables, owner', img, tables, owner)
    ensures CountFree(img'.bitmap, NBLOCKS)
         == CountFree(img.bitmap, NBLOCKS) + UsedEntries(img.fcbs[img.root[s].fcbIndex].filesize) + 1
    ensures img'.sb.blocksFree == img.sb.blocksFree + UsedEntries(img.fcbs[img.root[s].fcbIndex].filesize)
  {
    var f := img.root[s].fcbIndex;
    DeleteBlocksOwned(img, tables, owner, f);
    DeleteDirOk(img, tables, owner, s);
    DeleteOwnersOk(img, tables, owner, s);
    DeleteStoredOk(img, tables, owner, s);
    assert ImageOk(img', tables, owner');
    DeleteOftOk(oft, img.fcbs, f);
    forall g | 0 <= g < FCB_MAX && Active(img'.fcbs, g)
      ensures Active(img.fcbs, g) && Contents(img, tables, owner, g) == Contents(img', tables, owner', g)
    {
      DeleteKeepsFile(img, tables, owner, s, g);
    }
    DeleteFreeCount(img, tables, owner, f);
  }

  /** Closing every slot of FCB f leaves only slots on files that still exist. */
  lemma DeleteOftOk(oft: seq<OftEntry>, fcbs: seq<Fcb>, f: int)
    requires OftOk(oft, fcbs) && 0 <= f < |fcbs|
    ensures OftOk(ClosedAll(oft, f), fcbs[f := FreeFcb])
  {
  }

  /** The blocks of FCB f are exactly its index block and its data blocks. */
  lemma DeleteBlocksOwned(img: Image, tables: seq<seq<int>>, owner: seq<Owner>, f: int)
    requires ImageOk(img, tables, owner) && 0 <= f < FCB_MAX && Active(img.fcbs, f)
    ensures forall k :: 0 <= k < NBLOCKS ==>
      ((k == img.fcbs[f].indexTablePtr || k in DataBlocks(img, tables, owner, f))
       <==> (owner[k] == IndexOf(f) || (owner[k].DataOf? && owner[k].fcb == f)))
  {
    var ks := DataBlocks(img, tables, owner, f);
    forall k | 0 <= k < NBLOCKS && owner[k].DataOf? && owner[k].fcb == f
      ensures k in ks
    {
      assert ks[owner[k].pos] == k;
    }
  }

  lemma DeleteDirOk(img: Image, tables: seq<seq<int>>, owner: seq<Owner>, s: int)
    requires ImageOk(img, tables, owner) && 0 <= s < ROOT_MAX
    requires 0 <= img.root[s].fcbIndex < FCB_MAX && Active(img.fcbs, img.root[s].fcbIndex)
    ensures FcbsOk(Deleted(img, s, DataBlocks(img, tables, owner, img.root[s].fcbIndex)).fcbs, tables)
    ensures DirOk(Deleted(img, s, DataBlocks(img, tables, owner, img.root[s].fcbIndex)).root,
                  Deleted(img, s, DataBlocks(img, tables, owner, img.root[s].fcbIndex)).fcbs)
  {
    var f := img.root[s].fcbIndex;
    var img' := Deleted(img, s, DataBlocks(img, tables, owner, f));
    forall i | 0 <= i < ROOT_MAX
      ensures EntryOk(img'.root[i], img'.fcbs)
    {
      if i != s {
        assert EntryOk(img.root[i], img.fcbs);
        if img.root[i] != FreeEntry {
          assert img.root[i].fcbIndex != f;
        }
      }
    }
  }

  lemma DeleteOwnersOk(img: Image, tables: seq<seq<int>>, owner: seq<Owner>, s: int)
    requires ImageOk(img, tables, owner) && 0 <= s < ROOT_MAX
    requires 0 <= img.root[s].fcbIndex < FCB_MAX && Active(img.fcbs, img.root[s].fcbIndex)
    requires FcbsOk(Deleted(img, s, DataBlocks(img, tables, owner, img.root[s].fcbIndex)).fcbs, tables)
    ensures OwnersOk(Deleted(img, s, DataBlocks(img, tables, owner, img.root[s].fcbIndex)).bitmap,
                     Deleted(img, s, DataBlocks(img, tables, owner, img.root[s].fcbIndex)).fcbs,
                     tables, Released(owner, img.root[s].fcbIndex))
  {
    var f := img.root[s].fcbIndex;
    DeleteBlocksOwned(img, tables, owner, f);
    ReleasedOwnersOk(img.bitmap, img.fcbs, tables, owner, f, DataBlocks(img, tables, owner, f));
  }

  /** Marking free exactly the blocks FCB f owns, and clearing FCB f, keeps the owner map
      and the bitmap in agreement. */
  lemma ReleasedOwnersOk(bm: seq<Word>, fcbs: seq<Fcb>, tables: seq<seq<int>>, owner: seq<Owner>,
                         f: int, ks: seq<int>)
    requires FcbsOk(fcbs, tables) && OwnersOk(bm, fcbs, tables, owner)
    requires 0 <= f < FCB_MAX && Active(fcbs, f)
    requires forall i :: 0 <= i < |ks| ==> 0 <= ks[i] < NBLOCKS
    requires forall k :: 0 <= k < NBLOCKS ==>
      ((k == fcbs[f].indexTablePtr || k in ks) <==> (owner[k] == IndexOf(f) || (owner[k].DataOf? && owner[k].fcb == f)))
    requires FcbsOk(fcbs[f := FreeFcb], tables)
    ensures OwnersOk(SetBit(SetBits(bm, ks), fcbs[f].indexTablePtr), fcbs[f := FreeFcb], tables, Released(owner, f))
  {
    var bm' := SetBit(SetBits(bm, ks), fcbs[f].indexTablePtr);
    var owner' := Released(owner, f);
    forall k | 0 <= k < NBLOCKS
      ensures Bit(bm', k) <==> owner'[k] == Free
    {
    }
    ReleasedFilesOwned(bm, fcbs, tables, owner, f, ks);
    ReleasedOwnersBack(bm, fcbs, tables, owner, f, ks);
  }

  lemma ReleasedFilesOwned(bm: seq<Word>, fcbs: seq<Fcb>, tables: seq<seq<int>>, owner: seq<Owner>,
                         f: int, ks: seq<int>)
    requires FcbsOk(fcbs, tables) && OwnersOk(bm, fcbs, tables, owner)
    requires 0 <= f < FCB_MAX && Active(fcbs, f)
    requires forall i :: 0 <= i < |ks| ==> 0 <= ks[i] < NBLOCKS
    requires forall k :: 0 <= k < NBLOCKS ==>
      ((k == fcbs[f].indexTablePtr || k in ks) <==> (owner[k] == IndexOf(f) || (owner[k].DataOf? && owner[k].fcb == f)))
    requires FcbsOk(fcbs[f := FreeFcb], tables)
    ensures FilesOwned(fcbs[f := FreeFcb], tables, Released(owner, f))
  {
    var fcbs' := fcbs[f := FreeFcb];
    var owner' := Released(owner, f);
    forall g | 0 <= g < FCB_MAX && Active(fcbs', g)
      ensures owner'[fcbs'[g].indexTablePtr] == IndexOf(g)
    {
      assert owner[fcbs[g].indexTablePtr] == IndexOf(g);
    }
    forall g, i | 0 <= g < FCB_MAX && Active(fcbs', g) && 0 <= i < UsedEntries(fcbs'[g].filesize)
      ensures owner'[tables[g][i]] == DataOf(g, i)
    {
      assert owner[tables[g][i]] == DataOf(g, i);
    }
  }

  lemma ReleasedOwnersBack(bm: seq<Word>, fcbs: seq<Fcb>, tables: seq<seq<int>>, owner: seq<Owner>,
                         f: int, ks: seq<int>)
    requires FcbsOk(fcbs, tables) && OwnersOk(bm, fcbs, tables, owner)
    requires 0 <= f < FCB_MAX && Active(fcbs, f)
    requires forall i :: 0 <= i < |ks| ==> 0 <= ks[i] < NBLOCKS
    requires forall k :: 0 <= k < NBLOCKS ==>
      ((k == fcbs[f].indexTablePtr || k in ks) <==> (owner[k] == IndexOf(f) || (owner[k].DataOf? && owner[k].fcb == f)))
    requires FcbsOk(fcbs[f := FreeFcb], tables)
    ensures OwnersBack(fcbs[f := FreeFcb], tables, Released(owner, f))
  {
    var fcbs' := fcbs[f := FreeFcb];
    var owner' := Released(owner, f);
    forall k | 0 <= k < NBLOCKS && owner'[k].IndexOf?
      ensures 0 <= owner'[k].fcb < FCB_MAX && Active(fcbs', owner'[k].fcb)
      ensures fcbs'[owner'[k].fcb].indexTablePtr == k
    {
      assert owner[k] == owner'[k];
    }
    forall k | 0 <= k < NBLOCKS && owner'[k].DataOf?
      ensures 0 <= owner'[k].fcb < FCB_MAX && Active(fcbs', owner'[k].fcb)
      ensures 0 <= owner'[k].pos < UsedEntries(fcbs'[owner'[k].fcb].filesize)
      ensures tables[owner'[k].fcb][owner'[k].pos] == k
    {
      assert owner[k] == owner'[k];
    }
  }

  /** Delete writes only the blocks of the deleted file: every block has full size after
      it, and a block the file does not own keeps its bytes. */
  lemma DeletedBlock(img: Image, tables: seq<seq<int>>, owner: seq<Owner>, s: int, k: int)
    requires ImageOk(img, tables, owner) && 0 <= s < ROOT_MAX
    requires 0 <= img.root[s].fcbIndex < FCB_MAX && Active(img.fcbs, img.root[s].fcbIndex)
    requires 0 <= k < NBLOCKS
    ensures |Deleted(img, s, DataBlocks(img, tables, owner, img.root[s].fcbIndex)).blocks[k]| == BLOCKSIZE
    ensures owner[k] != IndexOf(img.root[s].fcbIndex) && !(owner[k].DataOf? && owner[k].fcb == img.root[s].fcbIndex) ==>
      Deleted(img, s, DataBlocks(img, tables, owner, img.root[s].fcbIndex)).blocks[k] == img.blocks[k]
  {
    var f := img.root[s].fcbIndex;
    DeleteBlocksOwned(img, tables, owner, f);
    ZeroedBlocksAt(img.blocks, DataBlocks(img, tables, owner, f));
  }

  lemma DeleteStoredOk(img: Image, tables: seq<seq<int>>, owner: seq<Owner>, s: int)
    requires ImageOk(img, tables, owner) && 0 <= s < ROOT_MAX
    requires 0 <= img.root[s].fcbIndex < FCB_MAX && Active(img.fcbs, img.root[s].fcbIndex)
    requires FcbsOk(Deleted(img, s, DataBlocks(img, tables, owner, img.root[s].fcbIndex)).fcbs, tables)
    ensures StoredOk(Deleted(img, s, DataBlocks(img, tables, owner, img.root[s].fcbIndex)).blocks,
                     Deleted(img, s, DataBlocks(img, tables, owner, img.root[s].fcbIndex)).fcbs, tables)
  {
    var f := img.root[s].fcbIndex;
    var img' := Deleted(img, s, DataBlocks(img, tables, owner, f));
    forall k | 0 <= k < NBLOCKS
      ensures |img'.blocks[k]| == BLOCKSIZE
    {
      DeletedBlock(img, tables, owner, s, k);
    }
    forall g | 0 <= g < FCB_MAX && Active(img'.fcbs, g)
      ensures img'.blocks[img'.fcbs[g].indexTablePtr] == Encode(tables[g])
    {
      assert owner[img.fcbs[g].indexTablePtr] == IndexOf(g);
      DeletedBlock(img, tables, owner, s, img.fcbs[g].indexTablePtr);
    }
  }

  lemma DeleteKeepsFile(img: Image, tables: seq<seq<int>>, owner: seq<Owner>, s: int, g: int)
    requires ImageOk(img, tables, owner) && 0 <= s < ROOT_MAX
    requires 0 <= img.root[s].fcbIndex < FCB_MAX && Active(img.fcbs, img.root[s].fcbIndex)
    requires ImageOk(Deleted(img, s, DataBlocks(img, tables, owner, img.root[s].fcbIndex)), tables,
                     Released(owner, img.root[s].fcbIndex))
    requires 0 <= g < FCB_MAX && g != img.root[s].fcbIndex && Active(img.fcbs, g)
    ensures Active(Deleted(img, s, DataBlocks(img, tables, owner, img.root[s].fcbIndex)).fcbs, g)
    ensures Contents(Deleted(img, s, DataBlocks(img, tables, owner, img.root[s].fcbIndex)), tables,
                     Released(owner, img.root[s].fcbIndex), g)
         == Contents(img, tables, owner, g)
  {
    var f := img.root[s].fcbIndex;
    DeleteKeepsBlocksOf(img, tables, owner, s, g);
    FileBytesFrame(img.blocks, Deleted(img, s, DataBlocks(img, tables, owner, f)).blocks, tables[g],
                   img.fcbs[g].filesize);
  }

  /** The data blocks of a file other than the deleted one keep their bytes. */
  lemma DeleteKeepsBlocksOf(img: Image, tables: seq<seq<int>>, owner: seq<Owner>, s: int, g: int)
    requires ImageOk(img, tables, owner) && 0 <= s < ROOT_MAX
    requires 0 <= img.root[s].fcbIndex < FCB_MAX && Active(img.fcbs, img.root[s].fcbIndex)
    requires 0 <= g < FCB_MAX && g != img.root[s].fcbIndex && Active(img.fcbs, g)
    ensures forall i :: 0 <= i < UsedEntries(img.fcbs[g].filesize) ==>
      Deleted(img, s, DataBlocks(img, tables, owner, img.root[s].fcbIndex)).blocks[tables[g][i]]
      == img.blocks[tables[g][i]]
  {
    forall i | 0 <= i < UsedEntries(img.fcbs[g].filesize)
      ensures Deleted(img, s, DataBlocks(img, tables, owner, img.root[s].fcbIndex)).blocks[tables[g][i]]
              == img.blocks[tables[g][i]]
    {
      assert FcbOk(img.fcbs[g], tables[g]) && owner[tables[g][i]] == DataOf(g, i);
      DeletedBlock(img, tables, owner, s, tables[g][i]);
    }
  }

  /** The released blocks were all in use and are distinct, so every one of them, index block
      included, adds one to the free count. */
  lemma DeleteFreeCount(img: Image, tables: seq<seq<int>>, owner: seq<Owner>, f: int)
    requires ImageOk(img, tables, owner) && 0 <= f < FCB_MAX && Active(img.fcbs, f)
    ensures
      var ks := DataBlocks(img, tables, owner, f);
      CountFree(SetBit(SetBits(img.bitmap, ks), img.fcbs[f].indexTablePtr), NBLOCKS)
      == CountFree(img.bitmap, NBLOCKS) + |ks| + 1
  {
    var ks := DataBlocks(img, tables, owner, f);
    var ptr := img.fcbs[f].indexTablePtr;
    forall i, j | 0 <= i < j < |ks|
      ensures ks[i] != ks[j]
    {
      assert owner[ks[i]] == DataOf(f, i) && owner[ks[j]] == DataOf(f, j);
    }
    CountFreeSetBits(img.bitmap, ks, NBLOCKS);
    assert owner[ptr] == IndexOf(f);
    assert ptr !in ks;
    CountFreeSet(SetBits(img.bitmap, ks), ptr, NBLOCKS);
  }
}
