/**
 * What create and delete do to the persisted image, as functions of the
 * image before, and the proofs that they keep the image consistent.
 */
module Effects {
  import opened Layout
  import opened Bitmap
  import opened IndexTable
  import opened Tables
  import opened DiskImage

  /** A file's bytes depend only on the blocks its used index entries name. */
  lemma FileBytesFrame(blocks: seq<Block>, blocks': seq<Block>, t: seq<int>, size: int)
    requires Addressable(blocks, t, size)
    requires |blocks'| == |blocks|
    requires forall i :: 0 <= i < UsedEntries(size) ==> blocks'[t[i]] == blocks[t[i]]
    ensures Addressable(blocks', t, size)
    ensures FileBytes(blocks', t, size) == FileBytes(blocks, t, size)
  {
    forall p | 0 <= p < size
      ensures FileBytes(blocks', t, size)[p] == FileBytes(blocks, t, size)[p]
    {
      BlockOfBelow(p, UsedEntries(size));
    }
  }

  /** The image format leaves (simplefs.c lines 167-205): the superblock claims `count` free
      blocks, the bitmap marks every block from RESERVED on free and the reserved ones used,
      every directory entry and FCB is unused, and the blocks keep the container's bytes. */
  predicate Formatted(img: Image, name: string, count: int)
  {
    && img.sb == Superblock(name, count, count, 0)
    && |img.bitmap| == BITMAP_MAX && (forall k :: 0 <= k < NBLOCKS ==> (Bit(img.bitmap, k) <==> k >= RESERVED))
    && |img.root| == ROOT_MAX && (forall i :: 0 <= i < ROOT_MAX ==> img.root[i] == FreeEntry)
    && |img.fcbs| == FCB_MAX && (forall f :: 0 <= f < FCB_MAX ==> img.fcbs[f] == FreeFcb)
    && |img.blocks| == NBLOCKS && (forall k :: 0 <= k < NBLOCKS ==> |img.blocks[k]| == BLOCKSIZE)
  }

  /** The owner map of a freshly formatted disk: the reserved blocks and nothing else is taken. */
  function FormatOwners(): (owner: seq<Owner>)
    ensures |owner| == NBLOCKS
    ensures forall k :: 0 <= k < NBLOCKS ==> (owner[k] == Free <==> k >= RESERVED)
  {
    seq(NBLOCKS, k => if k < RESERVED then Reserved else Free)
  }

  /** A formatted disk of at most NBLOCKS blocks is consistent, with no file and no open slot. */
  lemma FormattedOk(img: Image, name: string, count: int, oft: seq<OftEntry>)
    requires Formatted(img, name, count) && 0 <= count <= NBLOCKS
    requires |oft| == OFT_MAX && forall d :: 0 <= d < OFT_MAX ==> oft[d].fcbIndex == -1
    ensures SessionOk(img, seq(FCB_MAX, _ => EmptyTable()), FormatOwners(), oft)
    ensures forall f :: 0 <= f < FCB_MAX ==> !Active(img.fcbs, f)
  {
    var tables := seq(FCB_MAX, _ => EmptyTable());
    assert FcbsOk(img.fcbs, tables);
    assert DirOk(img.root, img.fcbs);
  }

  /** Below any bound, a formatted bitmap has exactly the non-reserved blocks free. */
  lemma {:induction false} FormattedFreeBelow(bm: seq<Word>, hi: int)
    requires |bm| == BITMAP_MAX && forall k :: 0 <= k < NBLOCKS ==> (Bit(bm, k) <==> k >= RESERVED)
    requires 0 <= hi <= NBLOCKS
    ensures CountFree(bm, hi) == if hi <= RESERVED then 0 else hi - RESERVED
  {
    if hi > 0 {
      FormattedFreeBelow(bm, hi - 1);
    }
  }

  /** Format records all `count` blocks as free although the 13 reserved ones are marked used:
      on a disk of at least RESERVED blocks the free counter exceeds the free bits below the
      block count by exactly RESERVED. */
  lemma FormattedFreeCounter(img: Image, name: string, count: int)
    requires Formatted(img, name, count) && RESERVED <= count <= NBLOCKS
    ensures img.sb.blocksFree == CountFree(img.bitmap, img.sb.blocks) + RESERVED
  {
    FormattedFreeBelow(img.bitmap, count);
  }

  /** Create gives up: the name is met before a free directory slot, or there is no free
      directory slot, no free FCB, or no free bit below the disk's block count. */
  predicate CreateBlocked(root: seq<DirEntry>, fcbs: seq<Fcb>, bm: seq<Word>, nblocks: int, name: string)
    requires |root| == ROOT_MAX && |fcbs| == FCB_MAX && |bm| == BITMAP_MAX && nblocks <= NBLOCKS
  {
    || DuplicateBeforeFree(root, name)
    || AllUsedBefore(root, ROOT_MAX)
    || (forall f :: 0 <= f < FCB_MAX ==> fcbs[f].indexTablePtr != -1)
    || (forall k :: 0 <= k < nblocks ==> !Bit(bm, k))
  }

  /** Create's choices: the lowest free directory slot (reached without meeting the name),
      the lowest free FCB and the lowest free block below the disk's block count. */
  predicate CreateSlots(root: seq<DirEntry>, fcbs: seq<Fcb>, bm: seq<Word>, nblocks: int, s: int, f: int, b: int)
    requires |root| == ROOT_MAX && |fcbs| == FCB_MAX && |bm| == BITMAP_MAX
  {
    && 0 <= s < ROOT_MAX && root[s].fcbIndex == -1 && AllUsedBefore(root, s)
    && 0 <= f < FCB_MAX && fcbs[f].indexTablePtr == -1
    && (forall i :: 0 <= i < f ==> fcbs[i].indexTablePtr != -1)
    && 0 <= b < nblocks && b < NBLOCKS && Bit(bm, b)
    && (forall j :: 0 <= j < b ==> !Bit(bm, j))
  }

  /** Create's choices on a whole image. */
  predicate CreateChoice(img: Image, name: string, s: int, f: int, b: int)
    requires |img.root| == ROOT_MAX && |img.fcbs| == FCB_MAX && |img.bitmap| == BITMAP_MAX
  {
    CreateSlots(img.root, img.fcbs, img.bitmap, img.sb.blocks, s, f, b)
  }

  /** The image create writes back (simplefs.c lines 326-345). */
  function Created(img: Image, name: string, s: int, f: int, b: int): (r: Image)
    requires |img.root| == ROOT_MAX && |img.fcbs| == FCB_MAX && |img.bitmap| == BITMAP_MAX
    requires |img.blocks| == NBLOCKS && CreateChoice(img, name, s, f, b)
    ensures |r.root| == ROOT_MAX && |r.fcbs| == FCB_MAX && |r.bitmap| == BITMAP_MAX && |r.blocks| == NBLOCKS
    ensures r.sb.blocks == img.sb.blocks
  {
    Image(
      img.sb.(blocksFree := img.sb.blocksFree - 1, blocksOccupied := img.sb.blocksOccupied + 1),
      ClearBit(img.bitmap, b),
      img.root[s := DirEntry(name, f)],
      img.fcbs[f := Fcb(0, b, -1, -1)],
      img.blocks[b := Encode(EmptyTable())])
  }

  /** Create keeps the image consistent: the new FCB owns the new index block, every other
      file keeps its blocks and bytes, and the open-file table stays valid. */
  lemma CreateKeepsImageOk(img: Image, tables: seq<seq<int>>, owner: seq<Owner>, oft: seq<OftEntry>,
                           name: string, s: int, f: int, b: int)
    requires ImageOk(img, tables, owner) && OftOk(oft, img.fcbs)
    requires 0 < |name| <= MAX_NAME_LEN && CreateChoice(img, name, s, f, b)
    ensures SessionOk(Created(img, name, s, f, b), tables[f := EmptyTable()], owner[b := IndexOf(f)], oft)
    ensures FilesPreserved(img, tables, owner,
                           Created(img, name, s, f, b), tables[f := EmptyTable()], owner[b := IndexOf(f)])
    ensures CountFree(Created(img, name, s, f, b).bitmap, NBLOCKS) == CountFree(img.bitmap, NBLOCKS) - 1
    ensures Created(img, name, s, f, b).sb.blocksFree == img.sb.blocksFree - 1
    ensures Created(img, name, s, f, b).sb.blocksOccupied == img.sb.blocksOccupied + 1
  {
    var img' := Created(img, name, s, f, b);
    CountFreeClear(img.bitmap, b, NBLOCKS);
    var tables' := tables[f := EmptyTable()];
    var owner' := owner[b := IndexOf(f)];
    CreateFcbsOk(img, tables, owner, name, s, f, b);
    CreateDirOk(img, tables, owner, name, s, f, b);
    CreateOwnersOk(img, tables, owner, name, s, f, b);
    CreateStoredOk(img, tables, owner, name, s, f, b);
    assert ImageOk(img', tables', owner');
    forall g | 0 <= g < FCB_MAX && Active(img.fcbs, g)
      ensures Contents(img', tables', owner', g) == Contents(img, tables, owner, g)
    {
      CreateKeepsFile(img, tables, owner, name, s, f, b, g);
    }
  }

  lemma CreateFcbsOk(img: Image, tables: seq<seq<int>>, owner: seq<Owner>, name: string, s: int, f: int, b: int)
    requires ImageOk(img, tables, owner)
    requires 0 < |name| <= MAX_NAME_LEN && CreateChoice(img, name, s, f, b)
    ensures FcbsOk(Created(img, name, s, f, b).fcbs, tables[f := EmptyTable()])
  {
    var img' := Created(img, name, s, f, b);
    var tables' := tables[f := EmptyTable()];
    assert owner[b] == Free;
    forall g | 0 <= g < FCB_MAX
      ensures FcbOk(img'.fcbs[g], tables'[g])
    {
      if g == f {
        assert CursorOk(img'.fcbs[g], tables'[g]);
      }
    }
  }

  lemma CreateDirOk(img: Image, tables: seq<seq<int>>, owner: seq<Owner>, name: string, s: int, f: int, b: int)
    requires ImageOk(img, tables, owner)
    requires 0 < |name| <= MAX_NAME_LEN && CreateChoice(img, name, s, f, b)
    ensures DirOk(Created(img, name, s, f, b).root, Created(img, name, s, f, b).fcbs)
  {
    var img' := Created(img, name, s, f, b);
    forall i | 0 <= i < ROOT_MAX
      ensures EntryOk(img'.root[i], img'.fcbs)
    {
      if i != s && img.root[i].fcbIndex != -1 {
        assert EntryOk(img.root[i], img.fcbs);
        assert img.root[i].fcbIndex != f;
      }
    }
    forall i, j | 0 <= i < ROOT_MAX && 0 <= j < ROOT_MAX && i != j && img'.root[i].fcbIndex != -1
      ensures img'.root[i].fcbIndex != img'.root[j].fcbIndex
    {
      if i == s {
        assert EntryOk(img.root[j], img.fcbs);
      } else if j == s {
        assert EntryOk(img.root[i], img.fcbs);
      }
    }
  }

  lemma CreateOwnersOk(img: Image, tables: seq<seq<int>>, owner: seq<Owner>, name: string, s: int, f: int, b: int)
    requires ImageOk(img, tables, owner)
    requires 0 < |name| <= MAX_NAME_LEN && CreateChoice(img, name, s, f, b)
    requires FcbsOk(Created(img, name, s, f, b).fcbs, tables[f := EmptyTable()])
    ensures OwnersOk(Created(img, name, s, f, b).bitmap, Created(img, name, s, f, b).fcbs,
                     tables[f := EmptyTable()], owner[b := IndexOf(f)])
  {
    ClaimedOwnersOk(img.bitmap, img.fcbs, tables, owner, f, b);
  }

  /** Handing a free block to a free FCB as its index block, and clearing the block's bit,
      keeps the owner map and the bitmap in agreement. */
  lemma ClaimedOwnersOk(bm: seq<Word>, fcbs: seq<Fcb>, tables: seq<seq<int>>, owner: seq<Owner>, f: int, b: int)
    requires FcbsOk(fcbs, tables) && OwnersOk(bm, fcbs, tables, owner)
    requires 0 <= f < FCB_MAX && fcbs[f].indexTablePtr == -1
    requires 0 <= b < NBLOCKS && Bit(bm, b)
    requires FcbsOk(fcbs[f := Fcb(0, b, -1, -1)], tables[f := EmptyTable()])
    ensures OwnersOk(ClearBit(bm, b), fcbs[f := Fcb(0, b, -1, -1)], tables[f := EmptyTable()], owner[b := IndexOf(f)])
  {
    assert owner[b] == Free;
    ClaimedFilesOwned(bm, fcbs, tables, owner, f, b);
    ClaimedOwnersBack(bm, fcbs, tables, owner, f, b);
  }

  lemma ClaimedFilesOwned(bm: seq<Word>, fcbs: seq<Fcb>, tables: seq<seq<int>>, owner: seq<Owner>, f: int, b: int)
    requires FcbsOk(fcbs, tables) && OwnersOk(bm, fcbs, tables, owner)
    requires 0 <= f < FCB_MAX && fcbs[f].indexTablePtr == -1
    requires 0 <= b < NBLOCKS && owner[b] == Free
    requires FcbsOk(fcbs[f := Fcb(0, b, -1, -1)], tables[f := EmptyTable()])
    ensures FilesOwned(fcbs[f := Fcb(0, b, -1, -1)], tables[f := EmptyTable()], owner[b := IndexOf(f)])
  {
    var fcbs' := fcbs[f := Fcb(0, b, -1, -1)];
    var tables' := tables[f := EmptyTable()];
    var owner' := owner[b := IndexOf(f)];
    forall g | 0 <= g < FCB_MAX && Active(fcbs', g)
      ensures owner'[fcbs'[g].indexTablePtr] == IndexOf(g)
    {
      if g != f {
        assert owner[fcbs[g].indexTablePtr] == IndexOf(g);
      }
    }
    forall g, i | 0 <= g < FCB_MAX && Active(fcbs', g) && 0 <= i < UsedEntries(fcbs'[g].filesize)
      ensures owner'[tables'[g][i]] == DataOf(g, i)
    {
      assert g != f;
      assert owner[tables[g][i]] == DataOf(g, i);
    }
  }

  lemma ClaimedOwnersBack(bm: seq<Word>, fcbs: seq<Fcb>, tables: seq<seq<int>>, owner: seq<Owner>, f: int, b: int)
    requires FcbsOk(fcbs, tables) && OwnersOk(bm, fcbs, tables, owner)
    requires 0 <= f < FCB_MAX && fcbs[f].indexTablePtr == -1
    requires 0 <= b < NBLOCKS && owner[b] == Free
    requires FcbsOk(fcbs[f := Fcb(0, b, -1, -1)], tables[f := EmptyTable()])
    ensures OwnersBack(fcbs[f := Fcb(0, b, -1, -1)], tables[f := EmptyTable()], owner[b := IndexOf(f)])
  {
    assert fcbs[f] == FreeFcb;
  }

  lemma CreateStoredOk(img: Image, tables: seq<seq<int>>, owner: seq<Owner>, name: string, s: int, f: int, b: int)
    requires ImageOk(img, tables, owner)
    requires 0 < |name| <= MAX_NAME_LEN && CreateChoice(img, name, s, f, b)
    requires FcbsOk(Created(img, name, s, f, b).fcbs, tables[f := EmptyTable()])
    ensures StoredOk(Created(img, name, s, f, b).blocks, Created(img, name, s, f, b).fcbs, tables[f := EmptyTable()])
  {
    var img' := Created(img, name, s, f, b);
    var tables' := tables[f := EmptyTable()];
    assert owner[b] == Free;
    forall g | 0 <= g < FCB_MAX && Active(img'.fcbs, g)
      ensures img'.blocks[img'.fcbs[g].indexTablePtr] == Encode(tables'[g])
    {
      if g != f {
        assert owner[img.fcbs[g].indexTablePtr] == IndexOf(g);
      }
    }
  }

  lemma CreateKeepsFile(img: Image, tables: seq<seq<int>>, owner: seq<Owner>, name: string, s: int, f: int, b: int, g: int)
    requires ImageOk(img, tables, owner)
    requires 0 < |name| <= MAX_NAME_LEN && CreateChoice(img, name, s, f, b)
    requires ImageOk(Created(img, name, s, f, b), tables[f := EmptyTable()], owner[b := IndexOf(f)])
    requires 0 <= g < FCB_MAX && Active(img.fcbs, g)
    ensures Active(Created(img, name, s, f, b).fcbs, g)
    ensures Contents(Created(img, name, s, f, b), tables[f := EmptyTable()], owner[b := IndexOf(f)], g)
         == Contents(img, tables, owner, g)
  {
    var img' := Created(img, name, s, f, b);
    assert owner[b] == Free;
    assert g != f;
    forall i | 0 <= i < UsedEntries(img.fcbs[g].filesize)
      ensures img'.blocks[tables[g][i]] == img.blocks[tables[g][i]]
    {
      assert owner[tables[g][i]] == DataOf(g, i);
    }
    FileBytesFrame(img.blocks, img'.blocks, tables[g], img.fcbs[g].filesize);
  }
}
