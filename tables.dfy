/**
 * The records of simplefs.c (superblock, directory entry, file control
 * block, open-file-table entry) as typed values, with -1 kept as the
 * "unused" value exactly where the C code stores it, and the first-fit
 * scans that the operations run over the directory, the FCB table and the
 * open-file table.
 */
module Tables {
  import opened Layout

  /** Block 0: the disk's name, its size in blocks and the two block counters. */
  datatype Superblock = Superblock(vdiskname: string, blocks: int, blocksFree: int, blocksOccupied: int)

  /** A directory entry: a name (empty when the slot is unused) and an FCB index (-1 when unused). */
  datatype DirEntry = DirEntry(filename: string, fcbIndex: int)

  /** A file control block; every field is -1 in an unused block. */
  datatype Fcb = Fcb(filesize: int, indexTablePtr: int, blockLastWritten: int, offsetOfLastWrtBlock: int)

  /** An open-file-table slot: the FCB it refers to (-1 when the slot is free) and its mode. */
  datatype OftEntry = OftEntry(fcbIndex: int, openMode: int)

  /** A directory entry as format leaves it and delete restores it. */
  const FreeEntry: DirEntry := DirEntry("", -1)

  /** An FCB as format leaves it and delete restores it. */
  const FreeFcb: Fcb := Fcb(-1, -1, -1, -1)

  /** An open-file-table slot as close leaves it. */
  const ClosedSlot: OftEntry := OftEntry(-1, -1)

  /** Every directory slot before i is in use, so create's scan reaches slot i. */
  predicate AllUsedBefore(root: seq<DirEntry>, i: int)
    requires 0 <= i <= |root|
  {
    forall j :: 0 <= j < i ==> root[j].fcbIndex != -1
  }

  /** Create's duplicate test: some entry named `name` is met before the scan stops at a free slot. */
  predicate DuplicateBeforeFree(root: seq<DirEntry>, name: string)
  {
    exists i :: 0 <= i < |root| && AllUsedBefore(root, i) && root[i].filename == name
  }

  /** Create's directory scan (simplefs.c lines 269-283): each slot's name is compared
      first, and the scan stops at the first slot whose fcb_index is -1. */
  method ScanDirectory(root: seq<DirEntry>, name: string) returns (duplicate: bool, slot: int)
    requires |root| == ROOT_MAX
    ensures duplicate <==> DuplicateBeforeFree(root, name)
    ensures duplicate ==> slot == -1
    ensures !duplicate ==> -1 <= slot < ROOT_MAX
    ensures !duplicate && slot == -1 ==> AllUsedBefore(root, ROOT_MAX)
    ensures !duplicate && slot != -1 ==> root[slot].fcbIndex == -1 && AllUsedBefore(root, slot)
  {
    var i := 0;
    while i < ROOT_MAX
      invariant 0 <= i <= ROOT_MAX
      invariant AllUsedBefore(root, i)
      invariant forall j :: 0 <= j < i ==> root[j].filename != name
    {
      if root[i].filename == name {
        return true, -1;
      }
      if root[i].fcbIndex == -1 {
        return false, i;
      }
      i := i + 1;
    }
    return false, -1;
  }

  /** The FCB scan of create (simplefs.c lines 293-301): the lowest FCB whose
      index_table_ptr is -1, or -1 when there is none. */
  method FindFreeFcb(fcbs: seq<Fcb>) returns (f: int)
    requires |fcbs| == FCB_MAX
    ensures -1 <= f < FCB_MAX
    ensures f == -1 <==> forall i :: 0 <= i < FCB_MAX ==> fcbs[i].indexTablePtr != -1
    ensures f != -1 ==> fcbs[f].indexTablePtr == -1 && forall i :: 0 <= i < f ==> fcbs[i].indexTablePtr != -1
  {
    var i := 0;
    while i < FCB_MAX
      invariant 0 <= i <= FCB_MAX
      invariant forall j :: 0 <= j < i ==> fcbs[j].indexTablePtr != -1
    {
      if fcbs[i].indexTablePtr == -1 {
        return i;
      }
      i := i + 1;
    }
    return -1;
  }

  /** The name lookup of open and delete (simplefs.c lines 356-364, 600-610): the lowest
      directory slot whose name equals `name`, or -1. */
  method FindName(root: seq<DirEntry>, name: string) returns (s: int)
    requires |root| == ROOT_MAX
    ensures -1 <= s < ROOT_MAX
    ensures s == -1 <==> forall i :: 0 <= i < ROOT_MAX ==> root[i].filename != name
    ensures s != -1 ==> root[s].filename == name && forall i :: 0 <= i < s ==> root[i].filename != name
  {
    var i := 0;
    while i < ROOT_MAX
      invariant 0 <= i <= ROOT_MAX
      invariant forall j :: 0 <= j < i ==> root[j].filename != name
    {
      if root[i].filename == name {
        return i;
      }
      i := i + 1;
    }
    return -1;
  }

  /** The slot scan of open (simplefs.c lines 375-383): the lowest open-file-table slot
      whose fcb_index is -1, or -1 when all are taken. */
  method FindFreeSlot(oft: seq<OftEntry>) returns (d: int)
    requires |oft| == OFT_MAX
    ensures -1 <= d < OFT_MAX
    ensures d == -1 <==> forall i :: 0 <= i < OFT_MAX ==> oft[i].fcbIndex != -1
    ensures d != -1 ==> oft[d].fcbIndex == -1 && forall i :: 0 <= i < d ==> oft[i].fcbIndex != -1
  {
    var i := 0;
    while i < OFT_MAX
      invariant 0 <= i <= OFT_MAX
      invariant forall j :: 0 <= j < i ==> oft[j].fcbIndex != -1
    {
      if oft[i].fcbIndex == -1 {
        return i;
      }
      i := i + 1;
    }
    return -1;
  }
}
