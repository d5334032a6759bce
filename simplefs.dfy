/**
 * simplefs: the file operations of simplefs.c over a modelled virtual disk.
 *
 * `Disk` is the persisted state: the superblock, bitmap, directory and FCB
 * table regions as typed values, and the bytes of every block. `FileSystem`
 * holds what the C code keeps in its global buffers: the in-memory copies
 * of the regions, the index-table buffer and the open-file table. Every
 * operation reloads the regions it needs from the disk, updates the copies
 * in place and writes them back at its end, so an operation that fails
 * before that point leaves the persisted regions as they were.
 */
module SimpleFs {
  import opened Layout
  import opened Bitmap
  import opened IndexTable
  import opened Tables
  import opened DiskImage
  import opened Effects
  import opened DeleteEffects
  import opened AppendEffects
  import opened AppendProofs

  /** 2 to the power m: the size in bytes of a disk formatted with parameter m. */
  function Pow2(m: int): (p: int)
    requires 0 <= m
    ensures p >= 1
  {
    if m == 0 then 1 else 2 * Pow2(m - 1)
  }

  /** Pow2 grows with its exponent. */
  lemma {:induction false} Pow2Monotone(a: int, b: int)
    requires 0 <= a <= b
    ensures Pow2(a) <= Pow2(b)
  {
    if a < b {
      Pow2Monotone(a, b - 1);
    }
  }

  /** A disk of 2^m bytes with m <= 29 has at most as many blocks as the bitmap has bits. */
  lemma FormatBlockCount(m: int)
    requires 0 <= m <= 29
    ensures 0 <= Pow2(m) / BLOCKSIZE <= NBLOCKS
  {
    Pow2Monotone(m, 29);
    Pow2Of29();
  }

  lemma Pow2Of29()
    ensures Pow2(29) == 0x2000_0000
  {
    assert Pow2(10) == 0x400;
    assert Pow2(20) == 0x10_0000;
  }

  /** The three searches of sfs_create (simplefs.c lines 266-319): a directory slot, an FCB
      and an index block, each the lowest free one; -1 in `s` when one of them fails or the
      name is met first. */
  method SelectCreateSlots(root: seq<DirEntry>, fcbs: seq<Fcb>, bm: seq<Word>, nblocks: int, name: string)
    returns (s: int, f: int, b: int)
    requires |root| == ROOT_MAX && |fcbs| == FCB_MAX && |bm| == BITMAP_MAX && 0 <= nblocks <= NBLOCKS
    ensures s == -1 <==> CreateBlocked(root, fcbs, bm, nblocks, name)
    ensures s != -1 ==> CreateSlots(root, fcbs, bm, nblocks, s, f, b)
  {
    var duplicate;
    duplicate, s := ScanDirectory(root, name);
    if duplicate || s == -1 {
      return -1, -1, -1;
    }
    f := FindFreeFcb(fcbs);
    if f == -1 {
      return -1, -1, -1;
    }
    b := FindFreeBlock(bm, nblocks);
    if b == -1 {
      return -1, -1, -1;
    }
  }

  /** The memcpy of sfs_read (simplefs.c line 462): the first `count` bytes of `block` go to
      buf from position `at` on, and nothing else in buf changes. */
  method CopyChunk(block: Block, buf: array<byte>, at: int, count: int)
    requires 0 <= count <= |block| && 0 <= at && at + count <= buf.Length
    modifies buf
    ensures forall q :: 0 <= q < count ==> buf[at + q] == block[q]
    ensures forall p :: 0 <= p < buf.Length && !(at <= p < at + count) ==> buf[p] == old(buf[p])
  {
    forall q | 0 <= q < count {
      buf[at + q] := block[q];
    }
  }

  /** The copy loop of sfs_read (simplefs.c lines 447-469): walks the index table `t` of a
      file of `size` bytes and copies its first n bytes into buf, BLOCKSIZE at a time, stopping
      once n bytes are copied; returns the count copied. */
  method CopyOut(blocks: array<Block>, t: seq<int>, buf: array<byte>, n: int, ghost size: int) returns (copied: int)
    requires Addressable(blocks[..], t, size) && |t| == INDEX_MAX
    requires forall i :: UsedEntries(size) <= i < INDEX_MAX ==> t[i] == -1
    requires 0 <= n <= size && n <= buf.Length
    modifies buf
    ensures copied == n
    ensures buf[..n] == FileBytes(blocks[..], t, size)[..n] && buf[n..] == old(buf[n..])
  {
    ghost var data := FileBytes(blocks[..], t, size);
    var rem, i := n, 0;
    copied := 0;
    while i < INDEX_MAX
      invariant 0 <= i < INDEX_MAX + 1 && 0 <= rem <= n && copied == n - rem
      invariant copied == i * BLOCKSIZE && (i == 0 || rem > 0)
      invariant forall q :: 0 <= q < copied ==> buf[q] == data[q]
      invariant forall q :: copied <= q < buf.Length ==> buf[q] == old(buf[q])
    {
      if t[i] != -1 {
        if rem > 0 {
          FileBytesAt(blocks[..], t, size, i, 0);
        }
        var block := blocks[t[i]];
        var toCopy;
        if rem > BLOCKSIZE {
          toCopy := BLOCKSIZE;
          rem := rem - BLOCKSIZE;
        } else {
          toCopy := rem;
          rem := 0;
        }
        CopyChunk(block, buf, copied, toCopy);
        forall p | copied <= p < copied + toCopy
          ensures buf[p] == data[p]
        {
          FileBytesAt(blocks[..], t, size, i, p - copied);
        }
        copied := copied + toCopy;
      }
      if rem <= 0 {
        break;
      }
      i := i + 1;
    }
  }

  /** The virtual disk: the persisted metadata regions and the contents of every block. */
  class Disk {
    var superblock: Superblock
    var bitmap: seq<Word>
    var root: seq<DirEntry>
    var fcbTable: seq<Fcb>
    const blocks: array<Block>

    /** A container filled with zero bytes, as `dd if=/dev/zero` leaves it. */
    constructor Zeroed()
      ensures fresh(blocks)
      ensures blocks.Length == NBLOCKS && forall k :: 0 <= k < NBLOCKS ==> blocks[k] == ZeroBlock()
      ensures superblock == Superblock("", 0, 0, 0) && bitmap == seq(BITMAP_MAX, _ => 0)
      ensures root == seq(ROOT_MAX, _ => DirEntry("", 0)) && fcbTable == seq(FCB_MAX, _ => Fcb(0, 0, 0, 0))
    {
      superblock := Superblock("", 0, 0, 0);
      bitmap := seq(BITMAP_MAX, _ => 0);
      root := seq(ROOT_MAX, _ => DirEntry("", 0));
      fcbTable := seq(FCB_MAX, _ => Fcb(0, 0, 0, 0));
      blocks := new Block[NBLOCKS](_ => ZeroBlock());
    }

    /** The persisted state as one value. */
    ghost function Persisted(): Image
      reads this, blocks
    {
      Image(superblock, bitmap, root, fcbTable, blocks[..])
    }

    /** write_block of the superblock (block 0). */
    method WriteSuperblock(sb: Superblock)
      modifies this
      ensures Persisted() == old(Persisted()).(sb := sb)
    {
      superblock := sb;
    }

    /** write_struct of the bitmap region (blocks 1-4). */
    method WriteBitmap(bm: seq<Word>)
      modifies this
      ensures Persisted() == old(Persisted()).(bitmap := bm)
    {
      bitmap := bm;
    }

    /** write_struct of the directory region (blocks 5-8). */
    method WriteRoot(rt: seq<DirEntry>)
      modifies this
      ensures Persisted() == old(Persisted()).(root := rt)
    {
      root := rt;
    }

    /** write_struct of the FCB-table region (blocks 9-12). */
    method WriteFcbTable(fc: seq<Fcb>)
      modifies this
      ensures Persisted() == old(Persisted()).(fcbs := fc)
    {
      fcbTable := fc;
    }

    /** write_block of one data or index block. */
    method WriteBlock(k: int, data: Block)
      requires 0 <= k < blocks.Length
      modifies blocks
      ensures blocks[..] == old(blocks[..])[k := data]
      ensures Persisted() == old(Persisted()).(blocks := old(blocks[..])[k := data])
    {
      blocks[k] := data;
    }
  }

  /** A mounted simplefs session. */
  class FileSystem {
    const disk: Disk
    /** In-memory copies of the regions (the globals superblock, bitmap, root, fcb_table). */
    var superblock: Superblock
    var bitmap: seq<Word>
    var root: seq<DirEntry>
    var fcbTable: seq<Fcb>
    /** The index-table buffer. */
    var indexTable: seq<int>
    /** The open-file table; it lives only in memory. */
    var oft: seq<OftEntry>
    /** The index table of each FCB, as stored in its index block. */
    ghost var tables: seq<seq<int>>
    /** The owner of each block. */
    ghost var owner: seq<Owner>

    /** The in-memory buffers have their fixed sizes. */
    ghost predicate Buffers()
      reads this`bitmap, this`root, this`fcbTable, this`indexTable
    {
      |bitmap| == BITMAP_MAX && |root| == ROOT_MAX && |fcbTable| == FCB_MAX && |indexTable| == INDEX_MAX
    }

    /** The session invariant: the persisted image is consistent and the open-file table
        refers only to existing files. */
    ghost predicate Valid()
      reads this, disk, disk.blocks
    {
      Buffers() && Consistent()
    }

    /** The persisted image and the open-file table are consistent. */
    ghost predicate Consistent()
      reads this`tables, this`owner, this`oft, disk, disk.blocks
    {
      SessionOk(disk.Persisted(), tables, owner, oft)
    }

    /** The bytes of the file that FCB f describes, as persisted. */
    ghost function FileContents(f: int): seq<byte>
      reads this`tables, this`owner, this`oft, disk, disk.blocks
      requires Consistent() && 0 <= f < FCB_MAX && Active(disk.fcbTable, f)
    {
      Contents(disk.Persisted(), tables, owner, f)
    }

    /** create_format_vdisk followed by sfs_mount (simplefs.c lines 151-234): a zero-filled
        disk of 2^m bytes is given an empty file system, and a session with an empty
        open-file table is started on it. */
    constructor Format(vdiskname: string, m: int)
      requires |vdiskname| < MAX_NAME && 0 <= m <= 29
      ensures Valid() && fresh(disk) && fresh(disk.blocks)
      ensures Formatted(disk.Persisted(), vdiskname, Pow2(m) / BLOCKSIZE)
      ensures forall k :: 0 <= k < NBLOCKS ==> disk.blocks[k] == ZeroBlock()
      ensures forall d :: 0 <= d < OFT_MAX ==> oft[d].fcbIndex == -1
    {
      var count := Pow2(m) / BLOCKSIZE;
      FormatBlockCount(m);
      var d := new Disk.Zeroed();
      // the buffers sfs_mount allocates hold unspecified values
      assert |seq(BITMAP_MAX, _ => 0 as Word)| == BITMAP_MAX;
      var bm: seq<Word> :| |bm| == BITMAP_MAX;
      assert |seq(ROOT_MAX, _ => FreeEntry)| == ROOT_MAX;
      var rt: seq<DirEntry> :| |rt| == ROOT_MAX;
      assert |seq(FCB_MAX, _ => FreeFcb)| == FCB_MAX;
      var fc: seq<Fcb> :| |fc| == FCB_MAX;
      var sb := Superblock(vdiskname, count, count, 0);

      var i := 0;
      while i < BITMAP_MAX
        invariant 0 <= i <= BITMAP_MAX && |bm| == BITMAP_MAX
        invariant forall w :: 0 <= w < i ==> bm[w] == 0
      {
        bm := bm[i := 0];
        i := i + 1;
      }
      assert forall k :: 0 <= k < NBLOCKS ==> !Bit(bm, k);
      i := 0;
      while i < RESERVED
        invariant 0 <= i <= RESERVED && |bm| == BITMAP_MAX
        invariant forall k :: 0 <= k < NBLOCKS ==> !Bit(bm, k)
      {
        bm := ClearBit(bm, i);
        i := i + 1;
      }
      while i < NBLOCKS
        invariant RESERVED <= i <= NBLOCKS && |bm| == BITMAP_MAX
        invariant forall k :: 0 <= k < NBLOCKS ==> (Bit(bm, k) <==> RESERVED <= k < i)
      {
        bm := SetBit(bm, i);
        i := i + 1;
      }
      i := 0;
      while i < ROOT_MAX
        invariant 0 <= i <= ROOT_MAX && |rt| == ROOT_MAX
        invariant forall j :: 0 <= j < i ==> rt[j] == FreeEntry
      {
        rt := rt[i := FreeEntry];
        i := i + 1;
      }
      i := 0;
      while i < FCB_MAX
        invariant 0 <= i <= FCB_MAX && |fc| == FCB_MAX
        invariant forall j :: 0 <= j < i ==> fc[j] == FreeFcb
      {
        fc := fc[i := FreeFcb];
        i := i + 1;
      }
      d.superblock := sb;
      d.bitmap := bm;
      d.root := rt;
      d.fcbTable := fc;

      // sfs_umount, then sfs_mount of the formatted disk: only the open-file table is set up
      assert |seq(OFT_MAX, _ => ClosedSlot)| == OFT_MAX;
      var o: seq<OftEntry> :| |o| == OFT_MAX;
      i := 0;
      while i < OFT_MAX
        invariant 0 <= i <= OFT_MAX && |o| == OFT_MAX
        invariant forall j :: 0 <= j < i ==> o[j].fcbIndex == -1
      {
        o := o[i := o[i].(fcbIndex := -1)];
        i := i + 1;
      }
      assert Formatted(d.Persisted(), vdiskname, count);
      FormattedOk(d.Persisted(), vdiskname, count, o);
      disk := d;
      superblock, bitmap, root, fcbTable := sb, bm, rt, fc;
      indexTable := EmptyTable();
      oft := o;
      tables := seq(FCB_MAX, _ => EmptyTable());
      owner := FormatOwners();
    }

    /** sfs_create (simplefs.c lines 254-348). */
    method Create(filename: string) returns (r: int)
      requires Valid()
      modifies this, disk, disk.blocks
      ensures Valid() && oft == old(oft)
      ensures r == 0 || r == -1
      ensures r == 0 <==> (0 < |filename| <= MAX_NAME_LEN
        && !CreateBlocked(old(disk.root), old(disk.fcbTable), old(disk.bitmap), old(disk.superblock.blocks), filename))
      ensures r == -1 ==> disk.Persisted() == old(disk.Persisted())
      ensures r == 0 ==> exists s, f, b ::
        && CreateChoice(old(disk.Persisted()), filename, s, f, b)
        && disk.Persisted() == Created(old(disk.Persisted()), filename, s, f, b)
        && FileContents(f) == []
      ensures r == 0 ==> FilesPreserved(old(disk.Persisted()), old(tables), old(owner), disk.Persisted(), tables, owner)
    {
      ghost var before := disk.Persisted();
      assert ImageOk(before, tables, owner) && OftOk(oft, before.fcbs);
      if |filename| > MAX_NAME_LEN || |filename| == 0 {
        return -1;
      }
      superblock := disk.superblock;
      bitmap := disk.bitmap;
      root := disk.root;
      fcbTable := disk.fcbTable;
      var s, f, b := SelectCreateSlots(root, fcbTable, bitmap, superblock.blocks, filename);
      if s == -1 {
        return -1;
      }
      assert CreateChoice(before, filename, s, f, b);
      CommitCreate(filename, s, f, b);
      CreateKeepsImageOk(before, tables, owner, oft, filename, s, f, b);
      tables := tables[f := EmptyTable()];
      owner := owner[b := IndexOf(f)];
      assert FileContents(f) == [];
      return 0;
    }

    /** The updates sfs_create makes once its searches succeeded (simplefs.c lines 326-345):
        the directory entry, the FCB, the bitmap bit and the counters in memory, an empty
        index table in the buffer, and then all of them written back. */
    method CommitCreate(filename: string, s: int, f: int, b: int)
      requires Buffers() && disk.blocks.Length == NBLOCKS
      requires superblock == disk.superblock && bitmap == disk.bitmap
      requires root == disk.root && fcbTable == disk.fcbTable
      requires CreateChoice(disk.Persisted(), filename, s, f, b)
      modifies this`superblock, this`bitmap, this`root, this`fcbTable, this`indexTable, disk, disk.blocks
      ensures Buffers() && indexTable == EmptyTable()
      ensures disk.Persisted() == Created(old(disk.Persisted()), filename, s, f, b)
    {
      ghost var before := disk.Persisted();
      root := root[s := DirEntry(filename, f)];
      fcbTable := fcbTable[f := Fcb(0, b, -1, -1)];
      bitmap := ClearBit(bitmap, b);
      superblock := superblock.(blocksFree := superblock.blocksFree - 1,
                                blocksOccupied := superblock.blocksOccupied + 1);
      var i := 0;
      while i < INDEX_MAX
        modifies this`indexTable
        invariant 0 <= i <= INDEX_MAX && |indexTable| == INDEX_MAX
        invariant forall j :: 0 <= j < i ==> indexTable[j] == -1
      {
        indexTable := indexTable[i := -1];
        i := i + 1;
      }
      assert indexTable == EmptyTable();

      disk.WriteSuperblock(superblock);
      disk.WriteBitmap(bitmap);
      disk.WriteRoot(root);
      disk.WriteFcbTable(fcbTable);
      disk.WriteBlock(b, Encode(indexTable));
    }

    /** sfs_open (simplefs.c lines 350-395): binds the lowest free open-file-table slot to
        the first directory entry with the given name. The empty name matches the first free
        entry, so the slot is bound to FCB -1 and stays closed. */
    method Open(file: string, mode: int) returns (fd: int)
      requires Valid()
      modifies this`root, this`oft
      ensures Valid() && root == disk.root
      ensures -1 <= fd < OFT_MAX
      ensures fd == -1 <==>
        (forall i :: 0 <= i < ROOT_MAX ==> disk.root[i].filename != file)
        || (forall d :: 0 <= d < OFT_MAX ==> old(oft)[d].fcbIndex != -1)
      ensures fd == -1 ==> oft == old(oft)
      ensures fd != -1 ==>
        && old(oft)[fd].fcbIndex == -1 && (forall d :: 0 <= d < fd ==> old(oft)[d].fcbIndex != -1)
        && exists s :: 0 <= s < ROOT_MAX && disk.root[s].filename == file
             && (forall i :: 0 <= i < s ==> disk.root[i].filename != file)
             && oft == old(oft)[fd := OftEntry(disk.root[s].fcbIndex, mode)]
      ensures fd != -1 && file == "" ==> oft[fd] == OftEntry(-1, mode)
    {
      root := disk.root;
      var s := FindName(root, file);
      if s == -1 {
        return -1;
      }
      var fcbIndex := root[s].fcbIndex;
      assert EntryOk(root[s], disk.fcbTable);
      fd := FindFreeSlot(oft);
      if fd == -1 {
        return -1;
      }
      oft := oft[fd := OftEntry(fcbIndex, mode)];
    }

    /** sfs_close (simplefs.c lines 397-407). */
    method Close(fd: int) returns (r: int)
      requires Valid() && 0 <= fd < OFT_MAX
      modifies this`oft
      ensures Valid()
      ensures r == 0 || r == -1
      ensures r == -1 <==> old(oft)[fd].fcbIndex == -1
      ensures oft == if r == -1 then old(oft) else old(oft)[fd := ClosedSlot]
    {
      if oft[fd].fcbIndex == -1 {
        return -1;
      }
      oft := oft[fd := ClosedSlot];
      return 0;
    }

    /** sfs_getsize (simplefs.c lines 409-419). */
    method GetSize(fd: int) returns (r: int)
      requires Valid() && 0 <= fd < OFT_MAX
      modifies this`fcbTable
      ensures Valid()
      ensures r == -1 <==> oft[fd].fcbIndex == -1
      ensures r != -1 ==> r == |FileContents(oft[fd].fcbIndex)| && fcbTable == disk.fcbTable
      ensures r == -1 ==> fcbTable == old(fcbTable)
    {
      if oft[fd].fcbIndex == -1 {
        return -1;
      }
      fcbTable := disk.fcbTable;
      return fcbTable[oft[fd].fcbIndex].filesize;
    }

    /** sfs_read (simplefs.c lines 421-471): copies the first n bytes of an open file into
        buf, block by block through its index table. A negative n is admitted where the code
        defines it: a refused call, or an empty file, whose first entry is -1 so the loop
        stops at once and nothing is copied. */
    method Read(fd: int, buf: array<byte>, n: int) returns (r: int)
      requires Valid() && 0 <= fd < OFT_MAX && n <= buf.Length
      requires 0 <= n || oft[fd].fcbIndex == -1 || oft[fd].openMode != MODE_READ
                      || disk.fcbTable[oft[fd].fcbIndex].filesize == 0
      modifies this`fcbTable, this`indexTable, buf
      ensures Valid()
      ensures r == -1 <==>
        oft[fd].fcbIndex == -1 || oft[fd].openMode != MODE_READ || n > |FileContents(oft[fd].fcbIndex)|
      ensures r == -1 ==> buf[..] == old(buf[..])
      ensures r != -1 && n < 0 ==> r == 0 && buf[..] == old(buf[..])
      ensures r != -1 && 0 <= n ==>
        r == n && buf[..n] == FileContents(oft[fd].fcbIndex)[..n] && buf[n..] == old(buf[n..])
    {
      if oft[fd].fcbIndex == -1 {
        return -1;
      }
      if oft[fd].openMode != MODE_READ {
        return -1;
      }
      var filesize := GetSize(fd);
      if n > filesize {
        return -1;
      }
      if n < 0 {
        return 0;
      }
      r := ReadOpen(oft[fd].fcbIndex, buf, n);
    }

    /** The rest of sfs_read once the checks passed (simplefs.c lines 441-470). */
    method ReadOpen(f: int, buf: array<byte>, n: int) returns (r: int)
      requires Valid() && 0 <= f < FCB_MAX && Active(disk.fcbTable, f)
      requires 0 <= n <= |FileContents(f)| && n <= buf.Length
      modifies this`fcbTable, this`indexTable, buf
      ensures Buffers()
      ensures r == n && buf[..n] == FileContents(f)[..n] && buf[n..] == old(buf[n..])
    {
      fcbTable := disk.fcbTable;
      FileAddressable(disk.Persisted(), tables, owner, f);
      LoadIndexTable(fcbTable[f].indexTablePtr, tables[f]);
      r := CopyOut(disk.blocks, indexTable, buf, n, fcbTable[f].filesize);
    }

    /** sfs_append (simplefs.c lines 474-587): adds the first n bytes of buf to the end of an
        open file, filling its last block first and then taking the lowest free blocks one at
        a time. */
    method Append(fd: int, buf: array<byte>, n: int) returns (r: int)
      requires Valid() && 0 <= fd < OFT_MAX && n <= buf.Length
      requires 0 <= n || oft[fd].fcbIndex == -1 || oft[fd].openMode != MODE_APPEND
                      || !PartlyFilled(disk.fcbTable[oft[fd].fcbIndex])
      modifies this, disk, disk.blocks
      ensures Valid() && oft == old(oft)
      ensures AppendRefused(old(disk.fcbTable), old(oft), fd, n) ==>
        && r == -1
        && disk.Persisted() == old(disk.Persisted()) && tables == old(tables) && owner == old(owner)
      ensures !AppendRefused(old(disk.fcbTable), old(oft), fd, n) && n < 0 ==>
        && r == 0
        && disk.Persisted() == old(disk.Persisted()) && tables == old(tables) && owner == old(owner)
      ensures !AppendRefused(old(disk.fcbTable), old(oft), fd, n) && 0 <= n ==>
        AppendOutcome(old(disk.Persisted()), old(tables), old(owner), old(oft), old(oft)[fd].fcbIndex,
                      old(buf[..n]), r, disk.Persisted(), tables, owner)
    {
      ghost var img0, tables0, owner0, oft0 := disk.Persisted(), tables, owner, oft;
      ghost var data := if 0 <= n then buf[..n] else [];
      if oft[fd].fcbIndex == -1 {
        return -1;
      }
      if oft[fd].openMode != MODE_APPEND {
        return -1;
      }
      var f := oft[fd].fcbIndex;
      if n < 0 {
        // The size test passes, the last block is not partly filled, so nothing is copied and
        // no block is taken; the write-back stores the superblock, index block, bitmap and
        // FCB table as they were read, and bytes_copied is 0.
        fcbTable := disk.fcbTable;
        return 0;
      }
      r := AppendWrite(f, buf, n, img0, tables0, owner0, oft0, data);
    }

    /** The writes of sfs_append once the checks passed (simplefs.c lines 486-586): the fill
        step, the in-memory copies of the superblock, the bitmap and the file's index table,
        the allocation loop, and, when it took every block it needed, the write-back of the
        index block, the superblock, the bitmap and the FCB table. A failed loop leaves on
        disk only the blocks it has written. */
    method AppendWrite(f: int, buf: array<byte>, n: int, ghost img0: Image, ghost tables0: seq<seq<int>>,
                       ghost owner0: seq<Owner>, ghost oft0: seq<OftEntry>, ghost data: seq<byte>)
      returns (r: int)
      requires Buffers() && disk.blocks.Length == NBLOCKS && 0 <= f < FCB_MAX && 0 <= n <= buf.Length
      requires img0 == disk.Persisted() && data == buf[..n]
      requires SessionOk(img0, tables0, owner0, oft0) && Active(img0.fcbs, f)
      requires tables == tables0 && owner == owner0
      modifies this`superblock, this`bitmap, this`fcbTable, this`indexTable, this`tables, this`owner
      modifies disk, disk.blocks
      ensures Buffers()
      ensures img0.fcbs[f].filesize + n > MAX_FILE_SIZE ==>
        r == -1 && disk.Persisted() == img0 && tables == tables0 && owner == owner0
      ensures img0.fcbs[f].filesize + n <= MAX_FILE_SIZE ==>
        AppendOutcome(img0, tables0, owner0, oft0, f, data, r, disk.Persisted(), tables, owner)
    {
      fcbTable := disk.fcbTable;
      var filesize := fcbTable[f].filesize;
      if n + filesize > MAX_FILE_SIZE {
        return -1;
      }
      AppendStart(img0, tables0, owner0, f);
      var ok, copied;
      ghost var ks, cs;
      ok, copied, ks, cs := FillAndAllocate(f, buf, n, img0, tables0[f], data);
      ghost var bm, t, blocks := bitmap, indexTable, disk.blocks[..];
      if !ok {
        AppendRunFails(img0, tables0, owner0, oft0, f, data, ks, cs, bm, t, blocks, disk.Persisted(), tables, owner);
        return -1;
      }
      ghost var u := UsedEntries(img0.fcbs[f].filesize);
      CommitAppend(f, copied, img0, ks, tables0[f := Extend(tables0[f], u, ks)], Claimed(owner0, f, u, ks));
      AppendRunOk(img0, tables0, owner0, oft0, f, data, ks, cs, bm, t, blocks, disk.Persisted(), tables, owner);
      return n;
    }

    /** The fill step and the allocation loop of sfs_append (simplefs.c lines 494-578), with
        the in-memory copies of the superblock, the bitmap and the index table loaded between
        them. Only the blocks are written to disk. */
    method FillAndAllocate(f: int, buf: array<byte>, n: int, ghost img0: Image, ghost t0: seq<int>,
                           ghost data: seq<byte>)
      returns (ok: bool, copied: int, ghost ks: seq<int>, ghost cs: seq<Block>)
      requires Buffers() && disk.blocks.Length == NBLOCKS && 0 <= f < FCB_MAX && 0 <= n <= buf.Length
      requires img0 == disk.Persisted() && fcbTable == disk.fcbTable && data == buf[..n]
      requires
        var c := img0.fcbs[f];
        && CursorOk(c, t0) && |img0.bitmap| == BITMAP_MAX && c.filesize + n <= MAX_FILE_SIZE
        && 0 <= c.indexTablePtr < NBLOCKS && img0.blocks[c.indexTablePtr] == Encode(t0)
        && (PartlyFilled(c) ==>
              && 0 <= c.offsetOfLastWrtBlock && 0 <= c.blockLastWritten < NBLOCKS
              && |img0.blocks[c.blockLastWritten]| == BLOCKSIZE && c.blockLastWritten != c.indexTablePtr)
      modifies this`superblock, this`bitmap, this`fcbTable, this`indexTable, disk.blocks
      ensures Buffers() && Storable(indexTable)
      ensures Allocating(img0.bitmap, t0, Filled(img0.blocks, img0.fcbs[f], data), img0.fcbs[f], data,
                         ks, cs, bitmap, indexTable, disk.blocks[..])
      ensures ok <==> |ks| == NewBlocks(img0.fcbs[f], |data|)
      ensures ok ==> copied == |data|
      ensures !ok ==> forall j :: 0 <= j < NBLOCKS ==> !Bit(bitmap, j)
      ensures superblock == img0.sb.(blocksFree := img0.sb.blocksFree - |ks|,
                                     blocksOccupied := img0.sb.blocksOccupied + |ks|)
      ensures fcbTable == img0.fcbs[f := Cursor(img0.fcbs[f], |data|, ks)]
      ensures disk.Persisted() == img0.(blocks := disk.blocks[..])
    {
      ghost var c := img0.fcbs[f];
      // the stack buffer temp starts with unspecified bytes
      var temp: Block :| |temp| == BLOCKSIZE;
      copied, temp := FillLastBlock(f, buf, n, temp);
      superblock := disk.superblock;
      bitmap := disk.bitmap;
      LoadIndexTable(fcbTable[f].indexTablePtr, t0);
      ok, copied, ks, cs := AllocateBlocks(f, buf, n, copied, temp, c, data, img0.bitmap, t0,
                                           Filled(img0.blocks, c, data), img0.sb, img0.fcbs);
      ExtendStorable(t0, UsedEntries(c.filesize), ks);
    }

    /** The fill step of sfs_append (simplefs.c lines 494-517): when the file's last block is
        partly filled it is read into temp, as many bytes as fit are copied after its cursor,
        the cursor in the FCB copy moves past them, and the block is written back. */
    method FillLastBlock(f: int, buf: array<byte>, n: int, temp0: Block) returns (copied: int, temp: Block)
      requires |fcbTable| == FCB_MAX && 0 <= f < FCB_MAX && 0 <= n <= buf.Length && |temp0| == BLOCKSIZE
      requires disk.blocks.Length == NBLOCKS && fcbTable[f].offsetOfLastWrtBlock <= BLOCKSIZE
      requires PartlyFilled(fcbTable[f]) ==>
        && 0 <= fcbTable[f].offsetOfLastWrtBlock && 0 <= fcbTable[f].blockLastWritten < NBLOCKS
        && |disk.blocks[fcbTable[f].blockLastWritten]| == BLOCKSIZE
      modifies this`fcbTable, disk.blocks
      ensures copied == FillCount(old(fcbTable[f]), n) && |temp| == BLOCKSIZE
      ensures disk.blocks[..] == Filled(old(disk.blocks[..]), old(fcbTable[f]), buf[..n])
      ensures fcbTable == old(fcbTable)[f := Cursor(old(fcbTable[f]), n, [])]
    {
      var c := fcbTable[f];
      var lastBlock := c.blockLastWritten;
      var offset := c.offsetOfLastWrtBlock;
      temp := temp0;
      copied := 0;
      if c.filesize != 0 && c.filesize % BLOCKSIZE != 0 {
        temp := disk.blocks[lastBlock];
        var toCopy;
        if n > BLOCKSIZE - offset {
          toCopy := BLOCKSIZE - offset;
        } else {
          toCopy := n;
        }
        assert buf[..n][..toCopy] == buf[..toCopy];
        temp := Overwrite(temp, offset, buf[..toCopy]);
        copied := toCopy;
        fcbTable := fcbTable[f := c.(blockLastWritten := lastBlock, offsetOfLastWrtBlock := offset + toCopy)];
        disk.WriteBlock(lastBlock, temp);
      }
    }

    /** One turn of the allocation loop (simplefs.c lines 525-577): the lowest free bit of the
        bitmap copy is looked up among all BITMAP_MAX*32 bits, entered at the first unused entry
        p of the index-table buffer, the next chunk of buf is copied over the front of temp and
        written to that block, and the copies of the bitmap, the cursor and the counters follow.
        With no free bit left nothing changes and -1 comes back. */
    method AllocateOne(f: int, buf: array<byte>, copied0: int, rem0: int, temp0: Block,
                       ghost data: seq<byte>, ghost p: int)
      returns (b: int, copied: int, rem: int, temp: Block)
      requires Buffers() && disk.blocks.Length == NBLOCKS && 0 <= f < FCB_MAX
      requires 0 < rem0 && 0 <= copied0 && copied0 + rem0 <= buf.Length && |temp0| == BLOCKSIZE
      requires data == buf[..copied0 + rem0]
      requires 0 <= p < INDEX_MAX && indexTable[p] == -1
      requires forall i :: 0 <= i < p ==> indexTable[i] != -1
      modifies this`superblock, this`bitmap, this`fcbTable, this`indexTable, disk.blocks
      ensures Buffers() && -1 <= b < NBLOCKS
      ensures b == -1 ==>
        && (forall k :: 0 <= k < NBLOCKS ==> !Bit(bitmap, k))
        && copied == copied0 && rem == rem0 && temp == temp0
        && superblock == old(superblock) && bitmap == old(bitmap)
        && fcbTable == old(fcbTable) && indexTable == old(indexTable)
        && disk.blocks[..] == old(disk.blocks[..])
      ensures b != -1 ==>
        var toCopy := if rem0 > BLOCKSIZE then BLOCKSIZE else rem0;
        && LowestFree(old(bitmap), b) && bitmap == ClearBit(old(bitmap), b)
        && indexTable == old(indexTable)[p := b]
        && rem == rem0 - toCopy && copied == copied0 + toCopy
        && |temp| == BLOCKSIZE && temp[..toCopy] == data[|data| - rem0..|data| - rem0 + toCopy]
        && fcbTable == old(fcbTable)[f := old(fcbTable)[f].(blockLastWritten := b, offsetOfLastWrtBlock := toCopy)]
        && superblock == old(superblock).(blocksFree := old(superblock).blocksFree - 1,
                                          blocksOccupied := old(superblock).blocksOccupied + 1)
        && disk.blocks[..] == old(disk.blocks[..])[b := temp]
    {
      copied, rem, temp := copied0, rem0, temp0;
      b := FindFreeBlock(bitmap, BITMAP_MAX * 32);
      if b == -1 {
        return;
      }
      var e := FindUnusedEntry(indexTable);
      if e == -1 {
        // "Index table is full" cannot happen: entry p is unused
        assert false;
      }
      indexTable := indexTable[e := b];
      var toCopy;
      if rem > BLOCKSIZE {
        toCopy := BLOCKSIZE;
        rem := rem - BLOCKSIZE;
      } else {
        toCopy := rem;
        rem := 0;
      }
      temp := Overwrite(temp, 0, buf[copied..copied + toCopy]);
      assert temp[..toCopy] == data[copied..copied + toCopy];
      copied := copied + toCopy;
      bitmap := ClearBit(bitmap, b);
      fcbTable := fcbTable[f := fcbTable[f].(blockLastWritten := b, offsetOfLastWrtBlock := toCopy)];
      superblock := superblock.(blocksFree := superblock.blocksFree - 1,
                                blocksOccupied := superblock.blocksOccupied + 1);
      disk.WriteBlock(b, temp);
    }

    /** One turn of the allocation loop together with its bookkeeping: the turn either finds
        no free bit and changes nothing, or takes block b, which extends the blocks taken so far
        and the chunks written to them by one while the loop's state is kept. */
    method AllocateTurn(f: int, buf: array<byte>, n: int, copied0: int, rem0: int, temp0: Block,
                        ghost c: Fcb, ghost data: seq<byte>, ghost bm0: seq<Word>, ghost t0: seq<int>,
                        ghost blocks0: seq<Block>, ghost sb0: Superblock, ghost fc0: seq<Fcb>,
                        ghost ks0: seq<int>, ghost cs0: seq<Block>)
      returns (b: int, copied: int, rem: int, temp: Block, ghost ks: seq<int>, ghost cs: seq<Block>)
      requires Buffers() && disk.blocks.Length == NBLOCKS && 0 <= f < FCB_MAX && 0 <= n <= buf.Length
      requires data == buf[..n]
      requires Allocating(bm0, t0, blocks0, c, data, ks0, cs0, bitmap, indexTable, disk.blocks[..])
      requires |ks0| < NewBlocks(c, n) && rem0 == n - FillCount(c, n) - |ks0| * BLOCKSIZE
      requires copied0 == n - rem0 && |temp0| == BLOCKSIZE
      requires superblock == sb0.(blocksFree := sb0.blocksFree - |ks0|, blocksOccupied := sb0.blocksOccupied + |ks0|)
      requires |fc0| == FCB_MAX && fcbTable == fc0[f := Cursor(c, n, ks0)]
      modifies this`superblock, this`bitmap, this`fcbTable, this`indexTable, disk.blocks
      ensures Buffers() && |temp| == BLOCKSIZE && copied == n - rem
      ensures Allocating(bm0, t0, blocks0, c, data, ks, cs, bitmap, indexTable, disk.blocks[..])
      ensures |ks| < NewBlocks(c, n) ==> rem == n - FillCount(c, n) - |ks| * BLOCKSIZE
      ensures |ks| == NewBlocks(c, n) ==> rem == 0
      ensures superblock == sb0.(blocksFree := sb0.blocksFree - |ks|, blocksOccupied := sb0.blocksOccupied + |ks|)
      ensures fcbTable == fc0[f := Cursor(c, n, ks)]
      ensures b == -1 ==> ks == ks0 && forall k :: 0 <= k < NBLOCKS ==> !Bit(bitmap, k)
      ensures b != -1 ==> |ks| == |ks0| + 1
    {
      ghost var bm, t, blocks, sb, fc := bitmap, indexTable, disk.blocks[..], superblock, fcbTable;
      AllocEntry(bm0, t0, blocks0, c, data, ks0, cs0, bm, t, blocks);
      b, copied, rem, temp := AllocateOne(f, buf, copied0, rem0, temp0, data, UsedEntries(c.filesize) + |ks0|);
      if b == -1 {
        ks, cs := ks0, cs0;
        return;
      }
      TurnTaken(bm0, t0, blocks0, c, data, ks0, cs0, bm, t, blocks, rem0, b, temp,
                bitmap, indexTable, disk.blocks[..], sb0, sb, superblock, fc0, f, fc, fcbTable);
      ks, cs := ks0 + [b], cs0 + [temp];
    }

    /** The allocation loop of sfs_append (simplefs.c lines 519-578): for each new block the
        lowest free bit of the bitmap copy is taken and entered at the first unused index
        entry, the next chunk of the data is copied into temp and written there, and the
        counters and the cursor in the copies follow. It stops when no bit is left. */
    method AllocateBlocks(f: int, buf: array<byte>, n: int, copied0: int, temp0: Block,
                          ghost c: Fcb, ghost data: seq<byte>, ghost bm0: seq<Word>, ghost t0: seq<int>,
                          ghost blocks0: seq<Block>, ghost sb0: Superblock, ghost fc0: seq<Fcb>)
      returns (ok: bool, copied: int, ghost ks: seq<int>, ghost cs: seq<Block>)
      requires Buffers() && disk.blocks.Length == NBLOCKS && 0 <= f < FCB_MAX
      requires CursorOk(c, t0) && c.filesize + n <= MAX_FILE_SIZE && 0 <= n <= buf.Length
      requires data == buf[..n] && bitmap == bm0 && indexTable == t0 && disk.blocks[..] == blocks0
      requires superblock == sb0 && |fc0| == FCB_MAX && fcbTable == fc0[f := Cursor(c, n, [])]
      requires copied0 == FillCount(c, n) && |temp0| == BLOCKSIZE
      modifies this`superblock, this`bitmap, this`fcbTable, this`indexTable, disk.blocks
      ensures Buffers()
      ensures Allocating(bm0, t0, blocks0, c, data, ks, cs, bitmap, indexTable, disk.blocks[..])
      ensures ok <==> |ks| == NewBlocks(c, n)
      ensures ok ==> copied == n
      ensures !ok ==> forall j :: 0 <= j < NBLOCKS ==> !Bit(bitmap, j)
      ensures superblock == sb0.(blocksFree := sb0.blocksFree - |ks|, blocksOccupied := sb0.blocksOccupied + |ks|)
      ensures fcbTable == fc0[f := Cursor(c, n, ks)]
    {
      AllocStart(bm0, t0, blocks0, c, data);
      copied := copied0;
      var rem := n - copied0;
      var newBlocks := CeilDiv(rem);
      var temp := temp0;
      ks, cs := [], [];
      var j := 0;
      while j < newBlocks
        invariant newBlocks == NewBlocks(c, n) && j == |ks| <= newBlocks && Buffers()
        invariant |ks| < NewBlocks(c, n) ==> rem == n - FillCount(c, n) - |ks| * BLOCKSIZE
        invariant |ks| == NewBlocks(c, n) ==> rem == 0
        invariant copied == n - rem && |temp| == BLOCKSIZE
        invariant Allocating(bm0, t0, blocks0, c, data, ks, cs, bitmap, indexTable, disk.blocks[..])
        invariant superblock == sb0.(blocksFree := sb0.blocksFree - |ks|, blocksOccupied := sb0.blocksOccupied + |ks|)
        invariant fcbTable == fc0[f := Cursor(c, n, ks)]
      {
        var b;
        b, copied, rem, temp, ks, cs := AllocateTurn(f, buf, n, copied, rem, temp, c, data, bm0, t0, blocks0,
                                                     sb0, fc0, ks, cs);
        if b == -1 {
          return false, copied, ks, cs;
        }
        j := j + 1;
      }
      return true, copied, ks, cs;
    }

    /** The write-back at the end of sfs_append (simplefs.c lines 580-584): the file size in
        the FCB copy grows by the bytes copied, and the superblock, the index block, the bitmap
        and the FCB table are written. */
    method CommitAppend(f: int, copied: int, ghost img0: Image, ghost ks: seq<int>,
                        ghost tables': seq<seq<int>>, ghost owner': seq<Owner>)
      requires Buffers() && 0 <= f < FCB_MAX && disk.blocks.Length == NBLOCKS && 0 <= copied
      requires |img0.fcbs| == FCB_MAX && img0.fcbs[f].offsetOfLastWrtBlock <= BLOCKSIZE
      requires 0 <= img0.fcbs[f].indexTablePtr < NBLOCKS && Storable(indexTable)
      requires superblock == img0.sb.(blocksFree := img0.sb.blocksFree - |ks|,
                                      blocksOccupied := img0.sb.blocksOccupied + |ks|)
      requires fcbTable == img0.fcbs[f := Cursor(img0.fcbs[f], copied, ks)]
      requires disk.Persisted() == img0.(blocks := disk.blocks[..])
      modifies this`fcbTable, this`tables, this`owner, disk, disk.blocks
      ensures Buffers() && tables == tables' && owner == owner'
      ensures disk.Persisted() == Image(img0.sb.(blocksFree := img0.sb.blocksFree - |ks|,
                                                 blocksOccupied := img0.sb.blocksOccupied + |ks|),
                                        bitmap, img0.root, img0.fcbs[f := AppendedFcb(img0.fcbs[f], copied, ks)],
                                        old(disk.blocks[..])[img0.fcbs[f].indexTablePtr := Encode(indexTable)])
    {
      fcbTable := fcbTable[f := fcbTable[f].(filesize := fcbTable[f].filesize + copied)];
      disk.WriteSuperblock(superblock);
      disk.WriteBlock(fcbTable[f].indexTablePtr, Encode(indexTable));
      disk.WriteBitmap(bitmap);
      disk.WriteFcbTable(fcbTable);
      tables, owner := tables', owner';
    }

    /** sfs_delete (simplefs.c lines 589-651): removes the first entry carrying the name,
        closes every open slot of its file, and releases the file's blocks. The empty name
        is admitted while no directory entry is free: it then matches nothing. */
    method Delete(filename: string) returns (r: int)
      requires Valid()
      requires filename != "" || forall i :: 0 <= i < ROOT_MAX ==> disk.root[i].filename != ""
      modifies this, disk, disk.blocks
      ensures Valid()
      ensures r == 0 || r == -1
      ensures r == -1 <==> forall i :: 0 <= i < ROOT_MAX ==> old(disk.root)[i].filename != filename
      ensures r == -1 ==> disk.Persisted() == old(disk.Persisted()) && oft == old(oft)
      ensures tables == old(tables)
      ensures r == 0 ==> exists s ::
        DeleteStep(old(disk.Persisted()), tables, old(owner), old(oft), filename, s, disk.Persisted(), owner, oft)
    {
      ghost var img0, owner0, oft0 := disk.Persisted(), owner, oft;
      superblock := disk.superblock;
      bitmap := disk.bitmap;
      root := disk.root;
      fcbTable := disk.fcbTable;
      var s := FindName(root, filename);
      if s == -1 {
        return -1;
      }
      RemoveEntry(filename, s, img0, owner0, oft0);
      return 0;
    }

    /** The rest of sfs_delete once entry s is found (simplefs.c lines 604-648): the entry is
        cleared, the file's open slots are closed and its blocks are released. */
    method RemoveEntry(filename: string, s: int, ghost before: Image, ghost owner0: seq<Owner>, ghost oft0: seq<OftEntry>)
      requires Valid() && before == disk.Persisted() && owner0 == owner && oft0 == oft
      requires filename != "" && DeleteChoice(before, filename, s)
      requires superblock == disk.superblock && bitmap == disk.bitmap
      requires root == disk.root && fcbTable == disk.fcbTable
      modifies this`superblock, this`bitmap, this`root, this`fcbTable, this`indexTable, this`oft, this`owner
      modifies disk, disk.blocks
      ensures Valid()
      ensures DeleteStep(before, tables, owner0, oft0, filename, s, disk.Persisted(), owner, oft)
    {
      ghost var tables0 := tables;
      NamedFileActive(before, tables0, owner0, filename, s);
      var f := root[s].fcbIndex;
      ghost var ks := DataBlocks(before, tables0, owner0, f);
      root := root[s := FreeEntry];
      CloseAllOf(f);
      CommitDelete(s, f, tables0[f], before, ks, Released(owner0, f));
      DeleteSettled(filename, s, before, tables0, owner0, oft0);
    }

    /** The state sfs_delete leaves is the one DeleteStep describes, and it is consistent. */
    ghost method DeleteSettled(filename: string, s: int, before: Image, tables0: seq<seq<int>>,
                               owner0: seq<Owner>, oft0: seq<OftEntry>)
      requires Buffers() && tables == tables0 && SessionOk(before, tables0, owner0, oft0)
      requires DeleteStep(before, tables0, owner0, oft0, filename, s, disk.Persisted(), owner, oft)
      ensures Valid()
      ensures DeleteStep(before, tables, owner0, oft0, filename, s, disk.Persisted(), owner, oft)
    {
      DeleteKeepsImageOk(before, tables0, owner0, oft0, filename, s, disk.Persisted(), owner, oft);
    }

    /** The loop of sfs_delete over the open-file table (simplefs.c lines 617-623): sfs_close
        on every slot open on FCB f. */
    method CloseAllOf(f: int)
      requires Valid() && 0 <= f < FCB_MAX
      modifies this`oft
      ensures Valid() && oft == ClosedAll(old(oft), f)
    {
      ghost var oft0 := oft;
      var i := 0;
      while i < OFT_MAX
        invariant 0 <= i <= OFT_MAX && Valid()
        invariant forall d :: 0 <= d < OFT_MAX ==>
          oft[d] == if d < i && oft0[d].fcbIndex == f then ClosedSlot else oft0[d]
      {
        if oft[i].fcbIndex == f {
          var _ := Close(i);
        }
        i := i + 1;
      }
    }

    /** The updates sfs_delete makes once the entry is found and its open slots closed
        (simplefs.c lines 625-648): the FCB is cleared, every used index entry's block is
        zeroed and marked free with the counters moved, then the index block is zeroed and
        marked free without touching them, and the regions are written back. */
    method CommitDelete(s: int, f: int, ghost t: seq<int>, ghost img0: Image, ghost ks: seq<int>,
                        ghost owner': seq<Owner>)
      requires Buffers() && disk.blocks.Length == NBLOCKS && img0 == disk.Persisted()
      requires superblock == img0.sb && bitmap == img0.bitmap && fcbTable == img0.fcbs
      requires |img0.root| == ROOT_MAX && 0 <= s < ROOT_MAX && root == img0.root[s := FreeEntry]
      requires img0.root[s].fcbIndex == f && 0 <= f < FCB_MAX
      requires RESERVED <= fcbTable[f].indexTablePtr < NBLOCKS
      requires CursorOk(fcbTable[f], t) && img0.blocks[fcbTable[f].indexTablePtr] == Encode(t)
      requires ks == t[..UsedEntries(fcbTable[f].filesize)]
      modifies this`superblock, this`bitmap, this`fcbTable, this`indexTable, this`owner, disk, disk.blocks
      ensures Buffers() && owner == owner'
      ensures disk.Persisted() == Deleted(img0, s, ks)
    {
      var ptr := fcbTable[f].indexTablePtr;
      fcbTable := fcbTable[f := FreeFcb];
      ReleaseFile(ptr, t, ks);
      disk.WriteSuperblock(superblock);
      disk.WriteBitmap(bitmap);
      disk.WriteRoot(root);
      disk.WriteFcbTable(fcbTable);
      owner := owner';
    }

    /** The release of one file's blocks in sfs_delete (simplefs.c lines 631-644): its index
        table is loaded, every data block ks it names and then the index block itself are
        zeroed on disk and marked free in the bitmap copy, and the counters move by |ks|. */
    method ReleaseFile(ptr: int, ghost t: seq<int>, ghost ks: seq<int>)
      requires |bitmap| == BITMAP_MAX && disk.blocks.Length == NBLOCKS && RESERVED <= ptr < NBLOCKS
      requires Storable(t) && |t| == INDEX_MAX && disk.blocks[ptr] == Encode(t)
      requires |ks| <= INDEX_MAX && ks == t[..|ks|]
      requires forall j :: 0 <= j < |ks| ==> RESERVED <= ks[j] < NBLOCKS
      requires forall j :: |ks| <= j < INDEX_MAX ==> t[j] == -1
      modifies this`superblock, this`bitmap, this`indexTable, disk.blocks
      ensures |bitmap| == BITMAP_MAX && |indexTable| == INDEX_MAX
      ensures bitmap == SetBit(SetBits(old(bitmap), ks), ptr)
      ensures superblock == old(superblock).(blocksFree := old(superblock).blocksFree + |ks|,
                                             blocksOccupied := old(superblock).blocksOccupied - |ks|)
      ensures disk.blocks[..] == ZeroedBlocks(old(disk.blocks[..]), ks)[ptr := ZeroBlock()]
    {
      LoadIndexTable(ptr, t);
      ReleaseDataBlocks(ks);
      disk.WriteBlock(ptr, ZeroBlock());
      bitmap := SetBit(bitmap, ptr);
    }

    /** read_block of an index block into the index-table buffer: it holds the stored table. */
    method LoadIndexTable(ptr: int, ghost t: seq<int>)
      requires 0 <= ptr < disk.blocks.Length && Storable(t) && disk.blocks[ptr] == Encode(t)
      modifies this`indexTable
      ensures indexTable == t
    {
      indexTable := Decode(disk.blocks[ptr]);
      DecodeEncode(t);
    }

    /** The loop of sfs_delete over the index table (simplefs.c lines 632-641): each used
        entry's block is zeroed on disk and marked free in the bitmap copy, and the counters of
        the superblock copy move by one per block. */
    method ReleaseDataBlocks(ghost ks: seq<int>)
      requires |indexTable| == INDEX_MAX && |ks| <= INDEX_MAX && |bitmap| == BITMAP_MAX
      requires disk.blocks.Length == NBLOCKS
      requires forall j :: 0 <= j < |ks| ==> indexTable[j] == ks[j] && RESERVED <= ks[j] < NBLOCKS
      requires forall j :: |ks| <= j < INDEX_MAX ==> indexTable[j] == -1
      modifies this`superblock, this`bitmap, disk.blocks
      ensures bitmap == SetBits(old(bitmap), ks)
      ensures superblock == old(superblock).(blocksFree := old(superblock).blocksFree + |ks|,
                                             blocksOccupied := old(superblock).blocksOccupied - |ks|)
      ensures disk.blocks[..] == ZeroedBlocks(old(disk.blocks[..]), ks)
    {
      ghost var bm0, sb0, blocks0 := bitmap, superblock, disk.blocks[..];
      var i := 0;
      ghost var c := 0;
      while i < INDEX_MAX
        invariant 0 <= i <= INDEX_MAX && 0 <= c <= |ks| && c == if i < |ks| then i else |ks|
        invariant bitmap == SetBits(bm0, ks[..c])
        invariant superblock == sb0.(blocksFree := sb0.blocksFree + c, blocksOccupied := sb0.blocksOccupied - c)
        invariant disk.blocks[..] == ZeroedBlocks(blocks0, ks[..c])
      {
        if indexTable[i] != -1 {
          assert i < |ks| && indexTable[i] == ks[c];
          disk.WriteBlock(indexTable[i], ZeroBlock());
          bitmap := SetBit(bitmap, indexTable[i]);
          superblock := superblock.(blocksFree := superblock.blocksFree + 1,
                                    blocksOccupied := superblock.blocksOccupied - 1);
          assert ks[..c + 1] == ks[..c] + [ks[c]];
          ZeroedBlocksSnoc(blocks0, ks[..c], ks[c]);
          SetBitsSnoc(bm0, ks[..c], ks[c]);
          c := c + 1;
        }
        i := i + 1;
      }
      assert ks[..c] == ks;
    }
  }
}
