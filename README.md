# simplefs in Dafny

simplefs is a small single-level file system kept inside one Linux file, the
virtual disk. The disk is an array of 4096-byte blocks:

- block 0 holds the superblock (disk name, block count, free and occupied counters);
- blocks 1-4 hold the free-block bitmap: 4096 32-bit words, bit k set when block k is free;
- blocks 5-8 hold the root directory: 128 entries of name and FCB number;
- blocks 9-12 hold the file control blocks (FCBs): 128 entries of size, index-block number,
  last block written and offset in it.

Every file owns one index block, a table of 1024 32-bit block numbers (-1 when unused). Its
data lives in the blocks that table names. A mounted session also keeps an in-memory open-file
table of 16 slots, each holding an FCB number and an open mode.

The model follows `simplefs.c` operation by operation:

- `Disk` is a class whose typed region fields and block array stand for the virtual disk.
- `FileSystem` is a class holding the in-memory copies the C globals hold (superblock, bitmap,
  root directory, FCB table, index-table buffer) and the open-file table.
- Each `sfs_*` call is a method that reloads the regions it needs, runs the same loops over
  them and writes the same regions back.
- The index tables are stored in their blocks as bytes. `IndexTable.Encode` and
  `IndexTable.Decode` give them a 32-bit little-endian layout, and Decode is proved to undo
  Encode (`IndexTable.DecodeEncode`).

The properties are stated about the persisted image (`DiskImage.Image`). Two ghost fields sit
beside it: the decoded index table of every FCB, and an owner for every block (free, reserved,
the index block of file f, or entry i of file f's table). `DiskImage.ImageOk` says:

- the bitmap marks exactly the ownerless blocks free;
- exactly the first 13 blocks are reserved;
- each file's index block holds its table;
- its cursor (last block written and offset) names the last byte of the file;
- directory entries name distinct live FCBs.

Every operation keeps this invariant (`FileSystem.Valid`), and its effect on the image is
stated exactly (`Effects.Created`, `DeleteEffects.Deleted`, `AppendEffects.Appended`). In
terms of file contents (`DiskImage.Contents`):

- create adds an empty file and keeps every other file;
- append adds exactly the given bytes to the end of one file and keeps every other file;
- an append that runs out of blocks part-way changes no file's contents;
- delete removes one file and keeps the others;
- read returns a prefix of the file's contents.

Behaviours of the code that the model reproduces:

- `sfs_create` rejects a duplicate name only when it appears before the first free directory
  entry (simplefs.c:269-283).
- `sfs_create` looks for the index block below the superblock's block count (simplefs.c:311).
  `sfs_append` looks through every bit of the bitmap (simplefs.c:528), so it can take blocks
  past the end of the formatted disk.
- Format sets `blocks_free` to the whole block count, counting the 13 reserved blocks as free
  (simplefs.c:169). `Effects.FormattedFreeCounter` states the resulting offset.
- `sfs_delete` marks the index block free without moving the counters (simplefs.c:643-644).
  The bitmap gains one more free block than `blocks_free` records
  (`DeleteEffects.DeleteKeepsImageOk`).
- When `sfs_append` runs out of free blocks part-way (simplefs.c:537-541), it returns -1 but
  leaves on disk the filled last block and the new blocks written so far. The FCB, the
  bitmap, the index table and the superblock are not written back.
- The number of new blocks append takes is `ceil((double)n / BLOCKSIZE)` for the n bytes left
  after the last block is filled (simplefs.c:513, 519). The model computes it with integer
  rounding up (`Layout.CeilDiv`, `AppendEffects.NewBlocks`), which is exact for these
  magnitudes.
- `sfs_open("")` matches the first free directory entry, whose name is empty, and binds the
  lowest free open-file slot to FCB -1 with the given mode (simplefs.c:356-392). The slot stays
  closed for every later call; `SimpleFs.FileSystem.Open` states this case.

## Model

| member | source | states |
|---|---|---|
| Layout.ZeroBlock | simplefs.c:597 | the erase buffer: a block of BLOCKSIZE zero bytes |
| Layout.RegionBlocks | simplefs.c:126-144 | a four-block region ending at `upper_limit` occupies the four consecutive blocks upper-3 .. upper |
| Layout.RegionLayout | simplefs.c:18-21 | the bitmap, root and FCB regions occupy blocks 1-4, 5-8 and 9-12, so the reserved blocks are exactly 0-12 and the bitmap names INDEX_MAX*BLOCKSIZE-byte files on a 131072-block disk |
| Layout.CeilDiv | simplefs.c:519 | the number of blocks for n bytes is the least q with q*4096 >= n |
| Layout.CeilDivUnique | simplefs.c:519 | any q with (q-1)*4096 < n <= q*4096 is the block count of n bytes |
| Layout.CeilDivExact | simplefs.c:519 | a whole number of blocks needs exactly that many blocks |
| Bitmap.WordBit | simplefs.c:24 | the one-word body of TestBit: bit p of the word is set, `w & (1 << p)` is nonzero |
| Bitmap.WordSet | simplefs.c:22 | the one-word body of SetBit: `w \| (1 << p)` |
| Bitmap.WordClear | simplefs.c:23 | the one-word body of ClearBit: `w & ~(1 << p)` |
| Bitmap.WordSetSame | simplefs.c:22 | the SetBit macro sets the addressed bit of the word |
| Bitmap.WordSetOther | simplefs.c:22 | the SetBit macro leaves every other bit of the word as it was |
| Bitmap.WordClearSame | simplefs.c:23 | the ClearBit macro clears the addressed bit of the word |
| Bitmap.WordClearOther | simplefs.c:23 | the ClearBit macro leaves every other bit of the word as it was |
| Bitmap.Bit | simplefs.c:24 | TestBit: block k is free when bit k%32 of word k/32 is set |
| Bitmap.SetBit | simplefs.c:22 | afterwards bit j is set exactly when j is k or bit j was set before; the length is kept |
| Bitmap.ClearBit | simplefs.c:23 | afterwards bit j is set exactly when j is not k and bit j was set before; the length is kept |
| Bitmap.FindFreeBlock | simplefs.c:311-319 | the first-fit scan returns -1 exactly when no bit below the limit is set, and otherwise the lowest set bit |
| Bitmap.CountFree | simplefs.c:172-183 | the number of free blocks below a bound lies between 0 and the bound |
| Bitmap.CountFreeZero | simplefs.c:537-541 | no free block below the bound exactly when the free count there is 0 |
| Bitmap.CountFreeClear | simplefs.c:332 | clearing a set bit lowers the free count by one, and clearing a clear bit changes nothing |
| Bitmap.CountFreeSet | simplefs.c:644 | setting a clear bit raises the free count by one, and setting a set bit changes nothing |
| Bitmap.CountFreeChange | simplefs.c:22-23 | a bitmap that differs in one bit has its free count moved by that bit alone |
| Bitmap.SetBits | simplefs.c:632-641 | setting the bits of a list of blocks leaves bit j set exactly when it was set or j is in the list |
| Bitmap.CountFreeSetBits | simplefs.c:632-641 | setting the bits of distinct used blocks raises the free count by their number |
| Bitmap.ClearBitsAt | simplefs.c:572 | clearing the bits of a list of blocks leaves bit j set exactly when it was set and j is not in the list |
| Bitmap.ClearBitsSnoc | simplefs.c:572 | clearing one more block is one ClearBit after the others |
| Bitmap.ClearBits | simplefs.c:572 | the bitmap after ClearBit on each block of a list in turn; it keeps the bitmap's length |
| Bitmap.LowestFree | simplefs.c:528-536 | k is the block the first-fit scan returns: set, with no set bit below it |
| Bitmap.FirstFits | simplefs.c:523-536 | ks is what the allocation loop takes: each block is the lowest free one once the earlier ones are cleared |
| Bitmap.FirstFitsSnoc | simplefs.c:528-536 | the lowest free block, once the earlier ones are taken, extends a first-fit run |
| Bitmap.FirstFitsFree | simplefs.c:528-536 | the blocks a first-fit run takes are all free at the start and distinct |
| Bitmap.FreshBlock | simplefs.c:528-536 | the next block first-fit takes was free at the start and was not taken before |
| Bitmap.CountFreeClearBits | simplefs.c:572-576 | taking k distinct free blocks lowers the free count by k |
| IndexTable.Unsigned | simplefs.c:559 | a 32-bit entry's two's-complement bit pattern lies in [0, 2^32) |
| IndexTable.Signed | simplefs.c:559 | reading a bit pattern back as a signed int gives a 32-bit value with that pattern |
| IndexTable.AssembleBytes | simplefs.c:522 | a 32-bit pattern split into four little-endian bytes reassembles to itself |
| IndexTable.EntryRoundTrip | simplefs.c:522 | a stored 32-bit entry reads back as itself |
| IndexTable.DecodeEntries | simplefs.c:522 | a byte string of 4k bytes reads as k 32-bit entries |
| IndexTable.Encode | simplefs.c:345 | an index table written to a block fills exactly BLOCKSIZE bytes |
| IndexTable.Decode | simplefs.c:522 | a block read as an index table gives INDEX_MAX 32-bit entries |
| IndexTable.DecodeEncodeEntries | simplefs.c:582 | encoding entries and decoding them gives them back |
| IndexTable.DecodeEncode | simplefs.c:582 | an index table written by write_block is read back unchanged by read_block |
| IndexTable.EmptyTable | simplefs.c:336-339 | the table create stores has INDEX_MAX entries, all -1 |
| IndexTable.FindUnusedEntry | simplefs.c:544-552 | returns -1 exactly when every entry is used, and otherwise the lowest unused entry |
| Tables.DuplicateBeforeFree | simplefs.c:269-283 | create's duplicate test: an entry with the name comes before every free entry |
| Tables.ScanDirectory | simplefs.c:269-283 | reports a duplicate exactly when the name occurs before the first free entry; otherwise returns that first free entry, or -1 when every entry is used |
| Tables.FindFreeFcb | simplefs.c:293-301 | returns -1 exactly when no FCB is free, and otherwise the lowest free FCB |
| Tables.FindName | simplefs.c:600-610 | returns -1 exactly when no entry carries the name, and otherwise the lowest entry that does |
| Tables.FindFreeSlot | simplefs.c:375-383 | returns -1 exactly when every open-file slot is taken, and otherwise the lowest free slot |
| DiskImage.CursorOk | simplefs.c:499-574 | an FCB's size, last block written and offset agree with its table: used entries packed at the front, the cursor on the last byte, (-1, -1) for an empty file |
| DiskImage.SuperOk | simplefs.c:33-38 | the superblock's free and occupied counters add up to its block count, at most the blocks the bitmap names |
| DiskImage.FreeAgrees | simplefs.c:172-183 | a block's bit is set exactly when no file owns it and it is not reserved, and exactly blocks 0-12 are reserved |
| DiskImage.ImageOk | simplefs.c:33-78 | the consistency of the image: counters, FCBs with their tables, directory, owners against the bitmap, and stored index tables |
| DiskImage.OftOk | simplefs.c:58-65 | the open-file table has OFT_MAX slots, each closed (FCB -1) or naming a live FCB |
| DiskImage.UsedEntries | simplefs.c:519 | a file of `size` bytes uses between 0 and INDEX_MAX index entries |
| DiskImage.FileBytes | simplefs.c:447-469 | the bytes a file reads as, through its index table, are exactly `size` bytes |
| DiskImage.Contents | simplefs.c:447-469 | a file's contents have the length its FCB records |
| DiskImage.FileBytesAt | simplefs.c:461-462 | byte i*BLOCKSIZE+q of a file is byte q of the block its i-th entry names |
| DiskImage.FileAddressable | simplefs.c:442-469 | in a consistent image every block a file's table names exists, and its entries past the used ones are -1 |
| DiskImage.FileBytesPrefix | simplefs.c:580 | a file whose blocks and used entries are kept keeps its bytes as a prefix of its new bytes |
| Effects.FileBytesFrame | simplefs.c:577 | writing blocks a file does not use leaves its bytes unchanged |
| Effects.Formatted | simplefs.c:167-205 | the image format writes: superblock (name, count, count, 0), bits set from block 13 on, every entry and FCB free |
| Effects.FormatOwners | simplefs.c:172-183 | after format exactly the blocks from 13 on are free |
| Effects.FormattedOk | simplefs.c:151-234 | a formatted image is consistent, with no file and every FCB free |
| Effects.FormattedFreeBelow | simplefs.c:172-183 | the formatted bitmap has hi-13 free blocks below any bound hi above 13 |
| Effects.FormattedFreeCounter | simplefs.c:169 | format's blocks_free exceeds the free blocks the bitmap shows on the disk by the 13 reserved ones |
| Effects.CreateBlocked | simplefs.c:269-324 | create gives up: the name comes before a free entry, or no entry, FCB or block below the block count is free |
| Effects.CreateSlots | simplefs.c:269-319 | create's choices: the lowest free entry reached without the name, the lowest free FCB, the lowest free block below the block count |
| Effects.CreateChoice | simplefs.c:261-319 | create's choices taken on the loaded image |
| Effects.Created | simplefs.c:326-345 | create's image keeps the region sizes and the disk's block count |
| Effects.CreateKeepsImageOk | simplefs.c:326-345 | create keeps the session consistent and keeps every existing file's contents; the bitmap's free count and `blocks_free` fall by one and `blocks_occupied` rises by one |
| Effects.CreateFcbsOk | simplefs.c:328-331 | the new FCB (size 0, no cursor) fits its empty table |
| Effects.CreateDirOk | simplefs.c:326-327 | the new directory entry names a live FCB that no other entry names |
| Effects.CreateOwnersOk | simplefs.c:329-334 | the bitmap still marks exactly the ownerless blocks free once the index block is taken |
| Effects.ClaimedOwnersOk | simplefs.c:332 | taking a free block as a new file's index block keeps the owners and the bitmap in agreement |
| Effects.ClaimedFilesOwned | simplefs.c:329 | every file, the new one included, owns its index block and its data blocks |
| Effects.ClaimedOwnersBack | simplefs.c:329 | every owned block is named by the file that owns it |
| Effects.CreateStoredOk | simplefs.c:345 | every file's index block, the new one's included, holds its table |
| Effects.CreateKeepsFile | simplefs.c:341-345 | a file that existed before create is live after it with the same contents |
| DeleteEffects.DeleteChoice | simplefs.c:600-610 | delete's choice: the first entry carrying the name |
| DeleteEffects.DataBlocks | simplefs.c:632-641 | the blocks delete zeroes are the file's used entries, each owned by the file at its position |
| DeleteEffects.ZeroedBlocks | simplefs.c:636 | zeroing a list of blocks keeps the number of blocks |
| DeleteEffects.ZeroedBlocksAt | simplefs.c:636 | block k is zeroed exactly when it is in the list, and otherwise kept |
| DeleteEffects.ZeroedBlocksSnoc | simplefs.c:636 | zeroing one more block is one write of the erase buffer after the others |
| DeleteEffects.SetBitsSnoc | simplefs.c:637 | freeing one more block is one SetBit after the others |
| DeleteEffects.Deleted | simplefs.c:625-648 | delete's image keeps the region sizes |
| DeleteEffects.Released | simplefs.c:632-644 | after delete the file's blocks are free and every other block keeps its owner |
| DeleteEffects.ClosedAll | simplefs.c:617-623 | exactly the open-file slots on the deleted FCB are closed, and the others are kept |
| DeleteEffects.NamedFileActive | simplefs.c:604 | the entry delete finds names a live FCB |
| DeleteEffects.DeleteStep | simplefs.c:589-651 | one delete of the first entry named `name`: its FCB was live, and image, owners and open-file table become Deleted, Released and ClosedAll |
| DeleteEffects.DeleteKeepsImageOk | simplefs.c:625-648 | delete keeps the session consistent and removes the file; every other file keeps its contents; the bitmap gains the data blocks plus the index block while blocks_free gains only the data blocks |
| DeleteEffects.DeleteOftOk | simplefs.c:617-623 | after the close loop no open slot refers to the deleted file |
| DeleteEffects.DeleteBlocksOwned | simplefs.c:632-644 | the blocks owned by the deleted file are exactly its index block and its used data blocks |
| DeleteEffects.DeleteDirOk | simplefs.c:605-606 | after delete the FCBs are well formed and the directory names only live FCBs |
| DeleteEffects.DeleteOwnersOk | simplefs.c:637-644 | after delete the bitmap marks exactly the ownerless blocks free |
| DeleteEffects.ReleasedOwnersOk | simplefs.c:637-644 | freeing a file's blocks and FCB keeps owners and bitmap in agreement |
| DeleteEffects.ReleasedFilesOwned | simplefs.c:626 | the remaining files still own their index blocks and data blocks |
| DeleteEffects.ReleasedOwnersBack | simplefs.c:626 | every block still owned is named by a live file |
| DeleteEffects.DeletedBlock | simplefs.c:636-643 | delete keeps every block the deleted file does not own and keeps block sizes |
| DeleteEffects.DeleteStoredOk | simplefs.c:636-643 | after delete every remaining file's index block still holds its table |
| DeleteEffects.DeleteKeepsFile | simplefs.c:625-648 | a file other than the deleted one stays live with the same contents |
| DeleteEffects.DeleteKeepsBlocksOf | simplefs.c:636-643 | delete leaves the data blocks of every other file unchanged |
| DeleteEffects.DeleteFreeCount | simplefs.c:632-644 | delete frees |ks|+1 distinct blocks that were in use, so the bitmap's free count grows by |ks|+1 |
| AppendEffects.AppendRefused | simplefs.c:476-493 | append refuses before writing: the slot is not open, it is not open for appending, or the size would pass 4194304 bytes |
| AppendEffects.PartlyFilled | simplefs.c:499 | the file is non-empty and its size is not a multiple of BLOCKSIZE, so its last block has room and append fills it first |
| AppendEffects.FillCount | simplefs.c:499-509 | the fill step copies at most n bytes and no more than the room left in the last block |
| AppendEffects.NewBlocks | simplefs.c:519 | the number of new blocks is never negative |
| AppendEffects.ChunkLen | simplefs.c:560-569 | `to_copy` for the j-th new block: a full BLOCKSIZE while more than a block is left, otherwise the rest |
| AppendEffects.Overwrite | simplefs.c:511 | memcpy into a block replaces exactly the bytes from the offset on and keeps the others |
| AppendEffects.Filled | simplefs.c:499-517 | the fill step keeps the number of blocks |
| AppendEffects.StoredChunks | simplefs.c:577 | the blocks after write_block of chunk j to block ks[j], in turn |
| AppendEffects.StoredChunksAt | simplefs.c:577 | a block receives the last chunk written to it, and an untouched block is kept |
| AppendEffects.StoredChunksSnoc | simplefs.c:577 | storing one more chunk is one write_block after the others |
| AppendEffects.Extend | simplefs.c:544-559 | the index table with the new blocks entered from the first unused entry on |
| AppendEffects.ExtendAt | simplefs.c:559 | the grown index table names the new blocks at the entries after the used ones and keeps the others |
| AppendEffects.ExtendStorable | simplefs.c:559 | the grown index table still fits a block |
| AppendEffects.ExtendSnoc | simplefs.c:559 | filling one more unused entry is one assignment after the others |
| AppendEffects.Claimed | simplefs.c:559-572 | the owners after append: block ks[j] becomes data entry u+j of the file |
| AppendEffects.ClaimedAt | simplefs.c:559-572 | the new blocks become data entries of the file at their positions and every other block keeps its owner |
| AppendEffects.Cursor | simplefs.c:514-574 | the FCB copy after the fill and the loop: last block written and offset moved to the last byte written, size not yet updated |
| AppendEffects.AppendedFcb | simplefs.c:580 | the FCB append writes back: the moved cursor and the size grown by n |
| AppendEffects.AppendRoom | simplefs.c:489-519 | the used entries grow by exactly the new blocks and stay within INDEX_MAX; new blocks begin right after the filled last block |
| AppendEffects.CeilDivShift | simplefs.c:519 | whole blocks before a partial tail add their number to the block count |
| AppendEffects.AppendCursorOk | simplefs.c:514-515 | after append the FCB's cursor names the file's last byte in its grown table |
| AppendEffects.AppendedBlocks | simplefs.c:499-582 | the blocks a completed append leaves keep their number |
| AppendEffects.Appended | simplefs.c:499-584 | the image a completed append writes: counters moved by the blocks taken, their bits cleared, the FCB grown, the last block filled, the chunks stored, the grown table in the index block |
| AppendEffects.ChunksOk | simplefs.c:560-571 | each new block written holds BLOCKSIZE bytes and begins with its `to_copy` bytes of the data, taken in order after the fill; the bytes after a chunk are left unconstrained |
| AppendEffects.ChunksOkSnoc | simplefs.c:560-571 | one more chunk that begins with the next part of the data keeps the chunks in order |
| AppendEffects.Allocating | simplefs.c:519-578 | the state of the allocation loop after it took ks and wrote cs: bits of ks cleared first-fit, ks entered in the table, chunks on disk, no more blocks than needed |
| AppendEffects.AllocStart | simplefs.c:519-523 | the allocation loop starts from a state where nothing is yet taken |
| AppendEffects.AllocEntry | simplefs.c:544-552 | the lowest unused index entry is the one right after the entries already used, so "Index table is full" cannot happen |
| AppendEffects.AllocStep | simplefs.c:528-577 | one turn takes the lowest free block, records it in the table, stores the next chunk and keeps the loop invariant |
| AppendEffects.TurnTaken | simplefs.c:525-577 | one turn with its counter and cursor updates keeps the loop invariant with one more block |
| AppendEffects.CursorSnoc | simplefs.c:573-574 | the cursor after one more block names that block and the bytes written to it |
| AppendEffects.AppendStep | simplefs.c:486-586 | one completed append: first-fit took exactly the blocks the data needs, each chunk starts with its part of the data, and image, tables and owners become Appended, Extend and Claimed |
| AppendEffects.AppendFails | simplefs.c:523-541 | one append that ran out of blocks: first-fit took fewer blocks than needed until no bit was left, and only the filled last block and the chunks reached the disk |
| AppendEffects.AllocatedAppends | simplefs.c:519-584 | a loop that took every block it needed, followed by the write-back, is one completed append |
| AppendEffects.AllocatedFails | simplefs.c:537-541 | a loop that stopped with no free bit left is a failed append |
| AppendEffects.TakenBlocksFree | simplefs.c:528-536 | the blocks append takes were free, so no file owned them |
| AppendEffects.LastBlockOwned | simplefs.c:499-501 | a partly filled last block is the file's own last data block |
| AppendEffects.ChunkedBlocksAt | simplefs.c:570-577 | after the loop each new block holds its chunk and every other block is as the fill step left it |
| AppendEffects.OldBytesKept | simplefs.c:499-517 | the file's old bytes are kept by the fill step and the new blocks |
| AppendEffects.FilledBytes | simplefs.c:511 | the bytes the fill step writes are the first bytes of the data |
| AppendEffects.ChunkBytes | simplefs.c:570 | the bytes of chunk j are the data's bytes from its offset on |
| AppendEffects.NewBytes | simplefs.c:559-577 | the bytes after the fill are the rest of the data |
| AppendEffects.AppendedBytes | simplefs.c:499-580 | after append the file reads as its old bytes followed by the data |
| AppendEffects.ClaimedTakes | simplefs.c:572 | taking free blocks for the file gives them to it at its next positions |
| AppendEffects.GrownFilesOwned | simplefs.c:559 | every file still owns its index block and all its data blocks after the table grows |
| AppendEffects.GrownOwnersBack | simplefs.c:559 | every owned block is named by its owner's grown table |
| AppendEffects.GrownBits | simplefs.c:572 | clearing the taken bits keeps the bitmap in agreement with the owners |
| AppendEffects.GrownOwnersOk | simplefs.c:559-584 | the grown file's owners, tables and bitmap agree |
| AppendProofs.AppendSiteOk | simplefs.c:486-522 | the file's table, cursor and blocks in a consistent image are what append relies on |
| AppendProofs.SiteLastBlock | simplefs.c:499-501 | a partly filled last block is a full-size data block other than the index block |
| AppendProofs.AppendedBlocksAt | simplefs.c:499-582 | each block after append is the filled last block, a new chunk, the index block or unchanged |
| AppendProofs.AppendedAddressable | simplefs.c:559 | every block the grown table names exists and has full size |
| AppendProofs.AppendedLastFilled | simplefs.c:499-517 | the last block carries the fill bytes after the old ones |
| AppendProofs.AppendedChunksPlaced | simplefs.c:559-577 | each new table entry names the block holding its chunk |
| AppendProofs.AppendLayoutHolds | simplefs.c:499-582 | the layout of a completed append holds |
| AppendProofs.AppendContents | simplefs.c:499-584 | a completed append adds exactly the data to the end of the file's bytes |
| AppendProofs.GrownFcbsOk | simplefs.c:580 | the grown FCB fits its grown table and the other FCBs are kept |
| AppendProofs.SameActiveDirOk | simplefs.c:584 | an FCB table with the same live FCBs keeps the directory consistent |
| AppendProofs.SameActiveOftOk | simplefs.c:584 | an FCB table with the same live FCBs keeps the open-file table consistent |
| AppendProofs.AppendStoredOk | simplefs.c:582 | after append every file's index block holds its table |
| AppendProofs.AppendKeepsOthers | simplefs.c:577-582 | append leaves every other file's contents unchanged |
| AppendProofs.FailedBlocksAt | simplefs.c:537-541 | after a failed append the file's index block and the unused blocks are as before |
| AppendProofs.FailedKeepsFile | simplefs.c:537-541 | after a failed append every file reads as before |
| AppendProofs.FailedStoredOk | simplefs.c:537-541 | after a failed append every index block still holds its table |
| AppendProofs.AppendImageOk | simplefs.c:499-584 | a completed append leaves a consistent image |
| AppendProofs.AppendKeepsOtherFiles | simplefs.c:499-584 | every other file stays live with its contents after a completed append |
| AppendProofs.AppendKeepsImageOk | simplefs.c:499-584 | a completed append keeps the session consistent, grows the file by exactly the data, keeps every other file, and takes |ks| blocks off both the bitmap and blocks_free |
| AppendProofs.AppendFailsOk | simplefs.c:537-541 | an append that runs out of blocks keeps the session consistent and every file's contents, and happens only when fewer blocks were free than it needed |
| AppendProofs.AppendStart | simplefs.c:486-501 | the facts append relies on before it writes: the cursor fits the table, the table is stored, and the last block is a distinct full-size block |
| AppendProofs.AppendOutcome | simplefs.c:486-586 | what sfs_append returns and leaves once its checks passed: -1 exactly when fewer blocks are free than needed, with every file kept; otherwise n, the file grown by the data and every other file kept; the session stays consistent |
| AppendProofs.AppendRunFails | simplefs.c:523-541 | a loop that ran out of free blocks is a failed append, with the outcome sfs_append returns -1 for |
| AppendProofs.AppendRunOk | simplefs.c:519-586 | a loop that took every block it needed, once committed, is one append step, with the outcome sfs_append returns the length for |
| SimpleFs.Pow2 | simplefs.c:157 | `num << m` with num = 1: 2^m, the disk size in bytes, at least 1 |
| SimpleFs.Pow2Monotone | simplefs.c:157 | 2^m grows with m |
| SimpleFs.FormatBlockCount | simplefs.c:157-158 | a disk of 2^m bytes, m <= 29, has at most as many blocks as the bitmap names |
| SimpleFs.SelectCreateSlots | simplefs.c:266-324 | create's three searches fail exactly when the name is a duplicate before the first free entry, or no entry, FCB or block below the block count is free; otherwise they return the lowest free entry, FCB and block |
| SimpleFs.CopyChunk | simplefs.c:462 | memcpy puts the first count bytes of the block at the offset in buf and keeps the rest of buf |
| SimpleFs.CopyOut | simplefs.c:447-469 | the read loop copies exactly the first n bytes of the file and keeps the rest of buf |
| SimpleFs.Disk.Zeroed | simplefs.c:160-163 | dd gives a zero-filled disk |
| SimpleFs.Disk.WriteSuperblock | simplefs.c:110-124 | write_block of the superblock replaces only the superblock |
| SimpleFs.Disk.WriteBitmap | simplefs.c:136-144 | write_struct of the bitmap replaces only the bitmap region |
| SimpleFs.Disk.WriteRoot | simplefs.c:136-144 | write_struct of the root replaces only the directory region |
| SimpleFs.Disk.WriteFcbTable | simplefs.c:136-144 | write_struct of the FCB table replaces only the FCB region |
| SimpleFs.Disk.WriteBlock | simplefs.c:110-124 | write_block replaces exactly block k |
| SimpleFs.FileSystem.Valid | simplefs.c:33-86 | the session invariant: buffers of their fixed sizes, a consistent persisted image, open slots naming live files |
| SimpleFs.FileSystem.FileContents | simplefs.c:447-469 | the bytes a read through the file's index table returns, as persisted |
| SimpleFs.FileSystem.Format | simplefs.c:151-234 | format then mount leaves a consistent session on the formatted image with every open-file slot free |
| SimpleFs.FileSystem.Create | simplefs.c:254-348 | create succeeds exactly when the name fits and none of its searches fails; on success it writes the created image with a new empty file and keeps every other file; on failure it writes nothing |
| SimpleFs.FileSystem.CommitCreate | simplefs.c:326-345 | the updates and writes of create persist the created image |
| SimpleFs.FileSystem.Open | simplefs.c:350-395 | open fails exactly when no entry carries the name or every slot is taken; otherwise it binds the lowest free slot to the FCB of the first entry with the name, which for the empty name is FCB -1, a slot that stays closed |
| SimpleFs.FileSystem.Close | simplefs.c:397-407 | close fails exactly when the slot is not open, and otherwise frees only that slot |
| SimpleFs.FileSystem.GetSize | simplefs.c:409-419 | getsize fails exactly when the slot is not open, and otherwise returns the length of the file's contents |
| SimpleFs.FileSystem.Read | simplefs.c:421-471 | read fails exactly when the slot is not open for reading or n exceeds the size; otherwise it returns n with the first n bytes of the file in buf and the rest of buf kept, or, for a negative n on an empty file, 0 with buf untouched |
| SimpleFs.FileSystem.ReadOpen | simplefs.c:441-470 | the copy part of read delivers the file's first n bytes |
| SimpleFs.FileSystem.Append | simplefs.c:474-587 | append refuses, changing nothing, when the slot is not open for appending or the size would pass 4 MiB; a negative n on a file with no partly filled block returns 0 and changes nothing; otherwise it returns -1 exactly when fewer blocks are free than it needs, keeping every file's contents, and else returns n, adds exactly the data to the file and keeps every other file |
| SimpleFs.FileSystem.AppendWrite | simplefs.c:486-586 | the writing part of append has the outcome Append states |
| SimpleFs.FileSystem.FillAndAllocate | simplefs.c:494-578 | the fill step and the loop succeed exactly when they took every block needed, and leave no free bit when they fail |
| SimpleFs.FileSystem.FillLastBlock | simplefs.c:494-517 | the fill step copies FillCount bytes into the last block and moves the cursor |
| SimpleFs.FileSystem.AllocateOne | simplefs.c:525-577 | one turn fails exactly when no bit is set, and otherwise takes the lowest free block and stores its chunk there |
| SimpleFs.FileSystem.AllocateTurn | simplefs.c:525-577 | one turn keeps the loop invariant with one more block, or stops with no free bit left |
| SimpleFs.FileSystem.AllocateBlocks | simplefs.c:519-578 | the loop takes every block needed, or stops when no bit is left, keeping the counters and cursor in step |
| SimpleFs.FileSystem.CommitAppend | simplefs.c:580-584 | the write-back grows the size and persists the superblock, index block, bitmap and FCB |
| SimpleFs.FileSystem.Delete | simplefs.c:589-651 | delete fails, changing nothing, exactly when no entry carries the name (the empty name included, when no entry is free); otherwise it takes the delete step on the first such entry and keeps the session consistent |
| SimpleFs.FileSystem.RemoveEntry | simplefs.c:604-648 | the rest of delete clears the entry, closes the file's slots and releases its blocks |
| SimpleFs.FileSystem.CloseAllOf | simplefs.c:617-623 | the close loop closes exactly the slots on the FCB |
| SimpleFs.FileSystem.CommitDelete | simplefs.c:625-648 | the updates and writes of delete persist the deleted image |
| SimpleFs.FileSystem.ReleaseFile | simplefs.c:631-644 | the data blocks and then the index block are zeroed and freed; the counters move by the data blocks only |
| SimpleFs.FileSystem.LoadIndexTable | simplefs.c:631 | read_block of an index block loads the stored table |
| SimpleFs.FileSystem.ReleaseDataBlocks | simplefs.c:632-641 | every used entry's block is zeroed and freed, and the counters move by one per block |

## Left out

- Disk I/O is a typed in-memory image. `lseek`, short reads and writes, their error returns, the
  `dd` command run through `system`, `open` and `fsync` are not modelled.
- `sfs_umount` is not modelled: it only synchronises and frees the in-memory buffers.
- Byte-level layout of the superblock, directory and FCB regions is not modelled: their fillers,
  padding, and names as NUL-terminated C arrays. Only index tables are modelled as bytes.
- Names are Dafny strings compared as whole sequences. `strlen` and `strcmp` count bytes up to
  the first NUL, so the model differs from the code for names holding a NUL character or
  characters outside ASCII (whose UTF-8 form is longer than one byte).
- `sfs_mount` allocates the superblock buffer with `malloc(sizeof(struct superblock))`
  (simplefs.c:221), far less than the 4096 bytes `read_block` and `write_block` move into and
  out of it (simplefs.c:199, 261, 341, 520, 581, 591, 645). The model treats each of these
  transfers as a clean typed copy of the superblock.
- `puts`/`printf` messages are left out. Only return values are modelled.
- Concurrency and several simultaneous mounts are out of scope.
- simplefs.h is not part of this model. BLOCKSIZE = 4096, MODE_READ = 0 and MODE_APPEND = 1 are
  assumed from its use.
- Uninitialised `free` in the allocation loop (simplefs.c:527): it is declared inside the `j`
  loop and set only when a bit is found, so C leaves its value undefined whenever the scan finds
  no set bit. A typical build keeps the `true` the previous turn left (simplefs.c:548-555) and
  would then reuse that turn's `free_disk_block` instead of returning -1. The model picks the
  -1 path ("All Disk Blocks are occupado") on every turn.
- The uninitialised tail of `temp` in append and the unspecified contents of the buffers
  `sfs_mount` allocates: the model leaves those bytes unspecified.
- Undefined behaviour in C becomes preconditions instead of error paths:
  - `fd` outside 0..15;
  - the negative `n` and the empty delete name listed next.
- SimpleFs.FileSystem.Read: a negative `n` on an open, non-empty file is excluded. The first
  used entry makes the loop call `memcpy` with a negative size (simplefs.c:451-462). A negative
  `n` on a refused call or an empty file is modelled: -1, or 0 with buf untouched.
- SimpleFs.FileSystem.Append: a negative `n` on an open file whose last block is partly filled is
  excluded. The fill step then calls `memcpy` with a negative size (simplefs.c:499-511). Otherwise
  a negative `n` is modelled: the call takes no block, writes back what it read and returns 0.
- SimpleFs.FileSystem.Delete: the empty name is excluded only while some directory entry is
  free. It then matches that free entry and indexes FCB -1 (simplefs.c:602-604, 625). With no
  free entry it matches nothing and the call returns -1.
  - a `vdiskname` of 110 or more bytes;
  - `m` of 31 or more in format (`1 << m` overflows a 32-bit int).
- SimpleFs.FileSystem.Format: does not cover m = 30. The model's disk has at most the 131072
  blocks the bitmap names (BITMAP_MAX*32), and m = 30 gives a disk of 262144 blocks whose upper
  half no bit describes; create's scan (simplefs.c:311) would then read past the bitmap.
- 32-bit `int` overflow is not modelled: the counters and `n` are unbounded integers. Each
  create/delete pair lowers `blocks_free` by one for good (create takes one from it at
  simplefs.c:333, delete gives back only the data blocks at simplefs.c:643-644), so after about
  2^31 such pairs the C counter would wrap. `n + filesize` (simplefs.c:489) overflows in C for
  n > INT_MAX - filesize, where a wrapped sum passes the 4194304 test; the model refuses that
  call as too large.
- Layout.CeilDiv: `ceil` on a double is modelled by integer rounding up, exact for every n below 2^31.
- SimpleFs.FileSystem.Append: it does not say what happens to the bytes after a chunk in a new
  block; they are whatever the buffer held before.
- Errors from `read_block` and `write_block` in the middle of an operation cannot happen in the
  model.
