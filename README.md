# BobFS.NET in Dafny

BobFS is a small teaching file system. This project models its core and proves
properties of that model.

The system is built in layers:

- **The device** (`RawImageSource`) is a dictionary from sector numbers to
  512-byte sectors. A sector that was never stored reads as zeros. An image file
  is split into sectors when loaded and assembled again when saved.
- **Byte transfers** (`BlockSource`). `Read` and `Write` move at most the rest of
  one sector. `ReadAll` and `WriteAll` loop over those chunks.
- **The file system** (`BobFs`) works in 1024-byte blocks:
  - block 0 is the superblock: the magic "BOBFS439", then the root inode number;
  - block 1 is the block bitmap;
  - block 2 is the inode bitmap;
  - blocks 3 to 130 hold the inode table: 16-byte records with a type, a link
    count, a size, a direct block and an indirect block;
  - data blocks start at block 131.
- **Files** (`BobFsNode`). Part 0 of a file lives in the direct block. Parts 1 to
  256 are listed in the indirect block, a table of 256 little-endian words.
- **Directories** are files holding entries back to back. Each entry is the inode
  number (4 bytes), the name length (4 bytes) and the ASCII name.
- **Caching.** A node handle caches its inode and its indirect table, each with a
  Modified flag. `Commit` writes back what is marked modified.

The model is split into these modules:

- `Bytes`: byte types, little-endian codecs, `Splice` (Buffer.BlockCopy on values).
- `Bitmap`: BitArray bits and the first-fit scan.
- `RawImage`: class `ImageSource`, the sector dictionary.
- `BlockSource`: the transfer methods over an `ImageSource`:
  - `ReadAll` and `WriteAll` exactly as written;
  - the corrected `ReadSpan` and `WriteSpan`, which the upper layers use (see
    "## Findings").
- `Layout`: the on-disk codecs and the directory format.
- `NodeOps` and `DirOps`: each node and directory operation as a function on a
  value `State`, which is the device content plus a node's caches. They follow the
  C# members step by step and are the specifications of the methods.
- `Node`: class `BobFsNode`. Its methods have loops, arrays and caches, and each
  is proved equal to its `NodeOps`/`DirOps` function.
- `NodeView`, `NodeWrite`, `NodeCommit`, `DirWrite` and `DirLink`: what those
  functions mean. This is stated on a "view" of a file: its inode, table and
  bytes.
  - Read side: ReadAll returns the file's bytes, Contents lists the stored
    entries, and FindNode finds the first match.
  - Write side: WriteAll stores the bytes and WriteAll then ReadAll gives them
    back. DeleteNode removes exactly the first matching entry. LinkNode,
    RenameNode and NewNode append the entry and store the right inode record.
- `Fs`: class `BobFs`, with Format, Mount, Mkfs and Root.

## Model

| member | source | states |
|---|---|---|
| RawImage.Touch | BobFS.NET/RawImageSource.cs:42-43 | the first touch of a sector inserts a zero sector: the keys gain `s` and every sector reads as before |
| RawImage.TouchThenStore | BobFS.NET/RawImageSource.cs:50-53 | storing a sector after the zero-sector insert is the same as storing it into the original dictionary |
| RawImage.ImageSectors | BobFS.NET/RawImageSource.cs:32-37 | an image splits into exactly the sectors 0 .. len/512 - 1 |
| RawImage.ImageRoundTrip | BobFS.NET/RawImageSource.cs:27-67 | assembling the sectors of a loaded image gives the image back |
| RawImage.ImageSource.constructor | BobFS.NET/RawImageSource.cs:13-17 | a new device holds no sector |
| RawImage.ImageSource.ReadSector | BobFS.NET/RawImageSource.cs:40-46 | the sector's bytes (zeros if never stored) are copied into the buffer at bufOffset, and a missing sector is inserted as zeros |
| RawImage.ImageSource.WriteSector | BobFS.NET/RawImageSource.cs:48-54 | the sector becomes the 512 buffer bytes at bufOffset; nothing else changes |
| RawImage.ImageSource.PopulateSectors | BobFS.NET/RawImageSource.cs:27-38 | an image whose length is not a multiple of 512 is refused with nothing stored; otherwise its sectors are added |
| RawImage.ImageSource.Save | BobFS.NET/RawImageSource.cs:56-67 | fails exactly when no sector is stored, a key is negative, or the image size (max key + 1) * 512 passes the int range (from max key 4194303 on); otherwise yields (max key + 1) * 512 bytes, at most 2^31 - 1, with each sector at key * 512 and zeros elsewhere |
| RawImage.MaxKey | BobFS.NET/RawImageSource.cs:60 | the largest key of a non-empty key set |
| BlockSource.ChunkCount | BobFS.NET/BlockSource.cs:14-21 | one transfer moves n bytes, cut at the end of the sector; it stays inside the sector and moves at least one byte when n > 0 |
| BlockSource.PutChunkEffect | BobFS.NET/BlockSource.cs:54-59 | a partial-sector write changes exactly its own bytes and keeps the rest of the sector |
| BlockSource.WriteRangeEffect | BobFS.NET/BlockSource.cs:83-99 | a chunked write of buffer bytes lo..hi at `at` changes the covered bytes to the buffer's, and no other byte |
| BlockSource.WriteThenRead | BobFS.NET/BlockSource.cs:83-99 | reading back a span just written yields the bytes written |
| BlockSource.ContentWrite | BobFS.NET/BlockSource.cs:83-99 | on the device content, a chunked write is a splice of the written bytes |
| BlockSource.Read | BobFS.NET/BlockSource.cs:12-36 | moves ChunkCount bytes of the device into the buffer at bufOffset; a sector read touches the dictionary only by inserting a zero sector |
| BlockSource.ReadContent | BobFS.NET/BlockSource.cs:12-36 | Read leaves the device content unchanged and copies exactly the content bytes at offset |
| BlockSource.Write | BobFS.NET/BlockSource.cs:38-63 | moves ChunkCount buffer bytes to the device; a partial sector is read, patched and written back |
| BlockSource.ChunksFitStep | BobFS.NET/BlockSource.cs:69-78 | after one chunk the remaining chunks still fit the buffer room, so the loop never copies out of range |
| BlockSource.ReadAll | BobFS.NET/BlockSource.cs:65-81 | as written: returns max(n, 0), keeps the device content, and leaves the buffer as ReadAllAsWritten says: every chunk lands at the same bufOffset |
| BlockSource.WriteAll | BobFS.NET/BlockSource.cs:83-99 | as written: returns max(n, 0) and leaves the dictionary as WriteAllAsWritten says: every chunk is taken from the same bufOffset |
| BlockSource.ReadAllAsWrittenLosesFirstSector | BobFS.NET/BlockSource.cs:71 | an aligned 1024-byte ReadAll leaves only the second sector in the buffer, at bufOffset; the first sector is overwritten and the second half never filled |
| BlockSource.WriteAllAsWrittenDuplicatesFirstHalf | BobFS.NET/BlockSource.cs:89 | an aligned 1024-byte WriteAll stores the buffer's first 512 bytes in both sectors |
| BlockSource.UnalignedWriteAsWrittenRepeats | BobFS.NET/BlockSource.cs:89 | a 5-byte WriteAll two bytes before a sector boundary stores buffer bytes 0,1 then 0,1,2 ("hello" becomes "hehel") |
| BlockSource.ReadSpan | BobFS.NET/BlockSource.cs:65-81 | corrected ReadAll: returns max(n, 0), keeps the content, and the buffer receives exactly the device bytes offset .. offset + n at bufOffset |
| BlockSource.WriteSpan | BobFS.NET/BlockSource.cs:83-99 | corrected WriteAll: returns max(n, 0) and the device content becomes the old content with buffer[bufOffset .. bufOffset + n) spliced in at offset |
| Bytes.ToUInt32 | BobFS.NET/BobFsNode.cs:234 | the C# (uint) cast: identity on non-negative ints, + 2^32 on negative ones |
| Bytes.Zeros | BobFS.NET/BobFs.cs:38 | a fresh .NET byte array: n bytes, all zero |
| Bytes.SpliceAt | BobFS.NET/RawImageSource.cs:45 | Buffer.BlockCopy: inside the span the destination holds the source, outside it is unchanged |
| Bytes.BlockCopy | BobFS.NET/BlockSource.cs:32 | the array method: the destination becomes the splice of the source slice |
| Bytes.CopyTo | BobFS.NET/BobFs.cs:32-33 | Array.CopyTo: the bytes are spliced into the buffer at the index |
| Bytes.LE16RoundTrip | BobFS.NET/BobFsNode.cs:513-523 | BitConverter.ToUInt16 reads back what GetBytes(ushort) wrote |
| Bytes.LE32RoundTrip | BobFS.NET/BobFsNode.cs:515-525 | BitConverter.ToUInt32 reads back what GetBytes(uint) wrote |
| Bytes.LE16Canonical | BobFS.NET/BobFsNode.cs:513 | any two bytes decode to a ushort that encodes to the same bytes |
| Bytes.LE32Canonical | BobFS.NET/BobFsNode.cs:515 | any four bytes decode to a uint that encodes to the same bytes |
| Bitmap.SetByteBit | BobFS.NET/BobFsNode.cs:152 | setting a bit sets that bit of the byte and no other |
| Bitmap.SetBit | BobFS.NET/BobFsNode.cs:152-153 | BitArray set then CopyTo: bit i set, every other bit as before, same length |
| Bitmap.FirstClear | BobFS.NET/BobFsNode.cs:145-147 | the lowest clear bit from `from`, or -1 exactly when every bit from there is set |
| Bitmap.FirstFreeBit | BobFS.NET/BobFsNode.cs:141-147 | the scan loop: -1 iff all bits are set, otherwise a clear bit with all bits below it set |
| Bitmap.FirstFitAdvances | BobFS.NET/BobFsNode.cs:145-153 | after the chosen bit is set, the next scan returns a strictly larger index |
| Layout.CeilDiv | BobFS.NET/BobFsNode.cs:130 | Math.Ceiling of Size / BlockSize, as a bounded integer quotient |
| Layout.MaxFilesizeParts | BobFS.NET/BobFs.cs:11 | the largest file, 257 blocks, ends exactly at part 256, the last part AssignBlock accepts |
| Layout.InodeRoundTrip | BobFS.NET/BobFsNode.cs:511-527 | Inode.WriteTo then ReadFrom restores all five fields |
| Layout.InodeCanonical | BobFS.NET/BobFsNode.cs:511-527 | every 16-byte record is the encoding of the inode it decodes to |
| Layout.InodeFromBytes | BobFS.NET/BobFsNode.cs:511-518 | decoding an inode reads its 16 bytes and nothing else |
| Layout.WordsRoundTrip | BobFS.NET/BobFsNode.cs:552-565 | Indirects.WriteTo then ReadFrom restores all entries |
| Layout.ReadIndirects | BobFS.NET/BobFsNode.cs:552-559 | fails with "Array too small" exactly for a buffer under 1024 bytes, leaving the table as it was; otherwise the table is the 256 decoded words |
| Layout.WriteIndirects | BobFS.NET/BobFsNode.cs:561-565 | the table's 1024 bytes are put at the front of the buffer |
| Layout.AsciiFixes | BobFS.NET/BobFsNode.cs:582-590 | Encoding.ASCII: ASCII names pass through unchanged and every result is ASCII |
| Layout.EncodeEntry | BobFS.NET/BobFsNode.cs:585-592 | an entry takes 8 + name length bytes |
| Layout.EntryRoundTrip | BobFS.NET/BobFsNode.cs:573-592 | an entry written at `at` reads back with the same inode number and name, and the scan moves on past its bytes |
| Layout.EncodeDirConcat | BobFS.NET/BobFsNode.cs:585-592 | encoding two runs of entries is encoding each and joining the bytes |
| Layout.ParseEncoded | BobFS.NET/BobFsNode.cs:115-122 | the Contents scan over stored entries, after any prefix, yields exactly those entries |
| Layout.DirRoundTrip | BobFS.NET/BobFsNode.cs:106-126 | a directory written entry by entry lists those entries back |
| Layout.AppendEntry | BobFS.NET/BobFsNode.cs:406-409 | an entry appended at Size is listed after the ones before it |
| Layout.FindIn | BobFS.NET/BobFsNode.cs:343-359 | FindNode's answer on a listing: Some exactly when some entry has the name |
| Layout.ScanFindAgrees | BobFS.NET/BobFsNode.cs:348-356 | on a cleanly scanning directory, the FindNode scan finds the first listed entry with the name |
| Layout.FirstWith | BobFS.NET/BobFsNode.cs:369-373 | the index of the first entry holding the inode: every earlier entry holds another one |
| Layout.ScanInumEncoded | BobFS.NET/BobFsNode.cs:367-389 | DeleteNode's scan over stored entries stops at the first entry holding the inode, at the offset where the earlier entries end, and fails exactly when none does |
| Layout.RemoveEntryBytes | BobFS.NET/BobFsNode.cs:375-382 | cutting the k-th entry's bytes out of a directory leaves the encoding of the other entries |
| Layout.MagicExact | BobFS.NET/BobFs.cs:80-84 | CheckHeader accepts exactly the blocks whose first eight bytes are "BOBFS439" |
| Layout.FormatSuperblockReads | BobFS.NET/BobFs.cs:30-35 | the superblock Format builds reads back as the magic and root inode 0 |
| NodeOps.LoadNode | BobFS.NET/BobFsNode.cs:32-46 | the Node getter loads the stored record when the cache is invalid and leaves the device and the table cache alone |
| NodeOps.SetType | BobFS.NET/BobFsNode.cs:67-71 | the Type setter changes only the inode's type |
| NodeOps.SetNumLinks | BobFS.NET/BobFsNode.cs:73-77 | the NumLinks setter changes only the link count |
| NodeOps.SetSize | BobFS.NET/BobFsNode.cs:79-83 | the Size setter changes only the size |
| NodeOps.SetDirect | BobFS.NET/BobFsNode.cs:85-89 | the DirectBlock setter changes only the direct block |
| NodeOps.SetIndirect | BobFS.NET/BobFsNode.cs:91-100 | the IndirectBlock setter changes only the indirect block and drops the table cache |
| NodeOps.LoadTable | BobFS.NET/BobFsNode.cs:48-65 | the Indirect getter keeps the device; it fails only with "Indirect block does not exist" or an unaddressable block |
| NodeOps.ClaimBit | BobFS.NET/BobFsNode.cs:143-156 | the scan of a bitmap block answers its first clear bit; what it writes is NodeOps.ClaimBitEffect |
| NodeOps.ClaimBitEffect | BobFS.NET/BobFsNode.cs:143-156 | on any bitmap block (the block bitmap or the inode bitmap): -1 with the device untouched exactly when every bit is set; otherwise a clear bit with every earlier bit set, the block written back is the bitmap with that bit set, and every other device byte is kept |
| NodeOps.FindFreeBlock | BobFS.NET/BobFsNode.cs:139-157 | leaves the caches alone and answers -1 or a block in 131 .. 131 + 8191; which block, and what is written, is NodeWrite.FirstFitClaim |
| NodeWrite.FirstFitClaim | BobFS.NET/BobFsNode.cs:139-157 | first fit: -1 with nothing written exactly when the block bitmap is full; otherwise the first clear bit + 131 (every earlier bit set), that bit set in the bitmap written back, the caches and every byte outside the bitmap kept |
| NodeOps.BlockCountBounds | BobFS.NET/BobFsNode.cs:184-188 | a request of at least one byte inside a block moves between 1 and n bytes |
| NodeOps.FetchEffect | BobFS.NET/BobFsNode.cs:216-224 | the end of Read moves the request's bytes that lie in the part's block |
| NodeOps.Cover | BobFS.NET/BobFsNode.cs:233-234 | Size afterwards covers the request's end and the device is unchanged |
| NodeOps.Commit | BobFS.NET/BobFsNode.cs:424-438 | Commit leaves the node cached |
| NodeOps.Invalidate | BobFS.NET/BobFsNode.cs:418-422 | both caches become invalid and the device is unchanged |
| DirOps.FreshCache | BobFS.NET/BobFsNode.cs:25-29 | a new handle has nothing cached |
| DirOps.CheckDir | BobFS.NET/BobFsNode.cs:104 | IsDirectory: succeeds exactly when the type is Directory, with NotDirectory otherwise; loads the node |
| DirOps.Contents | BobFS.NET/BobFsNode.cs:106-111 | Contents on a non-directory fails with NotDirectory |
| DirOps.FindNode | BobFS.NET/BobFsNode.cs:343-346 | FindNode on a non-directory fails with NotDirectory |
| DirOps.DeleteNode | BobFS.NET/BobFsNode.cs:362-365 | DeleteNode on a non-directory fails with NotDirectory and changes nothing but the node cache |
| DirOps.NewNode | BobFS.NET/BobFsNode.cs:303-317 | the inode number handed out lies inside the inode bitmap |
| NodeView.LoadNodeView | BobFS.NET/BobFsNode.cs:32-46 | the Node getter does not change the file the node shows |
| NodeView.LoadTableView | BobFS.NET/BobFsNode.cs:48-65 | the Indirect getter keeps the view and yields the table stored in the indirect block, or its exception |
| NodeView.PartBlockNumView | BobFS.NET/BobFsNode.cs:128-137 | PartBlockNum keeps the view and names the part's block: direct for part 0, table entry part-1 after, 0 without an indirect block |
| NodeView.ReadView | BobFS.NET/BobFsNode.cs:204-225 | one Read inside the file moves the file's bytes up to the end of the block (between 1 and n) and changes nothing |
| NodeView.ReadLoopView | BobFS.NET/BobFsNode.cs:261-274 | the ReadAll loop appends the file's next bytes to those read so far |
| NodeView.ReadAllView | BobFS.NET/BobFsNode.cs:256-275 | ReadAll returns the file's bytes from offset to the end of the request or of the file, whichever is first, and changes nothing |
| NodeView.EntryReadView | BobFS.NET/BobFsNode.cs:573-583 | DirEntry.ReadFrom yields the entry at that offset of the file's content |
| NodeView.ScanStepView | BobFS.NET/BobFsNode.cs:117-120 | one round of a directory scan yields the entry at the runner, or stops at Size |
| NodeView.ContentsView | BobFS.NET/BobFsNode.cs:106-126 | Contents is NotDirectory for a non-directory, and otherwise the parse of the file's content |
| NodeView.ContentsListsEntries | BobFS.NET/BobFsNode.cs:106-126 | a directory whose content encodes the entries es lists exactly es |
| NodeView.FindNodeView | BobFS.NET/BobFsNode.cs:343-359 | FindNode answers the first listed entry with the name, None if there is none, NotDirectory for a non-directory |
| NodeView.SeekLoopView | BobFS.NET/BobFsNode.cs:367-389 | DeleteNode's scan stops where the byte-level scan does and changes nothing |
| NodeWrite.ClaimView | BobFS.NET/BobFsNode.cs:139-157 | FindFreeBlock changes the block bitmap alone and hands out a data block or -1 |
| NodeWrite.AssignView | BobFS.NET/BobFsNode.cs:159-177 | AssignBlock gives the part the block it returns, claims an indirect block first when needed, keeps every other block and the node's other fields, and changes only the bitmap on the device |
| NodeWrite.BlockForView | BobFS.NET/BobFsNode.cs:229-239 | the first half of Write raises Size and finds or assigns the part's block |
| NodeWrite.StoreView | BobFS.NET/BobFsNode.cs:241-252 | the second half of Write copies the bytes that fit into the block and changes nothing else |
| NodeWrite.WriteView | BobFS.NET/BobFsNode.cs:227-253 | one Write stores its bytes in the part's block, keeps the blocks the file had and raises Size to cover them |
| NodeWrite.WriteLoopView | BobFS.NET/BobFsNode.cs:281-290 | the WriteAll loop stores every byte at its offset in the file and keeps the bytes it did not cover |
| NodeWrite.OverwriteEnds | BobFS.NET/BobFsNode.cs:281-290 | writing inside a laid-out file always succeeds, keeps every block and keeps Size |
| NodeWrite.WriteAllView | BobFS.NET/BobFsNode.cs:277-293 | after WriteAll: Size = max(old Size, offset + n), the bytes written are the data, every other old byte stays, type and links unchanged |
| NodeWrite.WriteThenRead | BobFS.NET/BobFsNode.cs:256-293 | ReadAll of the span WriteAll just wrote returns the data |
| NodeWrite.WriteAllContent | BobFS.NET/BobFsNode.cs:277-293 | a write starting inside or at the end of the file leaves the old content with the data in place |
| NodeWrite.AppendView | BobFS.NET/BobFsNode.cs:277-293 | a write at Size appends exactly the data |
| NodeWrite.OverwriteView | BobFS.NET/BobFsNode.cs:277-293 | a write inside the file succeeds with count n, keeps Size, type, links and blocks, and splices the data into the content |
| NodeCommit.CommitNodeView | BobFS.NET/BobFsNode.cs:426-431 | a modified node's record decodes to the cached node; no byte outside the record changes |
| NodeCommit.CommitTableView | BobFS.NET/BobFsNode.cs:433-438 | a modified cached table is stored in the indirect block and decodes back to the table; no other byte changes |
| NodeCommit.CommitView | BobFS.NET/BobFsNode.cs:424-438 | Commit succeeds, keeps the cached node, stores the modified record and table, and changes no other byte |
| DirWrite.ShiftLoopView | BobFS.NET/BobFsNode.cs:375-380 | the compaction loop moves every byte after the gap down by the gap's length |
| DirWrite.CutView | BobFS.NET/BobFsNode.cs:375-382 | the compaction plus the Size update cut exactly the gap's bytes out of the content |
| DirWrite.DeleteNodeView | BobFS.NET/BobFsNode.cs:362-390 | with no entry for the node: NodeNotFound and nothing changes; otherwise the first such entry is removed from the listing, Size drops by 8 + name length, and type, links and blocks stay |
| DirWrite.AddEntryView | BobFS.NET/BobFsNode.cs:585-592 | DirEntry.WriteTo at Size appends the entry to the listing and raises Size by 8 + name length |
| DirLink.RelinkView | BobFS.NET/BobFsNode.cs:414-415 | the other node's link count moves by delta (ushort wrap) and its stored record decodes to the updated node |
| DirLink.RelinkTwice | BobFS.NET/BobFsNode.cs:392-398 | a link added and taken away again leaves the stored record as the handle held it |
| DirLink.LinkNodeView | BobFS.NET/BobFsNode.cs:400-416 | LinkNode appends the entry to the listing, and the linked node's stored record has one more link |
| DirLink.LinkSelfView | BobFS.NET/BobFsNode.cs:400-416 | LinkNode of a directory into itself appends the entry, and the one Commit stores both the grown Size and the extra link |
| DirLink.RenameNodeView | BobFS.NET/BobFsNode.cs:392-398 | RenameNode removes the node's first entry and appends it under the new name; the stored record keeps its link count |
| DirLink.InitNodeView | BobFS.NET/BobFsNode.cs:324-328 | a node NewNode sets up is stored with the given type, one link and Size 0 |
| DirLink.NewNodeView | BobFS.NET/BobFsNode.cs:295-331 | NewNode fails with NoFreeInode when the inode bitmap is full; otherwise it hands out the first free inode, appends its entry, and stores it with the type, one link and Size 0 |
| Node.ReadRecord | BobFS.NET/BobFsNode.cs:39-40 | the record read through one device Read decodes to the stored inode; the device content is unchanged |
| Node.BobFsNode.constructor | BobFS.NET/BobFsNode.cs:20-30 | a new handle has both caches invalid |
| Node.BobFsNode.GetNode | BobFS.NET/BobFsNode.cs:32-46 | the Node getter, as NodeOps.LoadNode |
| Node.BobFsNode.SetType | BobFS.NET/BobFsNode.cs:67-71 | the Type setter, as NodeOps.SetType |
| Node.BobFsNode.SetNumLinks | BobFS.NET/BobFsNode.cs:73-77 | the NumLinks setter, as NodeOps.SetNumLinks |
| Node.BobFsNode.SetSize | BobFS.NET/BobFsNode.cs:79-83 | the Size setter, as NodeOps.SetSize |
| Node.BobFsNode.SetDirect | BobFS.NET/BobFsNode.cs:85-89 | the DirectBlock setter, as NodeOps.SetDirect |
| Node.BobFsNode.SetIndirect | BobFS.NET/BobFsNode.cs:91-100 | the IndirectBlock setter, as NodeOps.SetIndirect |
| Node.BobFsNode.ReadBlock | BobFS.NET/BobFsNode.cs:182-191 | moves up to the end of the block into the buffer at bufOffset, the device content unchanged; an unaddressable block is BadBlock |
| Node.BobFsNode.WriteBlock | BobFS.NET/BobFsNode.cs:193-202 | the content at the block offset becomes the buffer bytes, up to the end of the block; an unaddressable block is BadBlock with nothing written |
| Node.BobFsNode.GetIndirect | BobFS.NET/BobFsNode.cs:48-65 | the Indirect getter, as NodeOps.LoadTable |
| Node.BobFsNode.FetchTable | BobFS.NET/BobFsNode.cs:58-59 | the table becomes the 256 words stored in the indirect block; device unchanged |
| Node.BobFsNode.PartBlockNum | BobFS.NET/BobFsNode.cs:128-137 | as NodeOps.PartBlockNum |
| Node.BobFsNode.ClaimBit | BobFS.NET/BobFsNode.cs:143-154 | the device and the answer are those of NodeOps.ClaimBit, so NodeOps.ClaimBitEffect holds of them |
| Node.BobFsNode.FindFreeBlock | BobFS.NET/BobFsNode.cs:139-157 | the handle's new state and the answer are those of NodeOps.FindFreeBlock, so NodeWrite.FirstFitClaim holds of them |
| Node.BobFsNode.AssignBlock | BobFS.NET/BobFsNode.cs:159-177 | as NodeOps.AssignBlock |
| Node.BobFsNode.Read | BobFS.NET/BobFsNode.cs:204-225 | as NodeOps.Read, with the bytes it moves spliced into the buffer at bufOffset |
| Node.BobFsNode.Write | BobFS.NET/BobFsNode.cs:227-253 | as NodeOps.Write on the buffer's n bytes at bufOffset |
| Node.BobFsNode.ReadAll | BobFS.NET/BobFsNode.cs:256-275 | as NodeOps.ReadAll, with the bytes read spliced into the buffer at bufOffset |
| Node.BobFsNode.WriteAll | BobFS.NET/BobFsNode.cs:277-293 | as NodeOps.WriteAll on the buffer's n bytes at bufOffset |
| Node.BobFsNode.Commit | BobFS.NET/BobFsNode.cs:424-438 | as NodeOps.Commit |
| Node.BobFsNode.Invalidate | BobFS.NET/BobFsNode.cs:418-422 | as NodeOps.Invalidate |
| Node.BobFsNode.CheckDir | BobFS.NET/BobFsNode.cs:104 | as DirOps.CheckDir |
| Node.BobFsNode.ReadEntry | BobFS.NET/BobFsNode.cs:573-583 | DirEntry.ReadFrom, as DirOps.EntryRead |
| Node.BobFsNode.Contents | BobFS.NET/BobFsNode.cs:106-126 | as DirOps.Contents |
| Node.BobFsNode.FindNode | BobFS.NET/BobFsNode.cs:343-359 | as DirOps.FindNode |
| Node.BobFsNode.Shift | BobFS.NET/BobFsNode.cs:375-380 | the compaction loop, as DirOps.ShiftLoop |
| Node.BobFsNode.DeleteNode | BobFS.NET/BobFsNode.cs:362-390 | as DirOps.DeleteNode |
| Node.BobFsNode.AddEntry | BobFS.NET/BobFsNode.cs:585-592 | DirEntry.WriteTo at Size, as DirOps.AddEntry |
| Node.BobFsNode.LinkNode | BobFS.NET/BobFsNode.cs:400-416 | as DirOps.LinkNode, on this directory's caches and the other node's |
| Node.BobFsNode.LinkSelf | BobFS.NET/BobFsNode.cs:400-416 | LinkNode with this directory as the node, as DirOps.LinkSelf |
| Node.BobFsNode.RenameNode | BobFS.NET/BobFsNode.cs:392-398 | as DirOps.RenameNode |
| Node.BobFsNode.Init | BobFS.NET/BobFsNode.cs:324-328 | the new node's setters and Commit, as DirOps.InitNode |
| Node.BobFsNode.NewNode | BobFS.NET/BobFsNode.cs:295-331 | as DirOps.NewNode; the node returned is a fresh handle on the inode handed out |
| Fs.RootOnlyBitmap | BobFS.NET/BobFs.cs:41-44 | the inode bitmap Format means to write: only bit 0, the root, is set |
| Fs.Mounted | BobFS.NET/BobFs.cs:73-84 | the superblock of block 0 when its magic is right, BadMagic otherwise |
| Fs.MountAccepts | BobFS.NET/BobFs.cs:80-84 | Mount accepts exactly the devices whose first eight bytes are "BOBFS439" |
| Fs.InitNodeEffect | BobFS.NET/BobFs.cs:48-52 | the root set-up stores a record with the new type, one link, size 0 and the stale block fields |
| Fs.FormatLayout | BobFS.NET/BobFs.cs:28-53 | Format leaves the superblock in block 0, an all-clear block bitmap, an inode bitmap with only the root, and an empty root directory with one link; later bytes are untouched |
| Fs.FormatThenMount | BobFS.NET/BobFs.cs:28-84 | a formatted device mounts, with the root at inode 0 |
| Fs.MountAsWrittenReadsSecondSector | BobFS.NET/BobFs.cs:24 | as written, the constructor decodes the superblock from sector 1 (bytes 512 on), so Mount accepts exactly when those bytes carry the magic |
| Fs.FormatAsWrittenDuplicates | BobFS.NET/BobFs.cs:34-45 | as written, the header write also puts the magic at bytes 512..519, and the inode bitmap marks inode 4096 in use besides the root |
| Fs.BobFs.constructor | BobFS.NET/BobFs.cs:18-26 | the superblock is decoded from block 0 and the device content is unchanged |
| Fs.BobFs.Format | BobFS.NET/BobFs.cs:28-53 | the device becomes Formatted(old device) and the superblock field the one written |
| Fs.BobFs.WriteHeader | BobFS.NET/BobFs.cs:30-35 | block 0 becomes the formatted superblock |
| Fs.BobFs.WriteBitmaps | BobFS.NET/BobFs.cs:37-45 | blocks 1 and 2 become the empty block bitmap and the root-only inode bitmap |
| Fs.BobFs.CheckHeader | BobFS.NET/BobFs.cs:80-84 | succeeds exactly when the magic is "BOBFS439", BadMagic otherwise |
| Fs.BobFs.Root | BobFS.NET/BobFs.cs:58 | a fresh handle on the superblock's root inode, with nothing cached |
| Fs.Mkfs | BobFS.NET/BobFs.cs:63-68 | a handle on the device, formatted whatever its header |
| Fs.Mount | BobFS.NET/BobFs.cs:73-78 | a handle when the header is right, BadMagic otherwise; the device content is unchanged |

## Left out

- Node.ReadBytes: the node and file-system layers move bytes through the corrected `ReadSpan`. The C# calls `Source.ReadAll` as written at BobFsNode.cs:143, 190 and 304, and BobFs.cs:24. As written, an aligned block read leaves only the second sector, at the front of the buffer (see "## Findings").
- Node.WriteBytes: likewise through the corrected `WriteSpan`. The C# calls `Source.WriteAll` as written at BobFsNode.cs:154, 201 and 313, and BobFs.cs:34, 39 and 45. As written, every chunk after the first repeats the buffer's front.
- Node.BobFsNode.ReadBlock: modelled with the corrected transfer. As written, unaligned reads repeat bytes and block reads lose their first sector.
- Node.BobFsNode.WriteBlock: modelled with the corrected transfer. As written, a 5-byte file write at offset 510 stores "hehel" for "hello" (BlockSource.UnalignedWriteAsWrittenRepeats).
- Node.BobFsNode.FindFreeBlock: models the scan of the whole block bitmap. As written, the scan sees bytes 512..1023 followed by stale buffer bytes, then writes the first half back over both halves.
- Node.BobFsNode.NewNode: the same for the inode-bitmap scan.
- Node.BobFsNode.GetIndirect: as written, the table is decoded from the indirect block's second sector followed by stale buffer bytes.
- Node.BobFsNode.Commit: as written, the table write (BobFsNode.cs:437) stores entries 0..127 in both halves of the indirect block.
- Fs.BobFs.constructor: decodes the superblock from block 0. As written, it comes from bytes 512..523 (Fs.MountAsWrittenReadsSecondSector).
- Fs.BobFs.Format: writes each block once. As written, the magic is also written at 512 and inode 4096 is marked used (Fs.FormatAsWrittenDuplicates).
- Fs.BobFs.WriteHeader: the same duplication of the header, as in Format.
- Fs.BobFs.WriteBitmaps: the same duplication of the bitmaps, as in Format.
- Fs.FormatThenMount: it holds in the program too, but only because the two as-written bugs cancel.
- Node.BobFsNode.Shift: compacts through an array of its own. C# DeleteNode compacts through `_tmpBuffer` (BobFsNode.cs:376-378), which the Indirect getter also fills (BobFsNode.cs:58). When a shifted read crosses from part 0 into part 1 with the table not cached, the C# writes table bytes into the directory. The model does not capture this aliasing.
- Node.BobFsNode.DeleteNode: the same `_tmpBuffer` aliasing as Shift. Each node method also asks that its caller's buffer is not the node's scratch array, for the same reason.
- Node.BobFsNode.ReadBlock: a block number that is negative as an int, or whose bytes lie past 2^31, is refused with BadBlock. In C#, FindFreeBlock's -1 becomes block 0xFFFFFFFF, i.e. device offset -1024. The C# dictionary then accepts sectors -2 and -1, and nothing fails until Save. The model's device content covers offsets 0 .. 2^31 - 1 only.
- Node.BobFsNode.WriteBlock: the same BadBlock in place of writes to negative sectors.
- Node.BobFsNode.FetchTable: the same BadBlock in place of reads from negative sectors, which read as zeros.
- Node.BobFsNode.Shift: an offset past the int range is an Overflow error. C# int arithmetic wraps instead.
- Node.BobFsNode.AddEntry: an end past the int range is an Overflow error, in place of C#'s `(int) Size` wrap-around.
- Fs.BobFs.Root: a root inode whose record lies past the int range is refused with Overflow. C# computes a wrapped offset instead.
- Node.BobFsNode.RenameNode: requires `file` to be a handle other than this directory, so renaming a directory into itself is not modelled. LinkNode into itself is modelled (Node.BobFsNode.LinkSelf).
- Node.BobFsNode.LinkNode: requires `file` to be a different handle object. Two handles on the same inode, each with its own caches, are allowed, as in C#.
- Node.BobFsNode.ReadAll: requires 0 <= offset and offset + n within the int range. C#'s truncating `/` and `%` on negative offsets (BobFsNode.cs:206-207) and the int overflow of `offset + n` are not modelled.
- Node.BobFsNode.WriteAll: the same bounds as ReadAll.
- Node.BobFsNode.Read: the same bounds as ReadAll.
- Node.BobFsNode.Write: the same bounds as ReadAll.
- Layout.EncodeEntry: names are byte strings. C# strings are UTF-16, so `Name.Length` counts code units, and characters above 0x7F become '?' under Encoding.ASCII. Only the byte-level '?' mapping is modelled (Layout.Ascii).
- Node.BobFsNode.ReadEntry: an entry whose head or name would reach past offset 2^31 - 1 gives BadEntry. C# DirEntry.ReadFrom (BobFsNode.cs:573-583) makes no such check: `offset + 8` wraps as an int, and a name length of 2^31 or more throws from `new byte[nameLength]` or from the `(int)` casts. The model replaces the wrapped offsets and the thrown exceptions with BadEntry.
- Node.BobFsNode.ReadName: the same BadEntry for a name that reaches past offset 2^31 - 1.
- DirOps.EntryRead: the same BadEntry as Node.BobFsNode.ReadEntry.
- DirOps.EntryName: the same BadEntry as Node.BobFsNode.ReadName.
- Layout.EntryAt: the same BadEntry, on the content bytes.
- BlockSource.Read: requires offset >= 0. This relies on the node layer refusing negative blocks with BadBlock (see Node.BobFsNode.ReadBlock). In C# the only negative device offset is block 0xFFFFFFFF, which is FindFreeBlock's -1, i.e. offset -1024. There C#'s truncating `/` and `%` pick sectors -2 and -1.
- BlockSource.ReadAll: the same offset >= 0 requirement as BlockSource.Read.
- BlockSource.Write: the same offset >= 0 requirement as BlockSource.Read.
- BlockSource.WriteAll: the same offset >= 0 requirement as BlockSource.Read.
- NodeWrite.WriteAllView: assumes the file is laid out after the write, i.e. the block bitmap never hands out a block the file or another file already uses. Bitmap consistency across files is not modelled, so the write lemmas take it as a hypothesis.
- NodeWrite.WriteThenRead: the same laid-out hypothesis.
- NodeWrite.WriteAllContent: the same laid-out hypothesis.
- NodeWrite.AppendView: the same laid-out hypothesis.
- DirWrite.AddEntryView: the same laid-out hypothesis.
- DirLink.LinkNodeView: the same laid-out hypothesis. It also assumes the linked node's inode number lies in the inode bitmap and its indirect block is 0 or a data block.
- DirLink.RenameNodeView: the same hypotheses as LinkNodeView.
- DirLink.NewNodeView: the content claim assumes the directory stays laid out. The record claim assumes the new inode's stale indirect block is 0 or a data block.
- NodeCommit.CommitView: assumes the node lies in the inode bitmap and its indirect block is 0 or a data block. Otherwise the table write can land on the inode table.
- NewFile and NewDirectory (BobFsNode.cs:333-341) are NewNode with the File or Directory type code. They are not separate members. The ENodeType values are not part of the source shown; the model uses Directory = 1 and File = 2.
- IsFile (BobFsNode.cs:102) is the type test of CheckDir with the File code. It is not a separate member.
- Exceptions are modelled as `Err` results of the operation that throws. A caller that does not catch is not modelled.
- RawImage.ImageSource.Save: an image size `(largest + 1) * 512` past 2^31 - 1 is a failure. C# computes it in `int` arithmetic (RawImageSource.cs:61), so sizes in [2^31, 2^32) wrap negative and `new byte[...]` throws, which the model matches. Sizes of 2^32 and more, which only keys of 2^23 and up stored directly through ReadSector or WriteSector reach, wrap to small non-negative sizes; C# then copies through the equally wrapped `key * 512` positions and may not throw. The model returns None for these too. Likewise a negative key below -2^22, whose `key * 512` wraps and may land inside the image, is always a failure in the model.
- File I/O is not modelled. The image file's bytes are parameters of `PopulateSectors`, and `Save` returns the image instead of calling File.WriteAllBytes. The file name fields are not modelled.
- The `caching` flag of BobFs is not modelled: it is stored but never read.

## Findings

| source | as written | input that shows it | evidently intended | confidence | as-written member | corrected member |
|---|---|---|---|---|---|---|
| BobFS.NET/BlockSource.cs:71 | `ReadAll` passes the same `bufOffset` to every `Read` | an aligned 1024-byte ReadAll: sector 1 overwrites sector 0 at bufOffset and the buffer's second half is never filled | chunk k lands at `bufOffset + total`, as BobFsNode.ReadAll does | high, not executed | BlockSource.ReadAllAsWrittenLosesFirstSector | BlockSource.ReadSpan |
| BobFS.NET/BlockSource.cs:89 | `WriteAll` passes the same `bufOffset` to every `Write` | an aligned 1024-byte WriteAll stores the buffer's first 512 bytes twice; a 5-byte write two bytes before a sector boundary stores "hehel" for "hello" | chunk k is taken from `bufOffset + total` | high, not executed | BlockSource.WriteAllAsWrittenDuplicatesFirstHalf | BlockSource.WriteSpan |
| BobFS.NET/BobFs.cs:24 | the superblock is read through the as-written ReadAll | a device with "BOBFS439" at bytes 0..7 and zeros at 512..519 is refused by Mount | the superblock is decoded from bytes 0..11 | high, not executed | Fs.MountAsWrittenReadsSecondSector | Fs.MountAccepts |
| BobFS.NET/BobFs.cs:45 | the inode bitmap is written through the as-written WriteAll | Format on any device: bit 4096 of the inode bitmap ends up set, and bytes 512..519 hold the magic | only the root's bit is set, and the rest of block 0 is zero | high, not executed | Fs.FormatAsWrittenDuplicates | Fs.FormatLayout |
