/** BobFs: the file-system handle.  It holds the device and the decoded
    superblock; Format lays out an empty file system, Mount checks the header of
    an existing one, and Root hands out the root directory's node. */
module Fs {
  import opened Bytes
  import opened Layout
  import opened Bitmap
  import opened RawImage
  import BlockSource
  import Ops = NodeOps
  import Dir = DirOps
  import Node

  /** The inode bitmap Format writes: only inode 0, the root, is in use. */
  function RootOnlyBitmap(): (r: seq<byte>)
    ensures |r| == BlockSize
    ensures forall i :: 0 <= i < BitmapBits ==> (Bit(r, i) <==> i == 0)
  {
    forall i | 0 <= i < BitmapBits ensures !Bit(Zeros(BlockSize), i) {
      ZeroHasNoBits(i % 8);
    }
    SetBit(Zeros(BlockSize), 0)
  }

  /** Format on values: block 0 becomes the superblock, block 1 an empty block
      bitmap, block 2 the inode bitmap with only the root's bit, and the root inode
      is set up as a directory by a fresh node's setters and Commit. */
  function Formatted(disk: seq<byte>): (o: Ops.Out<()>)
    requires |disk| == Ops.DeviceSize
    ensures Ops.Shaped(o.st)
  {
    Dir.InitNode(WithBitmaps(WithHeader(disk)), 0, DirectoryType)
  }

  /** The first step of Format: block 0 holds the superblock. */
  function WithHeader(disk: seq<byte>): (d: seq<byte>)
    requires |disk| == Ops.DeviceSize
    ensures |d| == Ops.DeviceSize
  {
    Splice(disk, 0, FormatSuperblock())
  }

  /** The second step of Format: the two bitmaps written. */
  function WithBitmaps(disk: seq<byte>): (d: seq<byte>)
    requires |disk| == Ops.DeviceSize
    ensures |d| == Ops.DeviceSize
  {
    Splice(Splice(disk, BlockSize * BlockBitmapBlock, Zeros(BlockSize)), BlockSize * InodeBitmapBlock, RootOnlyBitmap())
  }

  /** The constructor's superblock load followed by CheckHeader: the superblock of
      a device whose block 0 carries the magic, and BadMagic otherwise. */
  function Mounted(disk: seq<byte>): (r: Result<Superblock>)
    requires |disk| >= BlockSize
    ensures r.Ok? ==> r.value == ReadSuperblock(disk[..BlockSize], 0)
    ensures r.Err? ==> r.error == BadMagic
  {
    var sb := ReadSuperblock(disk[..BlockSize], 0);
    if MagicOk(sb) then Ok(sb) else Err(BadMagic)
  }

  /** Mount accepts exactly the devices whose first eight bytes are "BOBFS439". */
  lemma MountAccepts(disk: seq<byte>)
    requires |disk| >= BlockSize
    ensures Mounted(disk).Ok? <==> disk[..8] == HeaderMagic
  {
    MagicExact(disk[..BlockSize]);
    assert disk[..BlockSize][..8] == disk[..8];
  }

  /** What Commit stores for a node set up by Type, NumLinks and Size setters on a
      fresh node: its record with the new type, one link, size 0, and the blocks
      the stored record already named.  Commit fails only when that stale indirect
      block lies beyond the device. */
  lemma {:induction false} InitNodeEffect(disk: seq<byte>, finum: int, ntype: uint16)
    requires |disk| == Ops.DeviceSize && Ops.InumOk(finum)
    ensures var n := DecodeInode(disk, Ops.NodeOffset(finum));
      var o := Dir.InitNode(disk, finum, ntype);
      o.st.disk == Splice(disk, Ops.NodeOffset(finum), EncodeInode(Inode(ntype, 1, 0, n.directBlock, n.indirectBlock))) &&
      (o.res.Ok? <==> n.indirectBlock == 0 || Ops.BlockOk(n.indirectBlock as int))
  {
    var n := DecodeInode(disk, Ops.NodeOffset(finum));
    var s := Ops.State(disk, Dir.FreshCache());
    var s3 := Ops.SetSize(Ops.SetNumLinks(Ops.SetType(s, finum, ntype), finum, 1), finum, 0);
    assert Ops.CurNode(s3, finum) == Inode(ntype, 1, 0, n.directBlock, n.indirectBlock);
    assert s3.cache.nodeValid && s3.cache.nodeModified && !s3.cache.indirectModified && !s3.cache.indirectValid;
    var t := Ops.CommitNode(s3, finum);
    assert t.disk == Splice(disk, Ops.NodeOffset(finum), EncodeInode(Inode(ntype, 1, 0, n.directBlock, n.indirectBlock)));
    var v := Ops.LoadTable(t, finum);
    assert v.st.disk == t.disk && !v.st.cache.indirectModified;
  }

  /** The layout Format leaves: the superblock in block 0, an all-clear block
      bitmap in block 1, an inode bitmap holding only the root in block 2, and a
      root inode that is an empty directory with one link; everything past the
      root's record is as it was. */
  lemma FormatLayout(disk: seq<byte>)
    requires |disk| == Ops.DeviceSize
    ensures var d := Formatted(disk).st.disk;
      d[..BlockSize] == FormatSuperblock() &&
      d[BlockSize * BlockBitmapBlock..BlockSize * (BlockBitmapBlock + 1)] == Zeros(BlockSize) &&
      d[BlockSize * InodeBitmapBlock..BlockSize * (InodeBitmapBlock + 1)] == RootOnlyBitmap() &&
      DecodeInode(d, Ops.NodeOffset(0)).ntype == DirectoryType &&
      DecodeInode(d, Ops.NodeOffset(0)).numLinks == 1 &&
      DecodeInode(d, Ops.NodeOffset(0)).size == 0 &&
      d[Ops.NodeOffset(0) + NodeSize..] == disk[Ops.NodeOffset(0) + NodeSize..]
  {
    var d3 := WithBitmaps(WithHeader(disk));
    var at := Ops.NodeOffset(0);
    InitNodeEffect(d3, 0, DirectoryType);
    var n := DecodeInode(d3, at);
    var m := Inode(DirectoryType, 1, 0, n.directBlock, n.indirectBlock);
    var d := Formatted(disk).st.disk;
    assert d == Splice(d3, at, EncodeInode(m));
    InodeRoundTrip(m, d, at);
    SpliceAt(d3, at, EncodeInode(m));
    HeadLayout(disk);
    assert d[..BlockSize] == d3[..BlockSize];
    assert d[BlockSize * BlockBitmapBlock..BlockSize * (BlockBitmapBlock + 1)]
      == d3[BlockSize * BlockBitmapBlock..BlockSize * (BlockBitmapBlock + 1)];
    assert d[BlockSize * InodeBitmapBlock..BlockSize * (InodeBitmapBlock + 1)]
      == d3[BlockSize * InodeBitmapBlock..BlockSize * (InodeBitmapBlock + 1)];
  }

  /** The first two steps of Format: the superblock and the two bitmaps in blocks
      0 to 2, and every later byte as it was. */
  lemma HeadLayout(disk: seq<byte>)
    requires |disk| == Ops.DeviceSize
    ensures var d3 := WithBitmaps(WithHeader(disk));
      d3[..BlockSize] == FormatSuperblock() &&
      d3[BlockSize * BlockBitmapBlock..BlockSize * (BlockBitmapBlock + 1)] == Zeros(BlockSize) &&
      d3[BlockSize * InodeBitmapBlock..BlockSize * (InodeBitmapBlock + 1)] == RootOnlyBitmap() &&
      forall i :: BlockSize * (InodeBitmapBlock + 1) <= i < |disk| ==> d3[i] == disk[i]
  {
    var d1 := WithHeader(disk);
    var d2 := Splice(d1, BlockSize * BlockBitmapBlock, Zeros(BlockSize));
    var d3 := WithBitmaps(d1);
    SpliceAt(disk, 0, FormatSuperblock());
    SpliceAt(d1, BlockSize * BlockBitmapBlock, Zeros(BlockSize));
    SpliceAt(d2, BlockSize * InodeBitmapBlock, RootOnlyBitmap());
    assert d3[..BlockSize] == FormatSuperblock() by {
      forall i | 0 <= i < BlockSize ensures d3[i] == FormatSuperblock()[i] {
        assert d3[i] == d2[i] == d1[i];
      }
    }
    assert d3[BlockSize * BlockBitmapBlock..BlockSize * (BlockBitmapBlock + 1)] == Zeros(BlockSize) by {
      forall i | BlockSize <= i < 2 * BlockSize ensures d3[i] == 0 {
        assert d3[i] == d2[i];
      }
    }
  }

  /** A formatted device mounts, with the root at inode 0. */
  lemma FormatThenMount(disk: seq<byte>)
    requires |disk| == Ops.DeviceSize
    ensures Mounted(Formatted(disk).st.disk) == Ok(Superblock(HeaderMagic, 0))
  {
    FormatLayout(disk);
    FormatSuperblockReads();
  }

  /** The constructor's superblock load through ReadAll as BlockSource.cs has it:
      sectors 0 and then 1 land at the front of the fresh `_tmpBuffer`, and the
      superblock is decoded from there. */
  ghost function MountedAsWritten(sectors: map<int, Sector>): Result<Superblock>
  {
    BlockSource.TwoWholeChunks(0, BlockSize);
    var buf := BlockSource.ReadAllAsWritten(sectors, 0, Zeros(BlockSize), 0, BlockSize);
    var sb := ReadSuperblock(buf, 0);
    if MagicOk(sb) then Ok(sb) else Err(BadMagic)
  }

  /** As written, Mount looks for the magic in the first eight bytes of sector 1,
      device bytes 512 to 519, and takes the root inode number from the four bytes
      after them. */
  lemma MountAsWrittenReadsSecondSector(sectors: map<int, Sector>)
    ensures MountedAsWritten(sectors).Ok? <==> SectorAt(sectors, 1)[..8] == HeaderMagic
    ensures MountedAsWritten(sectors).Ok? ==>
      MountedAsWritten(sectors).value == ReadSuperblock(SectorAt(sectors, 1), 0)
  {
    BlockSource.ReadAllAsWrittenLosesFirstSector(sectors, 0, Zeros(BlockSize), 0);
    var sec := SectorAt(sectors, 1);
    SuperblockFront(Zeros(BlockSize), sec);
    MagicExact(sec);
  }

  /** A superblock decoded from a buffer whose front is `sec` is `sec`'s superblock. */
  lemma SuperblockFront(dst: seq<byte>, sec: seq<byte>)
    requires 12 <= |sec| <= |dst|
    ensures ReadSuperblock(Splice(dst, 0, sec), 0) == ReadSuperblock(sec, 0)
  {
    var buf := Splice(dst, 0, sec);
    SpliceAt(dst, 0, sec);
    assert buf[0..8] == sec[0..8];
    assert buf[8..12] == sec[8..12];
  }

  /** The device after Format's header and bitmap writes through WriteAll as
      BlockSource.cs has it. */
  ghost function FormattedAsWritten(sectors: map<int, Sector>): map<int, Sector>
  {
    var s1 := BlockSource.WriteAllAsWritten(sectors, 0, FormatSuperblock(), 0, BlockSize);
    var s2 := BlockSource.WriteAllAsWritten(s1, BlockSize * BlockBitmapBlock, Zeros(BlockSize), 0, BlockSize);
    BlockSource.WriteAllAsWritten(s2, BlockSize * InodeBitmapBlock, RootOnlyBitmap(), 0, BlockSize)
  }

  /** As written, the header write puts the magic in bytes 512 to 519 as well, and the
      inode bitmap written last marks inode 4096 in use besides the root. */
  lemma FormatAsWrittenDuplicates(sectors: map<int, Sector>)
    ensures var s1 := BlockSource.WriteAllAsWritten(sectors, 0, FormatSuperblock(), 0, BlockSize);
      BlockSource.DiskBytes(s1, SectorSize, 8) == HeaderMagic
    ensures var bm := BlockSource.DiskBytes(FormattedAsWritten(sectors), BlockSize * InodeBitmapBlock, BlockSize);
      Bit(bm, 0) && Bit(bm, 8 * SectorSize)
  {
    var h := FormatSuperblock();
    BlockSource.WriteAllAsWrittenDuplicatesFirstHalf(sectors, 0, h, 0);
    var s1 := BlockSource.WriteAllAsWritten(sectors, 0, h, 0, BlockSize);
    var d1 := BlockSource.DiskBytes(s1, 0, BlockSize);
    forall i | 0 <= i < 8 ensures BlockSource.DiskBytes(s1, SectorSize, 8)[i] == HeaderMagic[i] {
      assert BlockSource.DiskBytes(s1, SectorSize, 8)[i] == d1[SectorSize + i];
      assert h[..SectorSize][i] == h[i];
    }
    var s2 := BlockSource.WriteAllAsWritten(s1, BlockSize * BlockBitmapBlock, Zeros(BlockSize), 0, BlockSize);
    var r := RootOnlyBitmap();
    BlockSource.WriteAllAsWrittenDuplicatesFirstHalf(s2, BlockSize * InodeBitmapBlock, r, 0);
    var bm := BlockSource.DiskBytes(FormattedAsWritten(sectors), BlockSize * InodeBitmapBlock, BlockSize);
    assert bm == r[..SectorSize] + r[..SectorSize];
    assert bm[0] == r[0] && bm[SectorSize] == r[0];
    assert Bit(r, 0);
  }

  class BobFs {
    /** `Source`. */
    const source: ImageSource
    /** `_tmpBuffer`: one block of scratch space. */
    const scratch: array<byte>
    /** `_superBlock`. */
    var superblock: Superblock

    ghost predicate Valid()
      reads this
    {
      scratch.Length == BlockSize
    }

    /** The device content. */
    ghost function Disk(): (d: seq<byte>)
      reads source
      ensures |d| == Ops.DeviceSize
    {
      BlockSource.ContentOf(source.sectors)
    }

    /** The constructor: block 0 read into the scratch buffer and decoded as the
        superblock; the device content is left as it was. */
    constructor (source: ImageSource)
      modifies source
      ensures Valid() && this.source == source && fresh(scratch)
      ensures Disk() == old(BlockSource.ContentOf(source.sectors))
      ensures superblock == ReadSuperblock(Disk()[..BlockSize], 0)
    {
      this.source := source;
      scratch := new byte[BlockSize](_ => 0);
      superblock := Superblock([], 0);
      new;
      Node.ReadBytes(source, 0, scratch, 0, BlockSize);
      assert scratch[..] == Disk()[..BlockSize];
      superblock := ReadSuperblock(scratch[..], 0);
    }

    /** Format: the superblock, both bitmaps and the root inode written as the
        function Formatted describes; the superblock field becomes the one written. */
    method Format() returns (r: Result<()>)
      requires Valid()
      modifies this, scratch, source
      ensures Valid() && superblock == Superblock(HeaderMagic, 0)
      ensures Disk() == Formatted(old(Disk())).st.disk && r == Formatted(old(Disk())).res
    {
      WriteHeader();
      WriteBitmaps();
      ghost var d := Disk();
      assert d == WithBitmaps(WithHeader(old(Disk())));
      var root := new Node.BobFsNode(source, 0);
      r := root.Init(DirectoryType);
      assert Ops.Out(root.State(), r) == Dir.InitNode(d, 0, DirectoryType);
      assert root.State().disk == Disk();
    }

    /** The superblock half of Format: `_tmpBuffer` cleared, the magic and root inode
        number 0 put in it, written to block 0 and decoded into the superblock field. */
    method WriteHeader()
      requires Valid()
      modifies this, scratch, source
      ensures Valid() && superblock == Superblock(HeaderMagic, 0)
      ensures Disk() == WithHeader(old(Disk()))
    {
      forall i | 0 <= i < BlockSize {
        scratch[i] := 0;
      }
      assert scratch[..] == Zeros(BlockSize);
      CopyTo(HeaderMagic, scratch, 0);
      CopyTo(LE32(0), scratch, 8);
      FormatSuperblockBuilt();
      assert scratch[..] == FormatSuperblock();
      Node.WriteBytes(source, 0, scratch, 0, BlockSize);
      superblock := ReadSuperblock(scratch[..], 0);
      FormatSuperblockReads();
    }

    /** The bitmap half of Format: a zeroed buffer written as the block bitmap, then
        with bit 0 set written as the inode bitmap. */
    method WriteBitmaps()
      modifies source
      ensures Disk() == WithBitmaps(old(Disk()))
    {
      var bitmap := new byte[BlockSize](_ => 0);
      assert bitmap[..] == Zeros(BlockSize);
      Node.WriteBytes(source, BlockSize * BlockBitmapBlock, bitmap, 0, BlockSize);
      bitmap[0] := SetByteBit(bitmap[0], 0);
      assert bitmap[..] == RootOnlyBitmap();
      Node.WriteBytes(source, BlockSize * InodeBitmapBlock, bitmap, 0, BlockSize);
    }

    /** CheckHeader: BadMagic unless the superblock's magic is "BOBFS439". */
    function CheckHeader(): (r: Result<()>)
      reads this
      ensures r.Ok? <==> MagicOk(superblock)
      ensures r.Err? ==> r.error == BadMagic
    {
      if MagicOk(superblock) then Ok(()) else Err(BadMagic)
    }

    /** Root: a fresh node for the superblock's root inode number, which must be one
        whose record lies within the int range. */
    method Root() returns (r: Result<Node.BobFsNode>)
      requires Valid()
      ensures r.Ok? <==> Ops.InumOk(superblock.rootInum as int)
      ensures r.Err? ==> r.error == Overflow
      ensures r.Ok? ==> fresh(r.value) && r.value.Valid() && r.value.source == source &&
                        r.value.inum == superblock.rootInum && r.value.Cache() == Dir.FreshCache()
    {
      if !Ops.InumOk(superblock.rootInum as int) {
        return Err(Overflow);
      }
      var root := new Node.BobFsNode(source, superblock.rootInum);
      r := Ok(root);
    }
  }

  /** Mkfs: a handle on the device, which is then formatted whatever its header. */
  method Mkfs(device: ImageSource) returns (fs: BobFs, r: Result<()>)
    modifies device
    ensures fresh(fs) && fs.Valid() && fs.source == device
    ensures fs.superblock == Superblock(HeaderMagic, 0)
    ensures var o := Formatted(old(BlockSource.ContentOf(device.sectors)));
      fs.Disk() == o.st.disk && r == o.res
  {
    fs := new BobFs(device);
    r := fs.Format();
  }

  /** Mount: a handle on the device, refused with BadMagic when the header is wrong;
      the device is not written. */
  method Mount(device: ImageSource) returns (r: Result<BobFs>)
    modifies device
    ensures BlockSource.ContentOf(device.sectors) == old(BlockSource.ContentOf(device.sectors))
    ensures var m := Mounted(old(BlockSource.ContentOf(device.sectors)));
      (r.Ok? <==> m.Ok?) && (r.Err? ==> r.error == m.error) &&
      (r.Ok? ==> fresh(r.value) && r.value.Valid() && r.value.source == device && r.value.superblock == m.value)
  {
    var fs := new BobFs(device);
    var h := fs.CheckHeader();
    if h.Err? {
      return Err(h.error);
    }
    r := Ok(fs);
  }
}
