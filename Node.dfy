/** BobFsNode: one file or directory of a mounted BobFS image, with its cached
    inode and indirect table.  Every method is proved to leave exactly the state,
    and yield exactly the outcome, that the function of the same name in NodeOps
    describes. */
module Node {
  import opened Bytes
  import opened Layout
  import opened Bitmap
  import opened RawImage
  import BlockSource
  import Ops = NodeOps
  import Dir = DirOps

  /** A read's count matches the bytes the specification says it moves. */
  predicate Agrees(r: Result<int>, o: Result<seq<byte>>)
  {
    match o
    case Ok(bytes) => r == Ok(|bytes|)
    case Err(e) => r == Err(e)
  }

  /** The 16-byte record of any addressable inode lies within one sector, so one
      Read moves all of it. */
  lemma NodeChunk(inum: int)
    requires Ops.InumOk(inum)
    ensures Ops.NodeOffset(inum) >= 0 && Ops.NodeOffset(inum) + NodeSize <= Ops.DeviceSize
    ensures Ops.NodeOffset(inum) % SectorSize + NodeSize <= SectorSize
    ensures BlockSource.ChunkCount(Ops.NodeOffset(inum), NodeSize) == NodeSize
  {
    var q, r := inum / 32, inum % 32;
    assert Ops.NodeOffset(inum) == SectorSize * (6 + q) + 16 * r;
    assert Ops.NodeOffset(inum) % SectorSize == 16 * r;
  }

  /** The device's ReadAll, with its buffer position corrected, as the node layer
      sees it: `count` bytes of content at `at` land in the buffer. */
  method ReadBytes(src: ImageSource, at: int, buffer: array<byte>, bufOffset: int, count: nat)
    requires 0 <= at && at + count <= Ops.DeviceSize
    requires 0 <= bufOffset && bufOffset + count <= buffer.Length
    modifies src, buffer
    ensures BlockSource.ContentOf(src.sectors) == old(BlockSource.ContentOf(src.sectors))
    ensures buffer[..] == Splice(old(buffer[..]), bufOffset, old(BlockSource.ContentOf(src.sectors))[at..at + count])
  {
    var _ := BlockSource.ReadSpan(src, at, buffer, bufOffset, count);
  }

  /** The device's WriteAll, with its buffer position corrected, as the node layer
      sees it: the content at `at` becomes the `count` bytes of the buffer. */
  method WriteBytes(src: ImageSource, at: int, buffer: array<byte>, bufOffset: int, count: nat)
    requires 0 <= at && at + count <= Ops.DeviceSize
    requires 0 <= bufOffset && bufOffset + count <= buffer.Length
    modifies src
    ensures BlockSource.ContentOf(src.sectors)
      == Splice(old(BlockSource.ContentOf(src.sectors)), at, buffer[bufOffset..bufOffset + count])
  {
    var _ := BlockSource.WriteSpan(src, at, buffer, bufOffset, count);
  }

  /** One device Read of an inode record: the device content stays as it was and the
      record's bytes arrive at the front of `buffer`. */
  method ReadRecord(src: ImageSource, inum: int, buffer: array<byte>)
    requires Ops.InumOk(inum) && NodeSize <= buffer.Length
    modifies src, buffer
    ensures BlockSource.ContentOf(src.sectors) == old(BlockSource.ContentOf(src.sectors))
    ensures DecodeInode(buffer[..], 0) == DecodeInode(old(BlockSource.ContentOf(src.sectors)), Ops.NodeOffset(inum))
  {
    ghost var before := src.sectors;
    var at := BlockSize * InodeTableBlock + NodeSize * inum;
    NodeChunk(inum);
    var _ := BlockSource.Read(src, at, buffer, 0, NodeSize);
    BlockSource.ReadContent(before, at, NodeSize);
    SpliceSlice(old(buffer[..]), 0, BlockSource.DiskBytes(before, at, NodeSize));
    InodeFromBytes(buffer[..], 0, BlockSource.ContentOf(before), at);
  }

  class BobFsNode {
    /** The device of the node's file system (`_bobFs.Source`). */
    const source: ImageSource
    const inum: uint32
    /** `_tmpBuffer`: one block of scratch space. */
    const scratch: array<byte>
    /** `_indirect`'s entries. */
    const table: array<uint32>
    /** `_node`'s fields and Modified flag, `_nodeValid`. */
    var node: Inode
    var nodeValid: bool
    var nodeModified: bool
    /** `_indirect`'s Modified flag, `_indirectValid`. */
    var indirectValid: bool
    var indirectModified: bool

    ghost predicate Valid()
      reads this
    {
      scratch.Length == BlockSize && table.Length == IndirectCount && Ops.InumOk(inum)
    }

    /** The device content and the caches, as NodeOps sees them. */
    ghost function State(): (s: Ops.State)
      reads this, table, source
      ensures Valid() ==> Ops.Shaped(s)
    {
      Ops.State(BlockSource.ContentOf(source.sectors),
                Ops.Cache(node, nodeValid, nodeModified, table[..], indirectValid, indirectModified))
    }

    /** The caches alone. */
    ghost function Cache(): Ops.Cache
      reads this, table
    {
      Ops.Cache(node, nodeValid, nodeModified, table[..], indirectValid, indirectModified)
    }

    /** `other` is a second node of the same device, with caches of its own. */
    ghost predicate Apart(other: BobFsNode)
      reads this, other
    {
      other != this && other.source == source && other.scratch != scratch && other.table != table
    }

    /** A node reads nothing when it is made: both caches start out invalid. */
    constructor (source: ImageSource, inum: uint32)
      requires Ops.InumOk(inum)
      ensures Valid() && this.source == source && this.inum == inum
      ensures Cache() == Dir.FreshCache()
      ensures fresh(scratch) && fresh(table)
    {
      this.source := source;
      this.inum := inum;
      scratch := new byte[BlockSize](_ => 0);
      table := new uint32[IndirectCount](_ => 0);
      node := Inode(0, 0, 0, 0, 0);
      nodeValid, nodeModified := false, false;
      indirectValid, indirectModified := false, false;
      new;
      assert table[..] == Dir.FreshCache().table;
    }

    // ---------------------------------------------------------------- inode

    /** The Node getter: reads the 16-byte record when the cache is invalid. */
    method GetNode()
      requires Valid()
      modifies this, scratch, source
      ensures Valid() && State() == Ops.LoadNode(old(State()), inum)
    {
      if nodeValid {
        return;
      }
      ghost var s0 := State();
      ReadRecord(source, inum, scratch);
      node := DecodeInode(scratch[..], 0);
      nodeModified := false;
      nodeValid := true;
      ghost var d := BlockSource.ContentOf(source.sectors);
      assert d == s0.disk;
      assert table[..] == s0.cache.table;
      assert State() == Ops.State(d, Ops.Cache(node, true, false, table[..], indirectValid, indirectModified));
    }

    method SetType(v: uint16)
      requires Valid()
      modifies this, scratch, source
      ensures Valid() && State() == Ops.SetType(old(State()), inum, v)
    {
      GetNode();
      node := node.(ntype := v);
      nodeModified := true;
    }

    method SetNumLinks(v: uint16)
      requires Valid()
      modifies this, scratch, source
      ensures Valid() && State() == Ops.SetNumLinks(old(State()), inum, v)
    {
      GetNode();
      node := node.(numLinks := v);
      nodeModified := true;
    }

    method SetSize(v: uint32)
      requires Valid()
      modifies this, scratch, source
      ensures Valid() && State() == Ops.SetSize(old(State()), inum, v)
    {
      GetNode();
      node := node.(size := v);
      nodeModified := true;
    }

    method SetDirect(v: uint32)
      requires Valid()
      modifies this, scratch, source
      ensures Valid() && State() == Ops.SetDirect(old(State()), inum, v)
    {
      GetNode();
      node := node.(directBlock := v);
      nodeModified := true;
    }

    /** The IndirectBlock setter: the cached table no longer belongs to the node. */
    method SetIndirect(v: uint32)
      requires Valid()
      modifies this, scratch, source
      ensures Valid() && State() == Ops.SetIndirect(old(State()), inum, v)
    {
      GetNode();
      node := node.(indirectBlock := v);
      nodeModified := true;
      indirectValid := false;
    }

    // ------------------------------------------------------- block transfers

    /** ReadBlock: up to the end of block `blockNum`, through the device's ReadAll
        (with its buffer position corrected). */
    method ReadBlock(blockNum: uint32, blockOffset: int, buffer: array<byte>, bufOffset: int, n: int)
      returns (r: Result<int>)
      requires 0 <= blockOffset < BlockSize && 0 < n
      requires 0 <= bufOffset && bufOffset + Ops.BlockCount(blockOffset, n) <= buffer.Length
      modifies source, buffer
      ensures BlockSource.ContentOf(source.sectors) == old(BlockSource.ContentOf(source.sectors))
      ensures r == if Ops.BlockOk(blockNum) then Ok(Ops.BlockCount(blockOffset, n)) else Err(BadBlock)
      ensures r.Ok? ==>
        var at := BlockSize * blockNum + blockOffset;
        buffer[..] == Splice(old(buffer[..]), bufOffset,
                             old(BlockSource.ContentOf(source.sectors))[at..at + Ops.BlockCount(blockOffset, n)])
    {
      if BlockSize * blockNum + BlockSize > Ops.DeviceSize {
        return Err(BadBlock);
      }
      var end := blockOffset + n;
      if end > BlockSize {
        end := BlockSize;
      }
      var count := end - blockOffset;
      ReadBytes(source, BlockSize * blockNum + blockOffset, buffer, bufOffset, count);
      return Ok(count);
    }

    /** WriteBlock: up to the end of block `blockNum`, through the device's WriteAll
        (with its buffer position corrected). */
    method WriteBlock(blockNum: uint32, blockOffset: int, buffer: array<byte>, bufOffset: int, n: int)
      returns (r: Result<int>)
      requires 0 <= blockOffset < BlockSize && 0 < n
      requires 0 <= bufOffset && bufOffset + Ops.BlockCount(blockOffset, n) <= buffer.Length
      modifies source
      ensures r == if Ops.BlockOk(blockNum) then Ok(Ops.BlockCount(blockOffset, n)) else Err(BadBlock)
      ensures r.Ok? ==>
        var at := BlockSize * blockNum + blockOffset;
        var count := Ops.BlockCount(blockOffset, n);
        BlockSource.ContentOf(source.sectors)
          == Splice(old(BlockSource.ContentOf(source.sectors)), at, buffer[bufOffset..bufOffset + count])
      ensures r.Err? ==> source.sectors == old(source.sectors)
    {
      if BlockSize * blockNum + BlockSize > Ops.DeviceSize {
        return Err(BadBlock);
      }
      var end := blockOffset + n;
      if end > BlockSize {
        end := BlockSize;
      }
      var count := end - blockOffset;
      WriteBytes(source, BlockSize * blockNum + blockOffset, buffer, bufOffset, count);
      return Ok(count);
    }

    // ------------------------------------------------------- indirect table

    /** The Indirect getter: reads the table from the indirect block when the cache
        is invalid; there must be an indirect block. */
    method GetIndirect() returns (r: Result<()>)
      requires Valid()
      modifies this, scratch, source, table
      ensures Valid() && Ops.Out(State(), r) == Ops.LoadTable(old(State()), inum)
    {
      if indirectValid {
        return Ok(());
      }
      GetNode();
      var ib := node.indirectBlock;
      if ib == 0 {
        return Err(IndirectMissing);
      }
      r := FetchTable(ib);
      if r.Ok? {
        indirectModified := false;
        indirectValid := true;
      }
    }

    /** The table read from indirect block `ib`. */
    method FetchTable(ib: uint32) returns (r: Result<()>)
      requires Valid()
      modifies scratch, source, table
      ensures Valid()
      ensures BlockSource.ContentOf(source.sectors) == old(BlockSource.ContentOf(source.sectors))
      ensures r == if Ops.BlockOk(ib) then Ok(()) else Err(BadBlock)
      ensures r.Ok? ==> table[..] == DecodeWords(BlockSource.ContentOf(source.sectors), BlockSize * ib, IndirectCount)
      ensures r.Err? ==> table[..] == old(table[..])
    {
      ghost var disk := BlockSource.ContentOf(source.sectors);
      var rb := ReadBlock(ib, 0, scratch, 0, BlockSize);
      if rb.Err? {
        return Err(BadBlock);
      }
      assert scratch[..] == disk[BlockSize * ib..BlockSize * ib + BlockSize];
      var _ := ReadIndirects(table, scratch);
      WordsFromBytes(scratch[..], 0, disk, BlockSize * ib, IndirectCount);
      return Ok(());
    }

    /** PartBlockNum: the block of part `part`, 0 for a part that has none yet. */
    method PartBlockNum(part: int) returns (r: Result<uint32>)
      requires Valid() && 0 <= part
      modifies this, scratch, source, table
      ensures Valid() && Ops.Out(State(), r) == Ops.PartBlockNum(old(State()), inum, part)
    {
      GetNode();
      if part > CeilDiv(node.size, BlockSize) {
        return Err(PartInvalid);
      }
      if part > 0 && node.indirectBlock == 0 {
        return Ok(0);
      }
      if part == 0 {
        return Ok(node.directBlock);
      }
      var t := GetIndirect();
      if t.Err? {
        return Err(t.error);
      }
      if part - 1 >= IndirectCount {
        return Err(IndexOutOfRange);
      }
      return Ok(table[part - 1]);
    }

    // ------------------------------------------------------------ allocation

    /** The scan of bitmap block `blk` shared by FindFreeBlock and NewNode: the
        first clear bit is set and the block written back. */
    method ClaimBit(blk: int) returns (index: int)
      requires Valid() && Ops.BlockOk(blk)
      modifies scratch, source
      ensures (BlockSource.ContentOf(source.sectors), index)
        == Ops.ClaimBit(old(BlockSource.ContentOf(source.sectors)), blk)
    {
      ghost var disk := BlockSource.ContentOf(source.sectors);
      ghost var before := scratch[..];
      ReadBytes(source, BlockSize * blk, scratch, 0, BlockSize);
      SpliceWhole(before, Ops.BlockBytes(disk, blk));
      index := FirstFreeBit(scratch[..]);
      if index == -1 {
        return;
      }
      var bits := SetBit(scratch[..], index);
      SpliceWhole(scratch[..], bits);
      CopyTo(bits, scratch, 0);
      assert scratch[0..BlockSize] == bits;
      WriteBytes(source, BlockSize * blk, scratch, 0, BlockSize);
    }

    /** FindFreeBlock: the first free data block, now marked used, or -1. */
    method FindFreeBlock() returns (b: int)
      requires Valid()
      modifies scratch, source
      ensures Valid() && (State(), b) == Ops.FindFreeBlock(old(State()))
    {
      var index := ClaimBit(BlockBitmapBlock);
      if index == -1 {
        return -1;
      }
      return index + FirstDataBlock;
    }

    /** AssignBlock: claims a block for part `part`, and the indirect block first
        when part `part` needs one and there is none. */
    method AssignBlock(part: int) returns (r: Result<uint32>)
      requires Valid() && 0 <= part
      modifies this, scratch, source, table
      ensures Valid() && Ops.Out(State(), r) == Ops.AssignBlock(old(State()), inum, part)
    {
      if part >= 1 + IndirectCount {
        return Err(InvalidPart);
      }
      if part == 0 {
        r := AssignDirect();
        return;
      }
      ghost var s := State();
      WithIndirect();
      var t := GetIndirect();
      assert Ops.Out(State(), t) == Ops.LoadTable(Ops.WithIndirect(s, inum), inum);
      r := AssignEntry(t, part);
    }

    /** AssignBlock for part 0. */
    method AssignDirect() returns (r: Result<uint32>)
      requires Valid()
      modifies this, scratch, source
      ensures Valid() && Ops.Out(State(), r) == Ops.AssignDirect(old(State()), inum)
    {
      var b := FindFreeBlock();
      SetDirect(ToUInt32(b));
      return Ok(node.directBlock);
    }

    /** The node loaded, and given an indirect block when it has none. */
    method WithIndirect()
      requires Valid()
      modifies this, scratch, source
      ensures Valid() && State() == Ops.WithIndirect(old(State()), inum)
    {
      GetNode();
      if node.indirectBlock == 0 {
        var b := FindFreeBlock();
        SetIndirect(ToUInt32(b));
      }
    }

    /** AssignBlock past part 0, once GetIndirect has answered `t`. */
    method AssignEntry(t: Result<()>, part: int) returns (r: Result<uint32>)
      requires Valid() && 1 <= part <= IndirectCount
      modifies scratch, source, table, `indirectModified
      ensures Valid() && Ops.Out(State(), r) == Ops.AssignEntry(Ops.Out(old(State()), t), part)
    {
      if t.Err? {
        return Err(t.error);
      }
      if table[part - 1] != 0 {
        return Err(PartAssigned);
      }
      var b := FindFreeBlock();
      table[part - 1] := ToUInt32(b);
      indirectModified := true;
      return Ok(ToUInt32(b));
    }

    // ------------------------------------------------------------- transfers

    /** The end of Read once the part's block is looked up: a whole block, or the part
        of one the request covers. */
    method Fetch(block: uint32, offset: int, buffer: array<byte>, bufOffset: int, n: int)
      returns (r: Result<int>)
      requires Valid() && 0 <= offset && 0 < n
      requires 0 <= bufOffset && bufOffset + n <= buffer.Length
      modifies source, buffer
      ensures Valid()
      ensures var o := Ops.Fetch(Ops.Out(old(State()), Ok(block)), offset, n);
        State() == o.st && Agrees(r, o.res) &&
        (o.res.Ok? ==> buffer[..] == Splice(old(buffer[..]), bufOffset, o.res.value))
    {
      var start := offset % BlockSize;
      var end := start + n;
      if end > BlockSize {
        end := BlockSize;
      }
      var count := end - start;
      Ops.FetchEffect(State(), block, offset, n, count);
      if count == BlockSize {
        r := ReadBlock(block, 0, buffer, bufOffset, BlockSize);
        assert start == 0;
      } else {
        r := ReadBlock(block, start, buffer, bufOffset, count);
      }
    }

    /** Read: at most to the end of the block holding `offset`; nothing past the
        part holding the end of the file. */
    method Read(offset: int, buffer: array<byte>, bufOffset: int, n: int) returns (r: Result<int>)
      requires Valid() && 0 <= offset && 0 < n && buffer != scratch
      requires 0 <= bufOffset && bufOffset + n <= buffer.Length
      modifies this, scratch, source, table, buffer
      ensures Valid()
      ensures var o := Ops.Read(old(State()), inum, offset, n);
        State() == o.st && Agrees(r, o.res) &&
        (o.res.Ok? ==> buffer[..] == Splice(old(buffer[..]), bufOffset, o.res.value))
    {
      var part := offset / BlockSize;
      GetNode();
      if part > node.size / BlockSize {
        return Ok(0);
      }
      var block := PartBlockNum(part);
      if block.Err? {
        return Err(block.error);
      }
      r := Fetch(block.value, offset, buffer, bufOffset, n);
    }

    /** The first half of Write: Size raised to cover the request, then the block of
        the part holding `offset`, assigned when the part has none. */
    method BlockFor(offset: int, n: int) returns (r: Result<uint32>)
      requires Valid() && 0 <= offset && 0 < n && offset + n <= MaxInt
      modifies this, scratch, source, table
      ensures Valid() && Ops.Out(State(), r) == Ops.BlockFor(old(State()), inum, offset, n)
    {
      ghost var s := State();
      Cover(offset + n);
      ghost var t := State();
      assert Ops.BlockFor(s, inum, offset, n) == Ops.FindOrAssign(t, inum, offset / BlockSize);
      r := FindOrAssign(offset / BlockSize);
    }

    /** Size raised, when it falls short, to `end`. */
    method Cover(end: int)
      requires Valid() && 0 <= end <= MaxInt
      modifies this, scratch, source
      ensures Valid() && State() == Ops.Cover(old(State()), inum, end)
    {
      GetNode();
      if end > node.size as int {
        SetSize(end as uint32);
      }
    }

    /** The block of part `part`, assigned when the part has none. */
    method FindOrAssign(part: int) returns (r: Result<uint32>)
      requires Valid() && 0 <= part
      modifies this, scratch, source, table
      ensures Valid() && Ops.Out(State(), r) == Ops.FindOrAssign(old(State()), inum, part)
    {
      r := PartBlockNum(part);
      if r.Err? || r.value != 0 {
        return;
      }
      r := AssignBlock(part);
    }

    /** The second half of Write: a whole block, or the part of one the request
        covers, written to block `block`. */
    method Store(block: uint32, offset: int, buffer: array<byte>, bufOffset: int, n: int)
      returns (r: Result<int>)
      requires Valid() && 0 <= offset && 0 < n
      requires 0 <= bufOffset && bufOffset + n <= buffer.Length
      modifies source
      ensures Valid()
      ensures Ops.Out(State(), r) == Ops.Store(Ops.Out(old(State()), Ok(block)), offset, old(buffer[bufOffset..bufOffset + n]))
    {
      var start := offset % BlockSize;
      var end := start + n;
      if end > BlockSize {
        end := BlockSize;
      }
      var count := end - start;
      ghost var s := State();
      ghost var data := buffer[bufOffset..bufOffset + n];
      assert data[..count] == buffer[bufOffset..bufOffset + count];
      if count == BlockSize {
        r := WriteBlock(block, 0, buffer, bufOffset, BlockSize);
        assert start == 0;
      } else {
        r := WriteBlock(block, start, buffer, bufOffset, count);
      }
      Ops.StoreEffect(s, block, offset, data, count, r, BlockSource.ContentOf(source.sectors));
    }

    /** Write: raises Size to cover the request, assigns the part a block when it has
        none and stores what fits in that block. */
    method Write(offset: int, buffer: array<byte>, bufOffset: int, n: int) returns (r: Result<int>)
      requires Valid() && 0 <= offset && 0 < n && offset + n <= MaxInt && buffer != scratch
      requires 0 <= bufOffset && bufOffset + n <= buffer.Length
      modifies this, scratch, source, table
      ensures Valid()
      ensures Ops.Out(State(), r) == Ops.Write(old(State()), inum, offset, old(buffer[bufOffset..bufOffset + n]))
    {
      ghost var s := State();
      ghost var data := buffer[bufOffset..bufOffset + n];
      var block := BlockFor(offset, n);
      assert Ops.Write(s, inum, offset, data) == Ops.Store(Ops.Out(State(), block), offset, data);
      if block.Err? {
        return Err(block.error);
      }
      r := Store(block.value, offset, buffer, bufOffset, n);
    }

    /** ReadAll: the request is cut off at the end of the file and read chunk by chunk
        into consecutive positions of the buffer. */
    method ReadAll(offset: int, buffer: array<byte>, bufOffset: int, n: int) returns (r: Result<int>)
      requires Valid() && 0 <= offset <= MaxInt && offset + n <= MaxInt && buffer != scratch
      requires 0 <= bufOffset && bufOffset + (if n > 0 then n else 0) <= buffer.Length
      modifies this, scratch, source, table, buffer
      ensures Valid()
      ensures var o := Ops.ReadAll(old(State()), inum, offset, n);
        State() == o.st && Agrees(r, o.res) &&
        (o.res.Ok? ==> buffer[..] == Splice(old(buffer[..]), bufOffset, o.res.value))
    {
      GetNode();
      var m := n;
      if offset + m > node.size {
        m := node.size - offset;
      }
      ghost var goal := Ops.ReadLoop(State(), inum, offset, m, []);
      r := ReadLoop(offset, buffer, bufOffset, m, goal);
    }

    /** One round of ReadAll's loop: a chunk read from `off` into the buffer at
        `bufOffset + |done|`; `v` is what it moves. */
    method ReadRound(off: int, buffer: array<byte>, bufOffset: int, at: int, m: int,
                     ghost buf: seq<byte>, ghost done: seq<byte>, ghost goal: Ops.Out<seq<byte>>)
      returns (cnt: Result<int>, ghost v: seq<byte>)
      requires Valid() && 0 <= off && 0 < m && buffer != scratch
      requires 0 <= bufOffset && at == bufOffset + |done| && at + m <= buffer.Length
      requires |buf| == buffer.Length && buffer[..] == Splice(buf, bufOffset, done)
      requires Ops.ReadEnds(State(), inum, off, m, done, goal)
      modifies this, scratch, source, table, buffer
      ensures Valid()
      ensures cnt.Err? ==> Ops.Out(State(), Err(cnt.error)) == goal
      ensures cnt.Ok? && cnt.value <= 0 ==>
        Ops.Out(State(), Ok(done)) == goal && buffer[..] == Splice(buf, bufOffset, done)
      ensures cnt.Ok? && cnt.value > 0 ==>
        cnt.value == |v| && cnt.value <= m && buffer[..] == Splice(buf, bufOffset, done + v) &&
        Ops.ReadEnds(State(), inum, off + cnt.value, m - cnt.value, done + v, goal)
    {
      ghost var s := State();
      cnt := Read(off, buffer, at, m);
      ghost var o := Ops.Read(s, inum, off, m);
      Ops.ReadStop(s, inum, off, m, done, State(), o.res, goal);
      v := [];
      if cnt.Ok? {
        v := o.res.value;
        SpliceAppend(buf, bufOffset, done, v);
        if cnt.value > 0 {
          Ops.ReadNext(s, inum, off, m, done, State(), o.res, goal, off + cnt.value, m - cnt.value, done + v);
        } else {
          assert done + v == done;
        }
      }
    }

    /** The loop of ReadAll, over a request already cut off at the end of the file,
        which the specification says ends in `goal`. */
    method ReadLoop(offset: int, buffer: array<byte>, bufOffset: int, n: int, ghost goal: Ops.Out<seq<byte>>)
      returns (r: Result<int>)
      requires Valid() && 0 <= offset && offset + n <= MaxInt && buffer != scratch
      requires 0 <= bufOffset && bufOffset + (if n > 0 then n else 0) <= buffer.Length
      requires Ops.ReadEnds(State(), inum, offset, n, [], goal)
      modifies this, scratch, source, table, buffer
      ensures Valid()
      ensures State() == goal.st && Agrees(r, goal.res)
      ensures goal.res.Ok? ==> buffer[..] == Splice(old(buffer[..]), bufOffset, goal.res.value)
    {
      ghost var done: seq<byte> := [];
      ghost var buf := buffer[..];
      var total, off, m := 0, offset, n;
      while m > 0
        invariant Valid()
        invariant off == offset + total && total == |done| && 0 <= total
        invariant bufOffset + total + (if m > 0 then m else 0) <= buffer.Length
        invariant off + m <= MaxInt
        invariant buffer[..] == Splice(buf, bufOffset, done)
        invariant Ops.ReadEnds(State(), inum, off, m, done, goal)
        decreases m
      {
        var cnt, v := ReadRound(off, buffer, bufOffset, bufOffset + total, m, buf, done, goal);
        if cnt.Err? {
          return cnt;
        }
        if cnt.value <= 0 {
          return Ok(total);
        }
        done := done + v;
        total := total + cnt.value;
        off := off + cnt.value;
        m := m - cnt.value;
      }
      return Ok(total);
    }

    /** The first half of a round of WriteAll's loop: the block for the `m` bytes
        `rest` still to be written at `offset`. */
    method RoundBlock(offset: int, m: int, ghost rest: seq<byte>, ghost total: int, ghost goal: Ops.Out<int>)
      returns (r: Result<uint32>)
      requires Valid() && 0 <= offset && 0 < m == |rest| && offset + m <= MaxInt
      requires Ops.WriteEnds(State(), inum, offset, rest, total, goal)
      modifies this, scratch, source, table
      ensures Valid()
      ensures r.Err? ==> Ops.Out(State(), Err(r.error)) == goal
      ensures r.Ok? ==> Ops.StoreEnds(Ops.Out(State(), Ok(r.value)), inum, offset, rest, total, goal)
    {
      ghost var s := State();
      r := BlockFor(offset, m);
      Ops.BlockForNext(s, inum, offset, rest, total, State(), r, goal);
    }

    /** The second half of a round of WriteAll's loop: `rest`, which starts at `at` in
        the buffer, stored from `offset` on in block `block`. */
    method RoundStore(block: uint32, offset: int, buffer: array<byte>, at: int, m: int,
                      ghost rest: seq<byte>, ghost total: int, ghost goal: Ops.Out<int>)
      returns (r: Result<int>)
      requires Valid() && 0 <= offset && 0 < m == |rest| && offset + m <= MaxInt
      requires 0 <= at && at + m <= buffer.Length && buffer[at..at + m] == rest
      requires Ops.StoreEnds(Ops.Out(State(), Ok(block)), inum, offset, rest, total, goal)
      modifies source
      ensures Valid()
      ensures r.Err? ==> Ops.Out(State(), r) == goal
      ensures r.Ok? ==>
        0 < r.value <= m &&
        Ops.WriteEnds(State(), inum, offset + r.value, rest[r.value..], total + r.value, goal)
    {
      ghost var t := State();
      r := Store(block, offset, buffer, at, m);
      Ops.StoreNext(t, block, inum, offset, rest, total, State(), r, goal);
    }

    /** One round of WriteAll's loop, the body of Write in its two halves: the `m`
        bytes at `at` in the buffer written from `offset` on. */
    method WriteRound(offset: int, buffer: array<byte>, at: int, m: int, ghost end: int,
                      ghost total: int, ghost goal: Ops.Out<int>)
      returns (r: Result<int>)
      requires Valid() && 0 <= offset && 0 < m && offset + m <= MaxInt && buffer != scratch
      requires 0 <= at && at + m == end <= buffer.Length
      requires Ops.WriteEnds(State(), inum, offset, buffer[at..end], total, goal)
      modifies this, scratch, source, table
      ensures Valid()
      ensures
        if r.Err? then
          Ops.Out(State(), r) == goal
        else
          0 < r.value <= m &&
          Ops.WriteEnds(State(), inum, offset + r.value, buffer[at + r.value..end], total + r.value, goal)
    {
      ghost var rest := buffer[at..end];
      var block := RoundBlock(offset, m, rest, total, goal);
      if block.Err? {
        return Err(block.error);
      }
      r := RoundStore(block.value, offset, buffer, at, m, rest, total, goal);
      if r.Ok? {
        assert rest[r.value..] == buffer[at + r.value..end];
      }
    }

    /** WriteAll: the request written chunk by chunk from consecutive positions of
        the buffer, the offset advancing past each chunk. */
    method WriteAll(offset: int, buffer: array<byte>, bufOffset: int, n: int) returns (r: Result<int>)
      requires Valid() && 0 <= offset <= MaxInt && offset + n <= MaxInt && buffer != scratch
      requires 0 <= bufOffset && bufOffset + (if n > 0 then n else 0) <= buffer.Length
      modifies this, scratch, source, table
      ensures Valid()
      ensures Ops.Out(State(), r)
        == Ops.WriteAll(old(State()), inum, offset, old(buffer[bufOffset..bufOffset + (if n > 0 then n else 0)]))
    {
      // a count that is not positive writes nothing, as `while (n > 0)` does
      var m := if n > 0 then n else 0;
      ghost var goal := Ops.WriteAll(State(), inum, offset, buffer[bufOffset..bufOffset + m]);
      r := WriteLoop(offset, buffer, bufOffset, m, goal);
    }

    /** The loop of WriteAll, which the specification says ends in `goal`. */
    method WriteLoop(offset: int, buffer: array<byte>, bufOffset: int, n: int, ghost goal: Ops.Out<int>)
      returns (r: Result<int>)
      requires Valid() && 0 <= offset && 0 <= n && offset + n <= MaxInt && buffer != scratch
      requires 0 <= bufOffset && bufOffset + n <= buffer.Length
      requires Ops.WriteEnds(State(), inum, offset, buffer[bufOffset..bufOffset + n], 0, goal)
      modifies this, scratch, source, table
      ensures Valid()
      ensures Ops.Out(State(), r) == goal
    {
      ghost var end := bufOffset + n;
      var total, off, at, m := 0, offset, bufOffset, n;
      while m > 0
        invariant Valid()
        invariant 0 <= total && 0 <= m && 0 <= off && off + m <= MaxInt
        invariant 0 <= bufOffset <= at && at + m == end && end <= buffer.Length
        invariant Ops.WriteEnds(State(), inum, off, buffer[at..end], total, goal)
        decreases m
      {
        var cnt := WriteRound(off, buffer, at, m, end, total, goal);
        if cnt.Err? {
          return cnt;
        }
        ghost var rest := buffer[at + cnt.value..end];
        total := total + cnt.value;
        m := m - cnt.value;
        off := off + cnt.value;
        at := at + cnt.value;
        assert Ops.WriteEnds(State(), inum, off, rest, total, goal);
      }
      return Ok(total);
    }

    // ---------------------------------------------------------- persistence

    /** Commit: writes the inode when it is marked modified, and the table when there
        is an indirect block and the table is marked modified. */
    method Commit() returns (r: Result<()>)
      requires Valid()
      modifies this, scratch, source, table
      ensures Valid() && Ops.Out(State(), r) == Ops.Commit(old(State()), inum)
    {
      CommitNode();
      r := CommitTable();
    }

    /** The inode half of Commit. */
    method CommitNode()
      requires Valid()
      modifies this, scratch, source
      ensures Valid() && State() == Ops.CommitNode(old(State()), inum)
    {
      GetNode();
      if nodeModified {
        ghost var t := State();
        ghost var before := source.sectors;
        var at := BlockSize * InodeTableBlock + NodeSize * inum;
        NodeChunk(inum);
        assert at == Ops.NodeOffset(inum);
        ghost var record := EncodeInode(node);
        ghost var pre := scratch[..];
        CopyTo(EncodeInode(node), scratch, 0);
        SpliceSlice(pre, 0, record);
        assert scratch[0..NodeSize] == record;
        var _ := BlockSource.Write(source, at, scratch, 0, NodeSize);
        BlockSource.ContentPut(before, at, record);
        assert State() == t.(disk := Splice(t.disk, at, record));
      }
    }

    /** The table half of Commit, once the inode is loaded. */
    method CommitTable() returns (r: Result<()>)
      requires Valid()
      modifies this, scratch, source, table
      ensures Valid() && Ops.Out(State(), r) == Ops.CommitTable(old(State()), inum)
    {
      ghost var s := State();
      var ib := node.indirectBlock;
      if ib == 0 {
        return Ok(());
      }
      var t := GetIndirect();
      if t.Err? || !indirectModified {
        return t;
      }
      ghost var v := State();
      r := StoreTable(ib);
      Ops.CommitTableEffect(s, inum, ib, v, r, BlockSource.ContentOf(source.sectors));
    }

    /** The end of CommitTable: the table's bytes written to block `ib`. */
    method StoreTable(ib: uint32) returns (r: Result<()>)
      requires Valid()
      modifies scratch, source
      ensures r == if Ops.BlockOk(ib) then Ok(()) else Err(BadBlock)
      ensures r.Ok? ==>
        BlockSource.ContentOf(source.sectors)
          == Splice(old(BlockSource.ContentOf(source.sectors)), BlockSize * ib, EncodeWords(table[..]))
      ensures r.Err? ==> source.sectors == old(source.sectors)
    {
      ghost var before := scratch[..];
      WriteIndirects(table, scratch);
      ghost var words := EncodeWords(table[..]);
      SpliceSlice(before, 0, words);
      assert scratch[0..BlockSize] == words;
      assert Ops.BlockCount(0, BlockSize) == BlockSize;
      var w := WriteBlock(ib, 0, scratch, 0, BlockSize);
      if w.Err? {
        return Err(BadBlock);
      }
      return Ok(());
    }

    /** Invalidate: both caches are dropped, so the next use reads the device again. */
    method Invalidate()
      modifies this
      ensures State() == Ops.Invalidate(old(State()))
    {
      nodeValid := false;
      indirectValid := false;
    }

    // ----------------------------------------------------------- directories

    /** The IsDirectory test at the head of every directory operation. */
    method CheckDir() returns (r: Result<()>)
      requires Valid()
      modifies this, scratch, source
      ensures Valid() && Ops.Out(State(), r) == Dir.CheckDir(old(State()), inum)
    {
      GetNode();
      if node.ntype != DirectoryType {
        return Err(NotDirectory);
      }
      return Ok(());
    }

    /** DirEntry.ReadFrom at `at`: the head and then the name, each through ReadAll
        into an array of its own. */
    method ReadEntry(at: int) returns (r: Result<DirEntry>)
      requires Valid() && 0 <= at
      modifies this, scratch, source, table
      ensures Valid() && Ops.Out(State(), r) == Dir.EntryRead(old(State()), inum, at)
    {
      if at + 8 > MaxInt {
        return Err(BadEntry);
      }
      var headBuf := new byte[8](_ => 0);
      assert headBuf[..] == Zeros(8);
      ghost var s := State();
      var h := ReadAll(at, headBuf, 0, 8);
      r := ReadName(at, headBuf, h, Ops.ReadAll(s, inum, at, 8).res);
    }

    /** The second half of DirEntry.ReadFrom: the head read into `headBuf` has ended
        in `h`, which moved `got`; the name is read after it. */
    method ReadName(at: int, headBuf: array<byte>, h: Result<int>, ghost got: Result<seq<byte>>)
      returns (r: Result<DirEntry>)
      requires Valid() && 0 <= at && at + 8 <= MaxInt && headBuf.Length == 8 && Agrees(h, got)
      requires got.Ok? ==> |got.value| <= 8 && headBuf[..] == Splice(Zeros(8), 0, got.value)
      modifies this, scratch, source, table
      ensures Valid() && Ops.Out(State(), r) == Dir.EntryName(Ops.Out(old(State()), got), inum, at)
    {
      if h.Err? {
        return Err(h.error);
      }
      var len := ReadLE32(headBuf[..], 4) as int;
      if at + 8 + len > MaxInt {
        return Err(BadEntry);
      }
      var nameBuf := new byte[len](_ => 0);
      assert nameBuf[..] == Zeros(len);
      var b := ReadAll(at + 8, nameBuf, 0, len);
      if b.Err? {
        return Err(b.error);
      }
      r := Ok(DirEntry(ReadLE32(headBuf[..], 0), Ascii(nameBuf[..])));
    }

    /** One round of a directory scan: the Size getter, then the entry at `runner`
        while `runner` is below Size. */
    method NextEntry(runner: int) returns (x: Result<Option<DirEntry>>)
      requires Valid() && 0 <= runner
      modifies this, scratch, source, table
      ensures Valid() && Ops.Out(State(), x) == Dir.ScanStep(old(State()), inum, runner)
    {
      GetNode();
      if runner >= node.size as int {
        return Ok(None);
      }
      var e := ReadEntry(runner);
      if e.Err? {
        return Err(e.error);
      }
      return Ok(Some(e.value));
    }

    /** Contents: the directory's entries in stored order, read one after another
        from offset 0 while the offset is below Size. */
    method Contents() returns (r: Result<seq<DirEntry>>)
      requires Valid()
      modifies this, scratch, source, table
      ensures Valid() && Ops.Out(State(), r) == Dir.Contents(old(State()), inum)
    {
      var c := CheckDir();
      if c.Err? {
        return Err(c.error);
      }
      r := ListEntries();
    }

    /** The scan of Contents: entries read one after another from offset 0 until the
        offset reaches Size. */
    method ListEntries() returns (r: Result<seq<DirEntry>>)
      requires Valid()
      modifies this, scratch, source, table
      ensures Valid() && Ops.Out(State(), r) == Dir.ListLoop(old(State()), inum, 0, [])
    {
      ghost var goal := Dir.ListLoop(State(), inum, 0, []);
      var runner := 0;
      var acc: seq<DirEntry> := [];
      while true
        invariant Valid() && 0 <= runner <= MaxInt
        invariant Dir.ListLoop(State(), inum, runner, acc) == goal
        decreases MaxInt - runner
      {
        ghost var s := State();
        var x := NextEntry(runner);
        Dir.ListNext(s, inum, runner, acc, State(), x);
        if x.Err? {
          return Err(x.error);
        }
        if x.value.None? {
          return Ok(acc);
        }
        runner := runner + 8 + |x.value.value.name|;
        acc := acc + [x.value.value];
      }
    }

    /** FindNode: the inode number of the first entry named `name`, or None. */
    method FindNode(name: Name) returns (r: Result<Option<uint32>>)
      requires Valid()
      modifies this, scratch, source, table
      ensures Valid() && Ops.Out(State(), r) == Dir.FindNode(old(State()), inum, name)
    {
      var c := CheckDir();
      if c.Err? {
        return Err(c.error);
      }
      r := FindEntry(name);
    }

    /** The scan of FindNode: entries read one after another from offset 0 until one
        is named `name` or the offset reaches Size. */
    method FindEntry(name: Name) returns (r: Result<Option<uint32>>)
      requires Valid()
      modifies this, scratch, source, table
      ensures Valid() && Ops.Out(State(), r) == Dir.FindLoop(old(State()), inum, 0, name)
    {
      ghost var goal := Dir.FindLoop(State(), inum, 0, name);
      var runner := 0;
      while true
        invariant Valid() && 0 <= runner <= MaxInt
        invariant Dir.FindLoop(State(), inum, runner, name) == goal
        decreases MaxInt - runner
      {
        ghost var s := State();
        var x := NextEntry(runner);
        Dir.FindNext(s, inum, runner, name, State(), x);
        if x.Err? {
          return Err(x.error);
        }
        if x.value.None? {
          return Ok(None);
        }
        if x.value.value.name == name {
          return Ok(Some(x.value.value.inum));
        }
        runner := runner + 8 + |x.value.value.name|;
      }
    }

    /** The scan of DeleteNode: the offset and entry of the first entry holding
        `target`. */
    method SeekEntry(target: uint32) returns (r: Result<(int, DirEntry)>)
      requires Valid()
      modifies this, scratch, source, table
      ensures Valid() && Ops.Out(State(), r) == Dir.SeekLoop(old(State()), inum, 0, target)
    {
      ghost var goal := Dir.SeekLoop(State(), inum, 0, target);
      var runner := 0;
      while true
        invariant Valid() && 0 <= runner <= MaxInt
        invariant Dir.SeekLoop(State(), inum, runner, target) == goal
        decreases MaxInt - runner
      {
        ghost var s := State();
        var x := NextEntry(runner);
        Dir.SeekNext(s, inum, runner, target, State(), x);
        if x.Err? {
          return Err(x.error);
        }
        if x.value.None? {
          return Err(NodeNotFound);
        }
        if x.value.value.inum == target {
          return Ok((runner, x.value.value));
        }
        runner := runner + 8 + |x.value.value.name|;
      }
    }

    /** The compaction of DeleteNode: what follows the `gap` bytes at `at` moved down
        over them a block at a time, through a buffer of its own. */
    method Shift(at: int, gap: int) returns (r: Result<()>)
      requires Valid() && 0 <= at && 0 < gap && at + gap <= MaxInt
      modifies this, scratch, source, table
      ensures Valid() && Ops.Out(State(), r) == Dir.ShiftLoop(old(State()), inum, at, gap)
    {
      ghost var goal := Dir.ShiftLoop(State(), inum, at, gap);
      var moved := new byte[BlockSize](_ => 0);
      var runner := at;
      while true
        invariant Valid() && 0 <= runner && runner + gap <= MaxInt
        invariant Dir.ShiftLoop(State(), inum, runner, gap) == goal
        decreases MaxInt - runner
      {
        if runner + gap + BlockSize > MaxInt {
          return Err(Overflow);
        }
        ghost var s := State();
        ghost var before := moved[..];
        var read := ReadAll(runner + gap, moved, 0, BlockSize);
        ghost var o := Ops.ReadAll(s, inum, runner + gap, BlockSize);
        Dir.ShiftNext(s, inum, runner, gap, State(), o.res);
        if read.Err? {
          return Err(read.error);
        }
        if read.value == 0 {
          return Ok(());
        }
        assert moved[0..read.value] == o.res.value;
        var w := WriteAll(runner, moved, 0, read.value);
        if w.Err? {
          return Err(w.error);
        }
        runner := runner + read.value;
      }
    }

    /** DeleteNode: the entry of `file` removed from the directory, the bytes after
        it moved down and Size lowered by the entry's length. */
    method DeleteNode(file: BobFsNode) returns (r: Result<()>)
      requires Valid()
      modifies this, scratch, source, table
      ensures Valid() && Ops.Out(State(), r) == Dir.DeleteNode(old(State()), inum, file.inum)
    {
      var c := CheckDir();
      if c.Err? {
        return Err(c.error);
      }
      var f := SeekEntry(file.inum);
      r := DeleteFound(f);
    }

    /** The rest of DeleteNode once the scan has ended in `f`: the compaction, then
        Size lowered. */
    method DeleteFound(f: Result<(int, DirEntry)>) returns (r: Result<()>)
      requires Valid()
      requires f.Ok? ==> 0 <= f.value.0 && f.value.0 + 8 + |f.value.1.name| <= MaxInt
      modifies this, scratch, source, table
      ensures Valid() && Ops.Out(State(), r) == Dir.DeleteFound(Ops.Out(old(State()), f), inum)
    {
      if f.Err? {
        return Err(f.error);
      }
      var gap := 8 + |f.value.1.name|;
      r := Shift(f.value.0, gap);
      if r.Err? {
        return;
      }
      ghost var m := State();
      Shrink(gap);
      assert State() == Dir.Shrink(Ops.Out(m, Ok(())), inum, gap).st;
      r := Ok(());
    }

    /** The end of DeleteNode: `Size -= gap`, with uint wrap-around. */
    method Shrink(gap: int)
      requires Valid() && 0 < gap <= MaxInt
      modifies this, scratch, source
      ensures Valid() && State() == Dir.Shrink(Ops.Out(old(State()), Ok(())), inum, gap).st
    {
      GetNode();
      SetSize(ToUInt32(node.size as int - gap));
    }

    /** DirEntry.WriteTo at the end of the directory: the entry's bytes, built in an
        array of their own, written at Size. */
    method AddEntry(e: DirEntry) returns (r: Result<()>)
      requires Valid()
      modifies this, scratch, source, table
      ensures Valid() && Ops.Out(State(), r) == Dir.AddEntry(old(State()), inum, e)
    {
      var bytes := EncodeEntry(e);
      var buf := new byte[|bytes|](_ => 0);
      CopyTo(bytes, buf, 0);
      assert buf[0..|bytes|] == bytes;
      GetNode();
      var at := node.size as int;
      if at + |bytes| > MaxInt {
        return Err(Overflow);
      }
      var w := WriteAll(at, buf, 0, |bytes|);
      if w.Err? {
        return Err(w.error);
      }
      return Ok(());
    }

    /** `NumLinks` moved by `delta` with ushort wrap-around, then Commit. */
    method Relink(delta: int) returns (r: Result<()>)
      requires Valid()
      modifies this, scratch, source, table
      ensures Valid() && Ops.Out(State(), r) == Dir.Relink(old(State()), inum, delta)
    {
      ghost var g := State();
      Bump(delta);
      assert Dir.Relink(g, inum, delta) == Ops.Commit(State(), inum);
      r := Commit();
    }

    /** The NumLinks update of Relink, before the commit. */
    method Bump(delta: int)
      requires Valid()
      modifies this, scratch, source
      ensures Valid() && State() == Ops.SetNumLinks(old(State()), inum, Dir.Links(Ops.CurNode(old(State()), inum).numLinks as int + delta))
    {
      GetNode();
      SetNumLinks(Dir.Links(node.numLinks as int + delta));
    }

    /** LinkNode: an entry for `file` appended, then `file`'s NumLinks raised by one
        and `file` committed. */
    method LinkNode(name: Name, file: BobFsNode) returns (r: Result<()>)
      requires Valid() && file.Valid() && Apart(file)
      modifies this, scratch, source, table, file, file.scratch, file.table
      ensures Valid() && file.Valid()
      ensures Dir.Out2(Cache(), file.State(), r)
        == Dir.LinkNode(old(State()), inum, name, old(file.Cache()), file.inum)
    {
      var c := CheckDir();
      if c.Err? {
        return Err(c.error);
      }
      var a := AddEntry(DirEntry(file.inum, name));
      if a.Err? {
        return Err(a.error);
      }
      r := file.Relink(1);
    }

    /** LinkNode given this directory itself as the node to link: the entry for
        it appended, then its own NumLinks raised by one and the node committed. */
    method LinkSelf(name: Name) returns (r: Result<()>)
      requires Valid()
      modifies this, scratch, source, table
      ensures Valid() && Ops.Out(State(), r) == Dir.LinkSelf(old(State()), inum, name)
    {
      var c := CheckDir();
      if c.Err? {
        return Err(c.error);
      }
      var a := AddEntry(DirEntry(inum, name));
      if a.Err? {
        return Err(a.error);
      }
      r := Relink(1);
    }

    /** RenameNode: `file`'s entry deleted and linked again as `name`, then its
        NumLinks lowered by one and `file` committed. */
    method RenameNode(file: BobFsNode, name: Name) returns (r: Result<()>)
      requires Valid() && file.Valid() && Apart(file)
      modifies this, scratch, source, table, file, file.scratch, file.table
      ensures Valid() && file.Valid()
      ensures Dir.Out2(Cache(), file.State(), r)
        == Dir.RenameNode(old(State()), inum, old(file.Cache()), file.inum, name)
    {
      r := DeleteNode(file);
      if r.Err? {
        return;
      }
      r := LinkNode(name, file);
      if r.Err? {
        return;
      }
      r := file.Relink(-1);
    }

    /** The set-up of a node NewNode makes: Type, NumLinks 1, Size 0, Commit. */
    method Init(ntype: uint16) returns (r: Result<()>)
      requires Valid() && Cache() == Dir.FreshCache()
      modifies this, scratch, source, table
      ensures Valid()
      ensures Ops.Out(State(), r) == Dir.InitNode(old(BlockSource.ContentOf(source.sectors)), inum, ntype)
    {
      SetType(ntype);
      SetNumLinks(1);
      SetSize(0);
      r := Commit();
    }

    /** NewNode: the first free inode number claimed, an entry for it appended and
        the node it names set up; the new node is returned. */
    method NewNode(name: Name, ntype: uint16) returns (r: Result<BobFsNode>)
      requires Valid()
      modifies this, scratch, source, table
      ensures Valid()
      ensures var o := Dir.NewNode(old(State()), inum, name, ntype);
        Cache() == o.dir && BlockSource.ContentOf(source.sectors) == o.other.disk &&
        (r.Err? <==> o.res.Err?) && (r.Err? ==> r.error == o.res.error) &&
        (r.Ok? ==> fresh(r.value) && r.value.Valid() && r.value.source == source &&
                   r.value.inum == o.res.value && r.value.State() == o.other)
    {
      var c := CheckDir();
      if c.Err? {
        return Err(c.error);
      }
      var i := ClaimBit(InodeBitmapBlock);
      if i == -1 {
        return Err(NoFreeInode);
      }
      var a := AddEntry(DirEntry(i as uint32, name));
      if a.Err? {
        return Err(a.error);
      }
      var made := new BobFsNode(source, i as uint32);
      var u := made.Init(ntype);
      if u.Err? {
        return Err(u.error);
      }
      return Ok(made);
    }
  }
}
