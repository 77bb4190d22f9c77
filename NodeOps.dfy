/** BobFsNode on values: the device content together with one node's caches,
    and what each of the node's operations makes of them.  Every function here
    follows the C# member of the same name step by step, property getter by
    property getter, and returns the state it leaves with its outcome. */
module NodeOps {
  import opened Bytes
  import opened Layout
  import opened Bitmap
  import BlockSource

  /** Device offsets are .NET ints: the device is seen as its first 2^31 bytes. */
  const DeviceSize: int := BlockSource.DeviceSize

  /** The largest inode number whose 16-byte record ends within the int range. */
  const MaxInum: int := (DeviceSize - BlockSize * InodeTableBlock - NodeSize) / NodeSize

  /** `(int) (BobFs.BlockSize*3 + NodeSize*Inum)`: where inode `inum` is stored. */
  function NodeOffset(inum: int): int
  {
    BlockSize * InodeTableBlock + NodeSize * inum
  }

  /** A block whose bytes all lie at int offsets. */
  predicate BlockOk(b: int)
  {
    0 <= b && BlockSize * b + BlockSize <= DeviceSize
  }

  /** The node's private caches: `_node` with its Modified flag and `_nodeValid`,
      `_indirect` with its Modified flag and `_indirectValid`. */
  datatype Cache = Cache(node: Inode, nodeValid: bool, nodeModified: bool,
                         table: seq<uint32>, indirectValid: bool, indirectModified: bool)

  /** The device content and the node's caches. */
  datatype State = State(disk: seq<byte>, cache: Cache)

  /** What an operation leaves behind and what it yields (or the exception it throws). */
  datatype Out<T> = Out(st: State, res: Result<T>)

  predicate Shaped(s: State)
  {
    |s.disk| == DeviceSize && |s.cache.table| == IndirectCount
  }

  /** A node number the model can address. */
  predicate InumOk(inum: int)
  {
    0 <= inum <= MaxInum
  }

  // ------------------------------------------------------------------ inode

  /** The inode the Node getter yields: the cached one, or the stored record. */
  function CurNode(s: State, inum: int): Inode
    requires Shaped(s) && InumOk(inum)
  {
    if s.cache.nodeValid then s.cache.node else DecodeInode(s.disk, NodeOffset(inum))
  }

  /** The Node getter: loads the record when the cache is invalid, clearing Modified. */
  function LoadNode(s: State, inum: int): (r: State)
    requires Shaped(s) && InumOk(inum)
    ensures Shaped(r) && r.disk == s.disk && r.cache.nodeValid
    ensures r.cache.node == CurNode(s, inum)
    ensures r.cache.table == s.cache.table && r.cache.indirectValid == s.cache.indirectValid
    ensures r.cache.indirectModified == s.cache.indirectModified
  {
    if s.cache.nodeValid then s
    else s.(cache := s.cache.(node := CurNode(s, inum), nodeValid := true, nodeModified := false))
  }

  /** The node after one of the Inode setters: loaded, changed, marked modified. */
  function Updated(s: State, inum: int, n: Inode): (r: State)
    requires Shaped(s) && InumOk(inum)
    ensures Shaped(r) && r.disk == s.disk
  {
    var t := LoadNode(s, inum);
    t.(cache := t.cache.(node := n, nodeModified := true))
  }

  function SetType(s: State, inum: int, v: uint16): (r: State)
    requires Shaped(s) && InumOk(inum)
    ensures Shaped(r) && r.disk == s.disk
    ensures CurNode(r, inum) == CurNode(s, inum).(ntype := v)
  {
    Updated(s, inum, CurNode(s, inum).(ntype := v))
  }

  function SetNumLinks(s: State, inum: int, v: uint16): (r: State)
    requires Shaped(s) && InumOk(inum)
    ensures Shaped(r) && r.disk == s.disk
    ensures CurNode(r, inum) == CurNode(s, inum).(numLinks := v)
  {
    Updated(s, inum, CurNode(s, inum).(numLinks := v))
  }

  function SetSize(s: State, inum: int, v: uint32): (r: State)
    requires Shaped(s) && InumOk(inum)
    ensures Shaped(r) && r.disk == s.disk
    ensures CurNode(r, inum) == CurNode(s, inum).(size := v)
  {
    Updated(s, inum, CurNode(s, inum).(size := v))
  }

  function SetDirect(s: State, inum: int, v: uint32): (r: State)
    requires Shaped(s) && InumOk(inum)
    ensures Shaped(r) && r.disk == s.disk
    ensures CurNode(r, inum) == CurNode(s, inum).(directBlock := v)
  {
    Updated(s, inum, CurNode(s, inum).(directBlock := v))
  }

  /** The IndirectBlock setter also drops the cached table. */
  function SetIndirect(s: State, inum: int, v: uint32): (r: State)
    requires Shaped(s) && InumOk(inum)
    ensures Shaped(r) && r.disk == s.disk && !r.cache.indirectValid
    ensures CurNode(r, inum) == CurNode(s, inum).(indirectBlock := v)
  {
    var t := Updated(s, inum, CurNode(s, inum).(indirectBlock := v));
    t.(cache := t.cache.(indirectValid := false))
  }

  // --------------------------------------------------------- indirect table

  /** The Indirect getter: the cached table, or the table stored in the indirect block. */
  function LoadTable(s: State, inum: int): (o: Out<()>)
    requires Shaped(s) && InumOk(inum)
    ensures Shaped(o.st) && o.st.disk == s.disk
    ensures o.res.Ok? ==> o.st.cache.indirectValid
    ensures o.res.Err? ==> o.res.error in {IndirectMissing, BadBlock}
  {
    if s.cache.indirectValid then Out(s, Ok(()))
    else
      var t := LoadNode(s, inum);
      var ib := t.cache.node.indirectBlock;
      if ib == 0 then Out(t, Err(IndirectMissing))
      else if !BlockOk(ib) then Out(t, Err(BadBlock))
      else
        var table := DecodeWords(t.disk, BlockSize * ib, IndirectCount);
        Out(t.(cache := t.cache.(table := table, indirectValid := true, indirectModified := false)), Ok(()))
  }

  /** PartBlockNum: the block holding part `part` of the file (0 for a hole). */
  function PartBlockNum(s: State, inum: int, part: int): (o: Out<uint32>)
    requires Shaped(s) && InumOk(inum) && 0 <= part
    ensures Shaped(o.st) && o.st.disk == s.disk
  {
    var t := LoadNode(s, inum);
    var n := t.cache.node;
    if part > CeilDiv(n.size, BlockSize) then Out(t, Err(PartInvalid))
    else if part > 0 && n.indirectBlock == 0 then Out(t, Ok(0))
    else if part == 0 then Out(t, Ok(n.directBlock))
    else
      var u := LoadTable(t, inum);
      if u.res.Err? then Out(u.st, Err(u.res.error))
      else if part - 1 >= IndirectCount then Out(u.st, Err(IndexOutOfRange))
      else Out(u.st, Ok(u.st.cache.table[part - 1]))
  }

  // ------------------------------------------------------------- allocation

  /** The bytes of block `blk`. */
  function BlockBytes(disk: seq<byte>, blk: int): (r: seq<byte>)
    requires |disk| == DeviceSize && BlockOk(blk)
    ensures |r| == BlockSize
  {
    disk[BlockSize * blk..BlockSize * blk + BlockSize]
  }

  /** The scan FindFreeBlock and NewNode run over bitmap block `blk`: the first clear
      bit is set and the bitmap written back; -1, with nothing written, when every
      bit is set. */
  function ClaimBit(disk: seq<byte>, blk: int): (r: (seq<byte>, int))
    requires |disk| == DeviceSize && BlockOk(blk)
    ensures |r.0| == DeviceSize
    ensures r.1 == FirstClear(BlockBytes(disk, blk), 0)
  {
    var bm := BlockBytes(disk, blk);
    var i := FirstClear(bm, 0);
    if i == -1 then (disk, -1) else (Splice(disk, BlockSize * blk, SetBit(bm, i)), i)
  }

  /** The claim on bitmap block `blk` is first fit: -1, with the device untouched,
      exactly when every bit is set; otherwise a clear bit with every earlier bit
      set, and the block written back is the bitmap with that bit set, every other
      byte of the device kept. */
  lemma ClaimBitEffect(disk: seq<byte>, blk: int)
    requires |disk| == DeviceSize && BlockOk(blk)
    ensures var (d, i) := ClaimBit(disk, blk);
      var bm := BlockBytes(disk, blk);
      |d| == |disk| &&
      (i == -1 <==> forall j :: 0 <= j < BitmapBits ==> Bit(bm, j)) &&
      (i == -1 ==> d == disk) &&
      (i != -1 ==>
         0 <= i < BitmapBits && !Bit(bm, i) && (forall j :: 0 <= j < i ==> Bit(bm, j)) &&
         BlockBytes(d, blk) == SetBit(bm, i) &&
         forall a :: 0 <= a < |disk| && !(BlockSize * blk <= a < BlockSize * blk + BlockSize) ==> d[a] == disk[a])
  {
    var bm := BlockBytes(disk, blk);
    var i := FirstClear(bm, 0);
    if i != -1 {
      SpliceAt(disk, BlockSize * blk, SetBit(bm, i));
    }
  }

  /** FindFreeBlock: the first free data block, marked used; -1 when there is none. */
  function FindFreeBlock(s: State): (r: (State, int))
    requires Shaped(s)
    ensures Shaped(r.0) && r.0.cache == s.cache
    ensures r.1 == -1 || FirstDataBlock <= r.1 < FirstDataBlock + BitmapBits
  {
    var (disk, i) := ClaimBit(s.disk, BlockBitmapBlock);
    (s.(disk := disk), if i == -1 then -1 else i + FirstDataBlock)
  }

  /** AssignBlock: gives part `part` a freshly claimed block, claiming the indirect
      block first when part `part` needs one and there is none. */
  function AssignBlock(s: State, inum: int, part: int): (o: Out<uint32>)
    requires Shaped(s) && InumOk(inum) && 0 <= part
    ensures Shaped(o.st)
  {
    if part >= 1 + IndirectCount then Out(s, Err(InvalidPart))
    else if part == 0 then AssignDirect(s, inum)
    else AssignEntry(LoadTable(WithIndirect(s, inum), inum), part)
  }

  /** Part 0: a freshly claimed block becomes the direct block. */
  function AssignDirect(s: State, inum: int): (o: Out<uint32>)
    requires Shaped(s) && InumOk(inum)
    ensures Shaped(o.st)
  {
    var (t, b) := FindFreeBlock(s);
    var u := SetDirect(t, inum, ToUInt32(b));
    Out(u, Ok(u.cache.node.directBlock))
  }

  /** The node, loaded, with a freshly claimed indirect block when it has none. */
  function WithIndirect(s: State, inum: int): (r: State)
    requires Shaped(s) && InumOk(inum)
    ensures Shaped(r)
  {
    var t := LoadNode(s, inum);
    if t.cache.node.indirectBlock == 0 then
      var (v, b) := FindFreeBlock(t);
      SetIndirect(v, inum, ToUInt32(b))
    else t
  }

  /** Parts past 0, once the table is loaded into `w`: a freshly claimed block goes
      in the part's entry, which must be empty. */
  function AssignEntry(w: Out<()>, part: int): (o: Out<uint32>)
    requires Shaped(w.st) && 1 <= part <= IndirectCount
    ensures Shaped(o.st)
  {
    if w.res.Err? then Out(w.st, Err(w.res.error))
    else if w.st.cache.table[part - 1] != 0 then Out(w.st, Err(PartAssigned))
    else
      var (x, b) := FindFreeBlock(w.st);
      var y := x.(cache := x.cache.(table := x.cache.table[part - 1 := ToUInt32(b)], indirectModified := true));
      Out(y, Ok(ToUInt32(b)))
  }

  // -------------------------------------------------------------- transfers

  /** ReadBlock and WriteBlock's length: `n` bytes, cut off at the end of the block. */
  function BlockCount(blockOffset: int, n: int): int
  {
    (if blockOffset + n > BlockSize then BlockSize else blockOffset + n) - blockOffset
  }

  /** A request of at least one byte from within a block moves at least one byte and
      no more than requested. */
  lemma BlockCountBounds(offset: int, n: int)
    requires 0 <= offset && 0 < n
    ensures 0 < BlockCount(offset % BlockSize, n) <= n
  {
  }

  /** The end of Read once the part's block is looked up: the bytes of the request
      that lie in that block. */
  function Fetch(u: Out<uint32>, offset: int, n: int): (o: Out<seq<byte>>)
    requires Shaped(u.st) && 0 <= offset && 0 < n
    ensures o.st == u.st
    ensures o.res.Ok? ==> |o.res.value| == BlockCount(offset % BlockSize, n)
  {
    var start := offset % BlockSize;
    if u.res.Err? then Out(u.st, Err(u.res.error))
    else if !BlockOk(u.res.value) then Out(u.st, Err(BadBlock))
    else
      var at := BlockSize * u.res.value + start;
      Out(u.st, Ok(u.st.disk[at..at + BlockCount(start, n)]))
  }

  /** Fetch from block `block` in closed form: the bytes of the request in the block,
      `count` of them, or BadBlock. */
  lemma FetchEffect(s: State, block: uint32, offset: int, n: int, count: int)
    requires Shaped(s) && 0 <= offset && 0 < n
    requires count == BlockCount(offset % BlockSize, n)
    ensures Fetch(Out(s, Ok(block)), offset, n)
      == if BlockOk(block) then
           Out(s, Ok(s.disk[BlockSize * block + offset % BlockSize..BlockSize * block + offset % BlockSize + count]))
         else Out(s, Err(BadBlock))
  {
  }

  /** Read: what one call moves, from the block holding `offset` up to at most its end;
      nothing when the part lies past the one holding the end of the file. */
  function Read(s: State, inum: int, offset: int, n: int): (o: Out<seq<byte>>)
    requires Shaped(s) && InumOk(inum) && 0 <= offset && 0 < n
    ensures Shaped(o.st) && o.st.disk == s.disk
    ensures o.res.Ok? ==> |o.res.value| <= n
  {
    var part := offset / BlockSize;
    var t := LoadNode(s, inum);
    if part > t.cache.node.size as int / BlockSize then Out(t, Ok([]))
    else Fetch(PartBlockNum(t, inum, part), offset, n)
  }

  /** The first half of Write: Size raised to cover the request, then the block of
      the part holding `offset`, assigned when the part has none. */
  function BlockFor(s: State, inum: int, offset: int, n: int): (o: Out<uint32>)
    requires Shaped(s) && InumOk(inum) && 0 <= offset && 0 < n && offset + n <= MaxInt
    ensures Shaped(o.st)
  {
    FindOrAssign(Cover(s, inum, offset + n), inum, offset / BlockSize)
  }

  /** Size raised, when it falls short, to cover a request that ends at `end`. */
  function Cover(s: State, inum: int, end: int): (r: State)
    requires Shaped(s) && InumOk(inum) && 0 <= end <= MaxInt
    ensures Shaped(r) && r.disk == s.disk && CurNode(r, inum).size as int >= end
  {
    var t := LoadNode(s, inum);
    if end > t.cache.node.size as int then SetSize(t, inum, end as uint32) else t
  }

  /** The block of part `part`, assigned when the part has none. */
  function FindOrAssign(s: State, inum: int, part: int): (o: Out<uint32>)
    requires Shaped(s) && InumOk(inum) && 0 <= part
    ensures Shaped(o.st)
  {
    var u := PartBlockNum(s, inum, part);
    if u.res.Err? || u.res.value != 0 then u else AssignBlock(u.st, inum, part)
  }

  /** The second half of Write: the bytes of the request that fit in the block are
      stored there. */
  function Store(v: Out<uint32>, offset: int, data: seq<byte>): (o: Out<int>)
    requires Shaped(v.st) && 0 <= offset && 0 < |data|
    ensures Shaped(o.st) && o.st.cache == v.st.cache
    ensures o.res.Ok? ==> o.res.value == BlockCount(offset % BlockSize, |data|)
  {
    var start := offset % BlockSize;
    if v.res.Err? then Out(v.st, Err(v.res.error))
    else if !BlockOk(v.res.value) then Out(v.st, Err(BadBlock))
    else
      var count := BlockCount(start, |data|);
      Out(v.st.(disk := Splice(v.st.disk, BlockSize * v.res.value + start, data[..count])), Ok(count))
  }

  /** What Store leaves, given the count and device content that storing into block
      `block` produced. */
  lemma StoreEffect(s: State, block: uint32, offset: int, data: seq<byte>, count: int,
                    r: Result<int>, disk: seq<byte>)
    requires Shaped(s) && 0 <= offset && 0 < |data|
    requires count == BlockCount(offset % BlockSize, |data|)
    requires r == if BlockOk(block) then Ok(count) else Err(BadBlock)
    requires r.Ok? ==> disk == Splice(s.disk, BlockSize * block + offset % BlockSize, data[..count])
    requires r.Err? ==> disk == s.disk
    ensures Out(s.(disk := disk), r) == Store(Out(s, Ok(block)), offset, data)
  {
  }

  /** Write: raises Size to cover the request, finds or assigns the part's block and
      stores what fits in that block. */
  function Write(s: State, inum: int, offset: int, data: seq<byte>): (o: Out<int>)
    requires Shaped(s) && InumOk(inum) && 0 <= offset && 0 < |data| && offset + |data| <= MaxInt
    ensures Shaped(o.st)
    ensures o.res.Ok? ==> 0 < o.res.value <= |data|
  {
    Store(BlockFor(s, inum, offset, |data|), offset, data)
  }

  /** The loop of ReadAll over a request already cut off at the end of the file, with
      `got` read so far: it stops when nothing is left to read. */
  function ReadLoop(s: State, inum: int, offset: int, n: int, got: seq<byte>): (o: Out<seq<byte>>)
    requires Shaped(s) && InumOk(inum) && 0 <= offset
    ensures Shaped(o.st) && o.st.disk == s.disk
    ensures o.res.Ok? ==> |o.res.value| <= |got| + (if n > 0 then n else 0)
    decreases if n > 0 then n else 0, 1
  {
    if n <= 0 then Out(s, Ok(got)) else ReadStep(s, inum, offset, n, got)
  }

  /** One round of ReadLoop: a chunk is read; the loop stops at an exception or at a
      chunk that moves nothing, and goes on past any other. */
  function ReadStep(s: State, inum: int, offset: int, n: int, got: seq<byte>): (o: Out<seq<byte>>)
    requires Shaped(s) && InumOk(inum) && 0 <= offset && 0 < n
    ensures Shaped(o.st) && o.st.disk == s.disk
    ensures o.res.Ok? ==> |o.res.value| <= |got| + n
    decreases n, 0
  {
    var r := Read(s, inum, offset, n);
    if r.res.Err? then Out(r.st, Err(r.res.error))
    else if |r.res.value| == 0 then Out(r.st, Ok(got))
    else ReadLoop(r.st, inum, offset + |r.res.value|, n - |r.res.value|, got + r.res.value)
  }

  /** The rest of a read loop, from `s` at `offset` with `n` bytes still wanted and
      `got` read so far, ends in `o`. */
  predicate ReadEnds(s: State, inum: int, offset: int, n: int, got: seq<byte>, o: Out<seq<byte>>)
    requires Shaped(s) && InumOk(inum) && 0 <= offset
  {
    ReadLoop(s, inum, offset, n, got) == o
  }

  /** A round of the read loop, which leaves state `t` and yields `r`: an exception or
      a chunk that moves nothing ends the loop. */
  lemma {:induction false} ReadStop(s: State, inum: int, offset: int, n: int, got: seq<byte>,
                                    t: State, r: Result<seq<byte>>, goal: Out<seq<byte>>)
    requires Shaped(s) && InumOk(inum) && 0 <= offset && 0 < n
    requires Out(t, r) == Read(s, inum, offset, n)
    requires ReadEnds(s, inum, offset, n, got, goal)
    ensures Shaped(t)
    ensures r.Err? ==> Out(t, Err(r.error)) == goal
    ensures r.Ok? && |r.value| == 0 ==> Out(t, Ok(got)) == goal
  {
    assert ReadStep(s, inum, offset, n, got) == goal;
  }

  /** A round of the read loop that moves bytes hands on to the rest, at `next` with
      `left` bytes still wanted and `more` read. */
  lemma {:induction false} ReadNext(s: State, inum: int, offset: int, n: int, got: seq<byte>,
                                    t: State, r: Result<seq<byte>>, goal: Out<seq<byte>>,
                                    next: int, left: int, more: seq<byte>)
    requires Shaped(s) && InumOk(inum) && 0 <= offset && 0 < n
    requires Out(t, r) == Read(s, inum, offset, n) && r.Ok? && |r.value| > 0
    requires ReadEnds(s, inum, offset, n, got, goal)
    requires next == offset + |r.value| && left == n - |r.value| && more == got + r.value
    ensures Shaped(t) && |r.value| <= n
    ensures ReadEnds(t, inum, next, left, more, goal)
  {
    assert ReadStep(s, inum, offset, n, got) == goal;
  }

  /** ReadAll: the request is cut off at the end of the file, then read chunk by chunk. */
  function ReadAll(s: State, inum: int, offset: int, n: int): (o: Out<seq<byte>>)
    requires Shaped(s) && InumOk(inum) && 0 <= offset
    ensures Shaped(o.st) && o.st.disk == s.disk
    ensures o.res.Ok? ==> |o.res.value| <= (if n > 0 then n else 0)
  {
    var t := LoadNode(s, inum);
    var size := t.cache.node.size as int;
    ReadLoop(t, inum, offset, if offset + n > size then size - offset else n, [])
  }

  /** The loop of WriteAll at `offset`, with `rest` still to write and `total` bytes
      written: it stops when nothing is left. */
  function WriteLoop(s: State, inum: int, offset: int, rest: seq<byte>, total: int): (o: Out<int>)
    requires Shaped(s) && InumOk(inum) && 0 <= offset && offset + |rest| <= MaxInt
    ensures Shaped(o.st)
    ensures o.res.Ok? ==> o.res.value == total + |rest|
    decreases |rest|, 2
  {
    if |rest| == 0 then Out(s, Ok(total)) else WriteStep(s, inum, offset, rest, total)
  }

  /** One round of WriteLoop, in the two halves of Write: first the block for the
      rest of the request... */
  function WriteStep(s: State, inum: int, offset: int, rest: seq<byte>, total: int): (o: Out<int>)
    requires Shaped(s) && InumOk(inum) && 0 <= offset && 0 < |rest| && offset + |rest| <= MaxInt
    ensures Shaped(o.st)
    ensures o.res.Ok? ==> o.res.value == total + |rest|
    decreases |rest|, 1
  {
    StoreStep(BlockFor(s, inum, offset, |rest|), inum, offset, rest, total)
  }

  /** ...then the bytes stored there; the loop stops at an exception and goes on
      past the bytes stored. */
  function StoreStep(v: Out<uint32>, inum: int, offset: int, rest: seq<byte>, total: int): (o: Out<int>)
    requires Shaped(v.st) && InumOk(inum) && 0 <= offset && 0 < |rest| && offset + |rest| <= MaxInt
    ensures Shaped(o.st)
    ensures o.res.Ok? ==> o.res.value == total + |rest|
    decreases |rest|, 0
  {
    var w := Store(v, offset, rest);
    if w.res.Err? then Out(w.st, Err(w.res.error))
    else
      assert 0 < w.res.value <= |rest| by { if v.res.Ok? && BlockOk(v.res.value) { BlockCountBounds(offset, |rest|); } }
      WriteLoop(w.st, inum, offset + w.res.value, rest[w.res.value..], total + w.res.value)
  }

  /** The rest of a write loop, from `s`, ends in `o`. */
  predicate WriteEnds(s: State, inum: int, offset: int, rest: seq<byte>, total: int, o: Out<int>)
    requires Shaped(s) && InumOk(inum) && 0 <= offset && offset + |rest| <= MaxInt
  {
    WriteLoop(s, inum, offset, rest, total) == o
  }

  /** The rest of a write loop, from the lookup `v` of the block for `offset`, ends in `o`. */
  predicate StoreEnds(v: Out<uint32>, inum: int, offset: int, rest: seq<byte>, total: int, o: Out<int>)
    requires Shaped(v.st) && InumOk(inum) && 0 <= offset && 0 < |rest| && offset + |rest| <= MaxInt
  {
    StoreStep(v, inum, offset, rest, total) == o
  }

  /** The first half of a round: an exception ends the loop; otherwise the loop goes
      on with block `b` found, in state `t`. */
  lemma {:induction false} BlockForNext(s: State, inum: int, offset: int, rest: seq<byte>, total: int,
                                        t: State, b: Result<uint32>, goal: Out<int>)
    requires Shaped(s) && InumOk(inum) && 0 <= offset && 0 < |rest| && offset + |rest| <= MaxInt
    requires Out(t, b) == BlockFor(s, inum, offset, |rest|)
    requires WriteEnds(s, inum, offset, rest, total, goal)
    ensures Shaped(t)
    ensures b.Err? ==> Out(t, Err(b.error)) == goal
    ensures b.Ok? ==> StoreEnds(Out(t, Ok(b.value)), inum, offset, rest, total, goal)
  {
    assert WriteStep(s, inum, offset, rest, total) == goal;
    if b.Err? {
      assert StoreStep(Out(t, b), inum, offset, rest, total) == goal;
    }
  }

  /** The second half of a round: an exception ends the loop; otherwise it goes on
      past the bytes stored, in state `u`. */
  lemma {:induction false} StoreNext(t: State, block: uint32, inum: int, offset: int, rest: seq<byte>, total: int,
                                     u: State, r: Result<int>, goal: Out<int>)
    requires Shaped(t) && InumOk(inum) && 0 <= offset && 0 < |rest| && offset + |rest| <= MaxInt
    requires Out(u, r) == Store(Out(t, Ok(block)), offset, rest)
    requires StoreEnds(Out(t, Ok(block)), inum, offset, rest, total, goal)
    ensures r.Err? ==> Out(u, r) == goal
    ensures r.Ok? ==>
      0 < r.value <= |rest| &&
      WriteEnds(u, inum, offset + r.value, rest[r.value..], total + r.value, goal)
  {
    var v := Out(t, Ok(block));
    assert StoreStep(v, inum, offset, rest, total) == goal;
    if r.Ok? {
      BlockCountBounds(offset, |rest|);
      assert StoreStep(v, inum, offset, rest, total) == WriteLoop(u, inum, offset + r.value, rest[r.value..], total + r.value);
    }
  }

  /** WriteAll: the request written chunk by chunk; the count is the whole request. */
  function WriteAll(s: State, inum: int, offset: int, data: seq<byte>): (o: Out<int>)
    requires Shaped(s) && InumOk(inum) && 0 <= offset && offset + |data| <= MaxInt
    ensures Shaped(o.st)
    ensures o.res.Ok? ==> o.res.value == |data|
  {
    WriteLoop(s, inum, offset, data, 0)
  }

  // ------------------------------------------------------------ persistence

  /** Commit: stores the inode when it is marked modified and the table when there is
      an indirect block and the table is marked modified; neither flag is cleared. */
  function Commit(s: State, inum: int): (o: Out<()>)
    requires Shaped(s) && InumOk(inum)
    ensures Shaped(o.st) && o.st.cache.nodeValid
  {
    CommitTable(CommitNode(s, inum), inum)
  }

  /** The first half of Commit: the inode, loaded, stored in the inode table when it
      is marked modified. */
  function CommitNode(s: State, inum: int): (r: State)
    requires Shaped(s) && InumOk(inum)
    ensures Shaped(r) && r.cache == LoadNode(s, inum).cache
  {
    var t := LoadNode(s, inum);
    if t.cache.nodeModified then t.(disk := Splice(t.disk, NodeOffset(inum), EncodeInode(t.cache.node)))
    else t
  }

  /** The second half of Commit: the table stored in the indirect block when there is
      one and the table is marked modified. */
  function CommitTable(s: State, inum: int): (o: Out<()>)
    requires Shaped(s) && InumOk(inum)
    ensures Shaped(o.st) && (s.cache.nodeValid ==> o.st.cache.nodeValid)
  {
    var ib := s.cache.node.indirectBlock;
    if ib == 0 then Out(s, Ok(()))
    else
      var v := LoadTable(s, inum);
      if v.res.Err? || !v.st.cache.indirectModified then v
      else if !BlockOk(ib) then Out(v.st, Err(BadBlock))
      else Out(v.st.(disk := Splice(v.st.disk, BlockSize * ib, EncodeWords(v.st.cache.table))), Ok(()))
  }

  /** What CommitTable leaves once the table of a node with indirect block `ib` is
      loaded into `v`, marked modified, and stored, producing `r` and device `disk`. */
  lemma CommitTableEffect(s: State, inum: int, ib: uint32, v: State, r: Result<()>, disk: seq<byte>)
    requires Shaped(s) && InumOk(inum)
    requires ib == s.cache.node.indirectBlock != 0
    requires Out(v, Ok(())) == LoadTable(s, inum) && v.cache.indirectModified
    requires r == if BlockOk(ib) then Ok(()) else Err(BadBlock)
    requires r.Ok? ==> disk == Splice(v.disk, BlockSize * ib, EncodeWords(v.cache.table))
    requires r.Err? ==> disk == v.disk
    ensures Out(v.(disk := disk), r) == CommitTable(s, inum)
  {
  }

  /** Invalidate: both caches are dropped. */
  function Invalidate(s: State): (r: State)
    ensures r.disk == s.disk && !r.cache.nodeValid && !r.cache.indirectValid
  {
    s.(cache := s.cache.(nodeValid := false, indirectValid := false))
  }
}
