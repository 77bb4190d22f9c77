/** What a node's writes do to its view.  A file BobFS has laid out (every part up
    to the end has a data block of its own) keeps its blocks under every write:
    an overwrite inside the file replaces exactly the bytes written, and any write
    that ends with the file still laid out reads back as what was written, with
    every byte it did not cover unchanged. */
module NodeWrite {
  import opened Bytes
  import opened Layout
  import opened NodeOps
  import opened NodeView
  import opened Bitmap

  /** A block FindFreeBlock can hand out: past the inode table, on the device. */
  predicate DataBlock(b: int)
  {
    FirstDataBlock <= b && BlockOk(b)
  }

  /** A file laid out as BobFS lays files out: every part up to the end of the file
      has a data block of its own, none of them the indirect block, which is a data
      block too when there is one. */
  predicate Laid(v: View)
    requires ViewOk(v)
  {
    (v.node.indirectBlock == 0 || DataBlock(v.node.indirectBlock)) &&
    (forall p :: 0 <= p < CeilDiv(v.node.size as int, BlockSize) ==>
       PartOf(v, p).Ok? && DataBlock(PartOf(v, p).value) && PartOf(v, p).value != v.node.indirectBlock) &&
    (forall p, q :: 0 <= p < q < CeilDiv(v.node.size as int, BlockSize) ==> PartOf(v, p) != PartOf(v, q))
  }

  /** `w` gives every part `v` gives a block the same block, and keeps `v`'s
      indirect block. */
  ghost predicate Keeps(v: View, w: View)
    requires ViewOk(v) && ViewOk(w)
  {
    (v.node.indirectBlock != 0 ==> w.node.indirectBlock == v.node.indirectBlock) &&
    forall p :: 0 <= p && PartOf(v, p).Ok? && PartOf(v, p).value != 0 ==> PartOf(w, p) == PartOf(v, p)
  }

  lemma KeepsTrans(u: View, v: View, w: View)
    requires ViewOk(u) && ViewOk(v) && ViewOk(w) && Keeps(u, v) && Keeps(v, w)
    ensures Keeps(u, w)
  {
  }

  /** A device offset within the block bitmap. */
  predicate InBitmap(a: int)
  {
    BlockSize * BlockBitmapBlock <= a < BlockSize * BlockBitmapBlock + BlockSize
  }

  /** `e` is `d` but for the block bitmap and the bytes `[lo, hi)`. */
  predicate SameOutside(d: seq<byte>, e: seq<byte>, lo: int, hi: int)
  {
    |e| == |d| && forall a :: 0 <= a < |d| && !InBitmap(a) && !(lo <= a < hi) ==> e[a] == d[a]
  }

  /** The inode after Size is raised to cover a request ending at `end`. */
  function Grown(n: Inode, end: int): (r: Inode)
    requires 0 <= end <= MaxInt
    ensures r.size as int == if end > n.size as int then end else n.size as int
  {
    if end > n.size as int then n.(size := end as uint32) else n
  }

  // ----------------------------------------------------------- a round

  /** Raising Size changes the view in Size alone. */
  lemma CoverView(s: State, inum: int, end: int)
    requires Shaped(s) && InumOk(inum) && 0 <= end <= MaxInt
    ensures var v := ViewOf(s, inum);
      ViewOf(Cover(s, inum, end), inum) == v.(node := Grown(v.node, end))
  {
    LoadNodeView(s, inum);
  }

  /** FindFreeBlock changes the device in the block bitmap alone, and hands out a
      data block or -1. */
  lemma ClaimView(s: State)
    requires Shaped(s)
    ensures var (t, b) := FindFreeBlock(s);
      SameOutside(s.disk, t.disk, 0, 0) && t.cache == s.cache && (b == -1 || DataBlock(b))
  {
    var (disk, i) := ClaimBit(s.disk, BlockBitmapBlock);
    if i != -1 {
      var bm := BlockBytes(s.disk, BlockBitmapBlock);
      SpliceAt(s.disk, BlockSize * BlockBitmapBlock, SetBit(bm, i));
    }
  }

  /** FindFreeBlock is first fit: -1, with nothing written, exactly when the block
      bitmap is full; otherwise the data block of the first clear bit, that bit set
      in the bitmap written back, and every byte outside the bitmap kept. */
  lemma FirstFitClaim(s: State)
    requires Shaped(s)
    ensures var (t, b) := FindFreeBlock(s);
      var bm := BlockBytes(s.disk, BlockBitmapBlock);
      var i := FirstClear(bm, 0);
      t.cache == s.cache &&
      (b == -1 <==> forall j :: 0 <= j < BitmapBits ==> Bit(bm, j)) &&
      (b == -1 ==> t == s) &&
      (b != -1 ==>
         b == i + FirstDataBlock && DataBlock(b) && (forall j :: 0 <= j < i ==> Bit(bm, j)) &&
         BlockBytes(t.disk, BlockBitmapBlock) == SetBit(bm, i) && SameOutside(s.disk, t.disk, 0, 0))
  {
    ClaimBitEffect(s.disk, BlockBitmapBlock);
  }

  /** A table that is not cached is read from the indirect block, which a change to
      the block bitmap leaves alone when it is not the bitmap itself. */
  lemma TableKept(s: State, t: State, inum: int, lo: int, hi: int)
    requires Shaped(s) && Shaped(t) && InumOk(inum)
    requires t.cache == s.cache && SameOutside(s.disk, t.disk, lo, hi)
    requires var ib := CurNode(s, inum).indirectBlock as int;
      s.cache.nodeValid && (ib == 0 || !BlockOk(ib) || s.cache.indirectValid ||
        (ib != BlockBitmapBlock && (hi <= BlockSize * ib || BlockSize * ib + BlockSize <= lo)))
    ensures ViewOf(t, inum) == ViewOf(s, inum).(disk := t.disk)
  {
    var ib := CurNode(s, inum).indirectBlock as int;
    if ib != 0 && BlockOk(ib) && !s.cache.indirectValid {
      var at := BlockSize * ib;
      assert s.disk[at..at + 4 * IndirectCount] == t.disk[at..at + 4 * IndirectCount] by {
        forall a | at <= a < at + 4 * IndirectCount ensures s.disk[a] == t.disk[a] {
          assert !InBitmap(a);
        }
      }
      WordsFromBytes(s.disk, at, t.disk, at, IndirectCount);
    }
  }

  /** Part 0 without a block: a freshly claimed block becomes the direct block. */
  lemma DirectFresh(u: State, inum: int)
    requires Shaped(u) && InumOk(inum) && u.cache.nodeValid
    requires CurNode(u, inum).indirectBlock != BlockBitmapBlock
    ensures var o, y := AssignDirect(u, inum), ViewOf(u, inum); var x := ViewOf(o.st, inum);
      o.res.Ok? && o.st.cache.nodeValid &&
      x == y.(disk := x.disk, node := y.node.(directBlock := o.res.value)) &&
      SameOutside(y.disk, x.disk, 0, 0) && (o.res.value == 0xFFFF_FFFF || DataBlock(o.res.value))
  {
    var (t, b) := FindFreeBlock(u);
    ClaimView(u);
    TableKept(u, t, inum, 0, 0);
  }

  /** A part past 0 whose table entry is empty, on a node with an indirect block:
      a freshly claimed block goes in the entry. */
  lemma EntryTable(u: State, inum: int, part: int)
    requires Shaped(u) && InumOk(inum) && u.cache.nodeValid && 1 <= part <= IndirectCount
    requires CurNode(u, inum).indirectBlock != 0
    requires TableOf(u, inum).Ok? && TableOf(u, inum).value[part - 1] == 0
    ensures var o, y := AssignBlock(u, inum, part), ViewOf(u, inum); var x := ViewOf(o.st, inum);
      o.res.Ok? && o.st.cache.nodeValid &&
      x == y.(disk := x.disk, table := Ok(y.table.value[part - 1 := o.res.value])) &&
      SameOutside(y.disk, x.disk, 0, 0) && (o.res.value == 0xFFFF_FFFF || DataBlock(o.res.value))
  {
    assert WithIndirect(u, inum) == u;
    var w := LoadTable(u, inum);
    LoadTableView(u, inum);
    ClaimView(w.st);
  }

  /** A part past 0 on a node without an indirect block: a freshly claimed block
      becomes the indirect block, its stale content the table, and a second freshly
      claimed block goes in the part's entry, which must be empty. */
  lemma EntryFresh(u: State, inum: int, part: int)
    requires Shaped(u) && InumOk(inum) && u.cache.nodeValid && 1 <= part <= IndirectCount
    requires CurNode(u, inum).indirectBlock == 0
    ensures var o, y := AssignBlock(u, inum, part), ViewOf(u, inum); var x := ViewOf(o.st, inum);
      o.res.Ok? ==>
        o.st.cache.nodeValid &&
        x.node == y.node.(indirectBlock := x.node.indirectBlock) && DataBlock(x.node.indirectBlock) &&
        x.table.Ok? && x.table.value[part - 1] == o.res.value &&
        SameOutside(y.disk, x.disk, 0, 0) && (o.res.value == 0xFFFF_FFFF || DataBlock(o.res.value))
  {
    var (v1, b1) := FindFreeBlock(u);
    ClaimView(u);
    var r := SetIndirect(v1, inum, ToUInt32(b1));
    assert WithIndirect(u, inum) == r;
    var w := LoadTable(r, inum);
    if w.res.Ok? {
      ClaimView(w.st);
    }
  }

  /** AssignBlock on a part without a block: the part gets the block it returns,
      every block the node had stays, and the device changes in the bitmap alone. */
  lemma AssignView(u: State, inum: int, part: int)
    requires Shaped(u) && InumOk(inum) && u.cache.nodeValid && 0 <= part
    requires PartOf(ViewOf(u, inum), part) == Ok(0)
    requires CurNode(u, inum).indirectBlock != BlockBitmapBlock
    ensures var o, y := AssignBlock(u, inum, part), ViewOf(u, inum); var x := ViewOf(o.st, inum);
      o.res.Ok? ==>
        o.st.cache.nodeValid && PartOf(x, part) == Ok(o.res.value) &&
        (o.st.cache.indirectValid || x.node.indirectBlock == y.node.indirectBlock) &&
        (part > 0 ==> o.st.cache.indirectValid) &&
        (x.node.indirectBlock == y.node.indirectBlock || DataBlock(x.node.indirectBlock)) &&
        (o.res.value == 0xFFFF_FFFF || DataBlock(o.res.value)) &&
        x.node.size == y.node.size && x.node.ntype == y.node.ntype && x.node.numLinks == y.node.numLinks &&
        Keeps(y, x) && SameOutside(y.disk, x.disk, 0, 0)
  {
    var y := ViewOf(u, inum);
    if part == 0 {
      DirectFresh(u, inum);
    } else if part <= IndirectCount {
      if y.node.indirectBlock == 0 {
        EntryFresh(u, inum, part);
      } else {
        EntryTable(u, inum, part);
      }
    }
  }

  /** Store into block `b`: the bytes that fit are copied there and nothing else
      changes; the view keeps its table unless the table is read from block `b`. */
  lemma StoreView(x: State, inum: int, b: uint32, offset: int, data: seq<byte>)
    requires Shaped(x) && InumOk(inum) && x.cache.nodeValid && BlockOk(b) && 0 <= offset && 0 < |data|
    ensures var o, start := Store(Out(x, Ok(b)), offset, data), offset % BlockSize;
      var count, y, w := BlockCount(start, |data|), ViewOf(x, inum), ViewOf(o.st, inum);
      var at := BlockSize * b + start;
      o.res == Ok(count) && 0 < count <= |data| && start + count <= BlockSize &&
      o.st.cache == x.cache && o.st.disk == Splice(x.disk, at, data[..count]) &&
      SameOutside(x.disk, o.st.disk, at, at + count) && w.node == y.node &&
      (x.cache.indirectValid || (y.node.indirectBlock as int != BlockBitmapBlock && y.node.indirectBlock != b) ==>
         w == y.(disk := w.disk))
  {
    var start := offset % BlockSize;
    var count := BlockCount(start, |data|);
    BlockCountBounds(offset, |data|);
    var at := BlockSize * b + start;
    var o := Store(Out(x, Ok(b)), offset, data);
    SpliceAt(x.disk, at, data[..count]);
    var ib := CurNode(x, inum).indirectBlock as int;
    if x.cache.indirectValid || (ib != BlockBitmapBlock && ib != b) {
      assert x.cache.indirectValid || ib == 0 || at + count <= BlockSize * ib || BlockSize * ib + BlockSize <= at;
      TableKept(x, o.st, inum, at, at + count);
    }
  }

  /** The block one round of WriteAll stores into, once it has succeeded. */
  function RoundBlock(w: View, offset: int): uint32
    requires ViewOk(w) && 0 <= offset
  {
    var p := PartOf(w, offset / BlockSize);
    if p.Ok? then p.value else 0
  }

  /** What a successful round leaves, with view `v` before it and `w` after it:
      the part holding `offset` has block `b`, the `count` bytes that fit in that
      block are stored there, Size covers the request, and the device changes
      nowhere else but in the block bitmap.  Every block the node had stays,
      unless the table is read from the very block written. */
  ghost predicate RoundOk(v: View, w: View, offset: int, data: seq<byte>, count: int)
    requires ViewOk(v) && ViewOk(w) && 0 <= offset && offset + |data| <= MaxInt
  {
    var b, start := RoundBlock(w, offset), offset % BlockSize;
    var at := BlockSize * b + start;
    PartOf(w, offset / BlockSize) == Ok(b) && b != 0 && BlockOk(b) &&
    count == BlockCount(start, |data|) && 0 < count <= |data| && start + count <= BlockSize &&
    w.node.size == Grown(v.node, offset + |data|).size &&
    w.node.ntype == v.node.ntype && w.node.numLinks == v.node.numLinks &&
    (v.node.indirectBlock != 0 ==> w.node.indirectBlock == v.node.indirectBlock) &&
    (v.node.indirectBlock == 0 || b != v.node.indirectBlock ==> Keeps(v, w)) &&
    SameOutside(v.disk, w.disk, at, at + count) && w.disk[at..at + count] == data[..count]
  }

  /** The first half of Write in terms of the view: Size raised, then the part's
      block looked up, and assigned when there is none. */
  lemma BlockForView(s: State, inum: int, offset: int, n: int)
    requires Shaped(s) && InumOk(inum) && 0 <= offset && 0 < n && offset + n <= MaxInt
    ensures var v, part := ViewOf(s, inum), offset / BlockSize;
      var u := PartBlockNum(Cover(s, inum, offset + n), inum, part);
      u.st.cache.nodeValid && ViewOf(u.st, inum) == v.(node := Grown(v.node, offset + n)) &&
      u.res == PartOf(v, part) && (part > 0 && u.res.Ok? && u.res.value != 0 ==> u.st.cache.indirectValid) &&
      BlockFor(s, inum, offset, n) == if u.res.Err? || u.res.value != 0 then u else AssignBlock(u.st, inum, part)
  {
    var v := ViewOf(s, inum);
    var part := offset / BlockSize;
    var t := Cover(s, inum, offset + n);
    CoverView(s, inum, offset + n);
    assert t.cache.nodeValid;
    var vt := ViewOf(t, inum);
    assert part <= CeilDiv(vt.node.size as int, BlockSize);
    PartBlockNumView(t, inum, part);
  }

  /** The second half of a round, once the part holding `offset` has block `b` in
      state `x`, which differs from view `v` as the first half leaves it. */
  lemma StoreRound(v: View, x: State, inum: int, b: uint32, offset: int, data: seq<byte>)
    requires ViewOk(v) && Shaped(x) && InumOk(inum) && x.cache.nodeValid && b != 0 && BlockOk(b)
    requires 0 <= offset && 0 < |data| && offset + |data| <= MaxInt
    requires v.node.indirectBlock as int != BlockBitmapBlock
    requires var y, part := ViewOf(x, inum), offset / BlockSize;
      PartOf(y, part) == Ok(b) && (part > 0 ==> x.cache.indirectValid) &&
      y.node.size == Grown(v.node, offset + |data|).size &&
      y.node.ntype == v.node.ntype && y.node.numLinks == v.node.numLinks &&
      (v.node.indirectBlock != 0 ==> y.node.indirectBlock == v.node.indirectBlock) &&
      (x.cache.indirectValid || y.node.indirectBlock == v.node.indirectBlock) &&
      (v.node.indirectBlock == 0 || b != v.node.indirectBlock ==> Keeps(v, y)) &&
      SameOutside(v.disk, y.disk, 0, 0)
    ensures var o := Store(Out(x, Ok(b)), offset, data);
      o.res.Ok? && ViewOf(o.st, inum).node == ViewOf(x, inum).node &&
      RoundOk(v, ViewOf(o.st, inum), offset, data, o.res.value)
  {
    var y := ViewOf(x, inum);
    var o := Store(Out(x, Ok(b)), offset, data);
    var w := ViewOf(o.st, inum);
    StoreView(x, inum, b, offset, data);
    var count := BlockCount(offset % BlockSize, |data|);
    var at := BlockSize * b + offset % BlockSize;
    SpliceSlice(x.disk, at, data[..count]);
    if x.cache.indirectValid || (y.node.indirectBlock as int != BlockBitmapBlock && y.node.indirectBlock != b) {
      assert w == y.(disk := w.disk);
    }
    assert PartOf(w, offset / BlockSize) == Ok(b);
    if v.node.indirectBlock == 0 || b != v.node.indirectBlock {
      assert Keeps(y, w);
      KeepsTrans(v, y, w);
    }
  }

  /** A round on a part that has a block. */
  lemma SettledRound(s: State, inum: int, offset: int, data: seq<byte>)
    requires Shaped(s) && InumOk(inum) && 0 <= offset && 0 < |data| && offset + |data| <= MaxInt
    requires CurNode(s, inum).indirectBlock as int != BlockBitmapBlock
    requires var p := PartOf(ViewOf(s, inum), offset / BlockSize); p.Ok? && p.value != 0
    ensures var o, v := Write(s, inum, offset, data), ViewOf(s, inum);
      (BlockOk(PartOf(v, offset / BlockSize).value) ==> o.res.Ok?) &&
      (o.res.Ok? ==>
         ViewOf(o.st, inum).node.indirectBlock == v.node.indirectBlock &&
         PartOf(ViewOf(o.st, inum), offset / BlockSize) == PartOf(v, offset / BlockSize) &&
         RoundOk(v, ViewOf(o.st, inum), offset, data, o.res.value))
  {
    var v := ViewOf(s, inum);
    var u := PartBlockNum(Cover(s, inum, offset + |data|), inum, offset / BlockSize);
    BlockForView(s, inum, offset, |data|);
    var b := u.res.value;
    assert Write(s, inum, offset, data) == Store(u, offset, data);
    if BlockOk(b) {
      assert Keeps(v, ViewOf(u.st, inum));
      StoreRound(v, u.st, inum, b, offset, data);
    }
  }

  /** AssignBlock then Store, from state `u` whose view is `v` with Size raised. */
  lemma FreshStore(v: View, u: State, inum: int, offset: int, data: seq<byte>)
    requires ViewOk(v) && Shaped(u) && InumOk(inum) && u.cache.nodeValid
    requires 0 <= offset && 0 < |data| && offset + |data| <= MaxInt
    requires v.node.indirectBlock as int != BlockBitmapBlock
    requires ViewOf(u, inum) == v.(node := Grown(v.node, offset + |data|))
    requires PartOf(v, offset / BlockSize) == Ok(0)
    ensures var o := Store(AssignBlock(u, inum, offset / BlockSize), offset, data); var w := ViewOf(o.st, inum);
      o.res.Ok? ==>
        (w.node.indirectBlock == v.node.indirectBlock || DataBlock(w.node.indirectBlock)) &&
        RoundOk(v, w, offset, data, o.res.value)
  {
    var part := offset / BlockSize;
    var a := AssignBlock(u, inum, part);
    AssignView(u, inum, part);
    if a.res.Ok? && BlockOk(a.res.value) {
      var x := ViewOf(a.st, inum);
      assert Keeps(v, ViewOf(u, inum));
      KeepsTrans(v, ViewOf(u, inum), x);
      StoreRound(v, a.st, inum, a.res.value, offset, data);
    }
  }

  /** A round on a part without a block, which AssignBlock gives one. */
  lemma FreshRound(s: State, inum: int, offset: int, data: seq<byte>)
    requires Shaped(s) && InumOk(inum) && 0 <= offset && 0 < |data| && offset + |data| <= MaxInt
    requires CurNode(s, inum).indirectBlock as int != BlockBitmapBlock
    requires PartOf(ViewOf(s, inum), offset / BlockSize) == Ok(0)
    ensures var o, v := Write(s, inum, offset, data), ViewOf(s, inum); var w := ViewOf(o.st, inum);
      o.res.Ok? ==>
        (w.node.indirectBlock == v.node.indirectBlock || DataBlock(w.node.indirectBlock)) &&
        RoundOk(v, w, offset, data, o.res.value)
  {
    var u := PartBlockNum(Cover(s, inum, offset + |data|), inum, offset / BlockSize);
    BlockForView(s, inum, offset, |data|);
    assert Write(s, inum, offset, data) == Store(AssignBlock(u.st, inum, offset / BlockSize), offset, data);
    FreshStore(ViewOf(s, inum), u.st, inum, offset, data);
  }

  /** One Write, whichever way the part gets its block. */
  lemma WriteView(s: State, inum: int, offset: int, data: seq<byte>)
    requires Shaped(s) && InumOk(inum) && 0 <= offset && 0 < |data| && offset + |data| <= MaxInt
    requires CurNode(s, inum).indirectBlock as int != BlockBitmapBlock
    ensures var o, v := Write(s, inum, offset, data), ViewOf(s, inum); var w := ViewOf(o.st, inum);
      o.res.Ok? ==> w.node.indirectBlock as int != BlockBitmapBlock && RoundOk(v, w, offset, data, o.res.value)
    ensures var o := Write(s, inum, offset, data);
      o.res.Ok? ==> CurNode(o.st, inum).indirectBlock as int != BlockBitmapBlock
  {
    var v := ViewOf(s, inum);
    var p := PartOf(v, offset / BlockSize);
    var o := Write(s, inum, offset, data);
    if p.Ok? && p.value != 0 {
      SettledRound(s, inum, offset, data);
    } else if p.Ok? {
      FreshRound(s, inum, offset, data);
    }
  }

  // ------------------------------------------------------------ the loop

  /** What the rest of a write loop from view `v` to view `f` has done: Size covers
      the request, every block stays, the bytes `[offset, offset + |data|)` read as
      `data`, and every other byte of the file that lay in a block reads as before. */
  ghost predicate Written(v: View, f: View, offset: int, data: seq<byte>)
    requires ViewOk(v) && ViewOk(f) && 0 <= offset && offset + |data| <= MaxInt
  {
    var end := offset + |data|;
    f.node.size == (if |data| == 0 then v.node.size else Grown(v.node, end).size) &&
    f.node.ntype == v.node.ntype && f.node.numLinks == v.node.numLinks &&
    (v.node.indirectBlock != 0 ==> f.node.indirectBlock == v.node.indirectBlock) && Keeps(v, f) &&
    (forall i :: offset <= i < end ==> ByteOk(f, i) && ByteAt(f, i) == data[i - offset]) &&
    (forall i :: 0 <= i < v.node.size as int && !(offset <= i < end) && Settled(v, i) ==>
       ByteOk(v, i) && ByteOk(f, i) && ByteAt(f, i) == ByteAt(v, i))
  }

  /** Byte `i` lies in a part that has a block. */
  predicate Settled(v: View, i: int)
    requires ViewOk(v) && 0 <= i
  {
    var p := PartOf(v, i / BlockSize); p.Ok? && p.value != 0
  }

  /** A part that holds a byte of a laid-out file has one of its data blocks. */
  lemma LaidPart(f: View, i: int)
    requires ViewOk(f) && Laid(f) && 0 <= i < f.node.size as int
    ensures var p := PartOf(f, i / BlockSize); p.Ok? && DataBlock(p.value) && p.value != f.node.indirectBlock
  {
    var n := CeilDiv(f.node.size as int, BlockSize);
    assert (i / BlockSize) * BlockSize <= i;
  }

  /** The bytes a round stored survive the rest of the loop. */
  lemma WrittenHead(w: View, f: View, offset: int, data: seq<byte>, count: int)
    requires ViewOk(w) && ViewOk(f) && 0 <= offset && offset + |data| <= MaxInt && 0 < count <= |data|
    requires var b := RoundBlock(w, offset); var at := BlockSize * b + offset % BlockSize;
      PartOf(w, offset / BlockSize) == Ok(b) && b != 0 && BlockOk(b) &&
      offset % BlockSize + count <= BlockSize && w.disk[at..at + count] == data[..count]
    requires offset + |data| <= w.node.size as int
    requires Written(w, f, offset + count, data[count..])
    ensures forall i :: offset <= i < offset + count ==> ByteOk(f, i) && ByteAt(f, i) == data[i - offset]
  {
    var b, part, start := RoundBlock(w, offset), offset / BlockSize, offset % BlockSize;
    var at := BlockSize * b + start;
    forall i | offset <= i < offset + count
      ensures ByteOk(f, i) && ByteAt(f, i) == data[i - offset]
    {
      assert i / BlockSize == part && i % BlockSize == start + (i - offset);
      assert w.disk[at + (i - offset)] == data[..count][i - offset];
      assert Settled(w, i);
    }
  }

  /** The bytes a round left alone, in parts that had blocks, survive the round and
      the rest of the loop. */
  lemma WrittenFrame(v: View, w: View, f: View, offset: int, data: seq<byte>, count: int)
    requires ViewOk(v) && ViewOk(w) && ViewOk(f) && 0 <= offset && offset + |data| <= MaxInt
    requires Laid(f) && RoundOk(v, w, offset, data, count) && Keeps(v, w)
    requires Written(w, f, offset + count, data[count..])
    ensures forall i :: 0 <= i < v.node.size as int && !(offset <= i < offset + |data|) && Settled(v, i) ==>
       ByteOk(v, i) && ByteOk(f, i) && ByteAt(f, i) == ByteAt(v, i)
  {
    var end := offset + |data|;
    var b, part, start := RoundBlock(w, offset), offset / BlockSize, offset % BlockSize;
    var at := BlockSize * b + start;
    forall i | 0 <= i < v.node.size as int && !(offset <= i < end) && Settled(v, i)
      ensures ByteOk(v, i) && ByteOk(f, i) && ByteAt(f, i) == ByteAt(v, i)
    {
      var q := i / BlockSize;
      var bi := PartOf(v, q).value;
      assert PartOf(w, q) == Ok(bi) && PartOf(f, q) == Ok(bi);
      LaidPart(f, i);
      var a := BlockSize * bi + i % BlockSize;
      assert !InBitmap(a);
      if q == part {
        assert !(at <= a < at + count);
      } else {
        LaidPart(f, offset);
        assert PartOf(f, q) != PartOf(f, part);
      }
      assert w.disk[a] == v.disk[a];
      assert Settled(w, i);
    }
  }

  /** One round followed by the rest of the loop has done what the loop does. */
  lemma WrittenStep(v: View, w: View, f: View, offset: int, data: seq<byte>, count: int)
    requires ViewOk(v) && ViewOk(w) && ViewOk(f) && 0 <= offset && offset + |data| <= MaxInt
    requires Laid(f) && RoundOk(v, w, offset, data, count)
    requires Written(w, f, offset + count, data[count..])
    ensures Written(v, f, offset, data)
  {
    var b, part := RoundBlock(w, offset), offset / BlockSize;
    LaidPart(f, offset);
    assert PartOf(f, part) == Ok(b);
    assert Keeps(v, w);
    KeepsTrans(v, w, f);
    WrittenHead(w, f, offset, data, count);
    WrittenFrame(v, w, f, offset, data, count);
  }

  /** A round of the write loop is one Write: an exception ends the loop, and the
      loop goes on past the bytes it stored. */
  lemma WriteLoopRound(s: State, inum: int, offset: int, rest: seq<byte>, total: int, w: Out<int>)
    requires Shaped(s) && InumOk(inum) && 0 <= offset && 0 < |rest| && offset + |rest| <= MaxInt
    requires w == Write(s, inum, offset, rest)
    ensures (w.res.Err? ==> WriteLoop(s, inum, offset, rest, total) == Out(w.st, Err(w.res.error))) &&
      (w.res.Ok? ==>
         0 < w.res.value <= |rest| &&
         WriteLoop(s, inum, offset, rest, total)
           == WriteLoop(w.st, inum, offset + w.res.value, rest[w.res.value..], total + w.res.value))
  {
    var v := BlockFor(s, inum, offset, |rest|);
    assert w == Store(v, offset, rest);
    assert WriteLoop(s, inum, offset, rest, total) == StoreStep(v, inum, offset, rest, total);
  }

  /** A round of a write loop, told in terms of where the loop ends: a loop that
      succeeds has a round that succeeds, and the loop goes on from that round. */
  lemma WriteRoundEnds(s: State, inum: int, offset: int, rest: seq<byte>, total: int, goal: Out<int>, w: Out<int>)
    requires Shaped(s) && InumOk(inum) && 0 <= offset && 0 < |rest| && offset + |rest| <= MaxInt
    requires WriteEnds(s, inum, offset, rest, total, goal) && w == Write(s, inum, offset, rest)
    ensures Shaped(w.st)
    ensures (goal.res.Ok? ==> w.res.Ok?) &&
      (w.res.Ok? ==>
         0 < w.res.value <= |rest| &&
         WriteEnds(w.st, inum, offset + w.res.value, rest[w.res.value..], total + w.res.value, goal))
  {
    WriteLoopRound(s, inum, offset, rest, total, w);
  }

  /** A round of a write loop that ends in success: what it stores, and where the
      rest of the loop starts. */
  lemma WriteLoopNext(s: State, inum: int, offset: int, rest: seq<byte>, total: int, goal: Out<int>)
      returns (t: State, count: int)
    requires Shaped(s) && InumOk(inum) && 0 <= offset && 0 < |rest| && offset + |rest| <= MaxInt
    requires CurNode(s, inum).indirectBlock as int != BlockBitmapBlock
    requires WriteEnds(s, inum, offset, rest, total, goal) && goal.res.Ok?
    ensures Shaped(t) && 0 < count <= |rest| && CurNode(t, inum).indirectBlock as int != BlockBitmapBlock
    ensures RoundOk(ViewOf(s, inum), ViewOf(t, inum), offset, rest, count)
    ensures WriteEnds(t, inum, offset + count, rest[count..], total + count, goal)
  {
    var w := Write(s, inum, offset, rest);
    WriteRoundEnds(s, inum, offset, rest, total, goal, w);
    WriteView(s, inum, offset, rest);
    t, count := w.st, w.res.value;
  }

  /** A write loop that succeeds and leaves the file laid out has done what Written
      says. */
  lemma {:induction false} WriteLoopView(s: State, inum: int, offset: int, rest: seq<byte>, total: int, goal: Out<int>)
    requires Shaped(s) && InumOk(inum) && 0 <= offset && offset + |rest| <= MaxInt
    requires CurNode(s, inum).indirectBlock as int != BlockBitmapBlock
    requires WriteEnds(s, inum, offset, rest, total, goal) && goal.res.Ok?
    requires Shaped(goal.st) && Laid(ViewOf(goal.st, inum))
    ensures Written(ViewOf(s, inum), ViewOf(goal.st, inum), offset, rest)
    decreases |rest|
  {
    var v := ViewOf(s, inum);
    if |rest| == 0 {
      assert goal.st == s;
      assert Keeps(v, v);
    } else {
      var t, count := WriteLoopNext(s, inum, offset, rest, total, goal);
      WriteLoopView(t, inum, offset + count, rest[count..], total + count, goal);
      WrittenStep(v, ViewOf(t, inum), ViewOf(goal.st, inum), offset, rest, count);
    }
  }

  /** A laid-out file fits in the direct block and the 256 blocks of the table. */
  lemma LaidSmall(v: View)
    requires ViewOk(v) && Laid(v)
    ensures v.node.size as int <= MaxFilesize
  {
    PastTable(v, 1 + IndirectCount);
  }

  /** No part past the table has a block. */
  lemma PastTable(v: View, p: int)
    requires ViewOk(v) && p >= 1 + IndirectCount
    ensures PartOf(v, p).Err? || PartOf(v, p).value == 0
  {
  }

  /** A laid-out file stays laid out when it keeps its size, its indirect block and
      every block of its parts. */
  lemma LaidKept(v: View, w: View)
    requires ViewOk(v) && ViewOk(w) && Laid(v) && Keeps(v, w)
    requires w.node.size == v.node.size && w.node.indirectBlock == v.node.indirectBlock
    ensures Laid(w)
  {
    var n := CeilDiv(v.node.size as int, BlockSize);
    forall p | 0 <= p < n ensures PartOf(w, p) == PartOf(v, p) {
    }
  }

  /** A round of an overwrite inside a laid-out file: it succeeds, in the part's own
      block, and leaves the file laid out with the same size. */
  lemma OverwriteNext(s: State, inum: int, offset: int, rest: seq<byte>, total: int, goal: Out<int>)
      returns (t: State, count: int)
    requires Shaped(s) && InumOk(inum) && 0 <= offset && 0 < |rest| && offset + |rest| <= MaxInt
    requires Laid(ViewOf(s, inum)) && offset + |rest| <= CurNode(s, inum).size as int
    requires WriteEnds(s, inum, offset, rest, total, goal)
    ensures Shaped(t) && 0 < count <= |rest|
    ensures var v, w := ViewOf(s, inum), ViewOf(t, inum);
      Laid(w) && Keeps(v, w) && w.node.size == v.node.size && w.node.indirectBlock == v.node.indirectBlock &&
      w.node.ntype == v.node.ntype && w.node.numLinks == v.node.numLinks
    ensures WriteEnds(t, inum, offset + count, rest[count..], total + count, goal)
  {
    var o := Write(s, inum, offset, rest);
    OverwriteStep(s, inum, offset, rest);
    WriteRoundEnds(s, inum, offset, rest, total, goal, o);
    t, count := o.st, o.res.value;
  }

  /** One round of Write inside a laid-out file succeeds and keeps the file laid out
      with the same node fields but the direct blocks. */
  lemma OverwriteStep(s: State, inum: int, offset: int, rest: seq<byte>)
    requires Shaped(s) && InumOk(inum) && 0 <= offset && 0 < |rest| && offset + |rest| <= MaxInt
    requires Laid(ViewOf(s, inum)) && offset + |rest| <= CurNode(s, inum).size as int
    ensures var o, v := Write(s, inum, offset, rest), ViewOf(s, inum);
      o.res.Ok? &&
      var w := ViewOf(o.st, inum);
      Laid(w) && Keeps(v, w) && w.node.size == v.node.size && w.node.indirectBlock == v.node.indirectBlock &&
      w.node.ntype == v.node.ntype && w.node.numLinks == v.node.numLinks
  {
    var v := ViewOf(s, inum);
    var o := Write(s, inum, offset, rest);
    LaidPart(v, offset);
    SettledRound(s, inum, offset, rest);
    OverwriteRound(v, ViewOf(o.st, inum), offset, rest, o.res.value);
  }

  /** A round inside a laid-out file, on a part whose block stays, keeps the file laid
      out with the same node fields. */
  lemma OverwriteRound(v: View, w: View, offset: int, rest: seq<byte>, count: int)
    requires ViewOk(v) && ViewOk(w) && Laid(v) && 0 <= offset && 0 < |rest|
    requires offset + |rest| <= v.node.size as int && offset + |rest| <= MaxInt
    requires w.node.indirectBlock == v.node.indirectBlock
    requires PartOf(w, offset / BlockSize) == PartOf(v, offset / BlockSize)
    requires RoundOk(v, w, offset, rest, count)
    ensures Laid(w) && Keeps(v, w) && w.node.size == v.node.size &&
      w.node.ntype == v.node.ntype && w.node.numLinks == v.node.numLinks
  {
    LaidPart(v, offset);
    LaidKept(v, w);
  }

  /** The write loop inside a laid-out file succeeds, keeps the file laid out with
      the same size, type and link count, and keeps every block. */
  lemma {:induction false} OverwriteEnds(s: State, inum: int, offset: int, rest: seq<byte>, total: int, goal: Out<int>)
    requires Shaped(s) && InumOk(inum) && 0 <= offset && offset + |rest| <= MaxInt
    requires Laid(ViewOf(s, inum)) && offset + |rest| <= CurNode(s, inum).size as int
    requires WriteEnds(s, inum, offset, rest, total, goal)
    ensures var v, f := ViewOf(s, inum), ViewOf(goal.st, inum);
      goal.res == Ok(total + |rest|) && Laid(f) && Keeps(v, f) &&
      f.node.size == v.node.size && f.node.indirectBlock == v.node.indirectBlock &&
      f.node.ntype == v.node.ntype && f.node.numLinks == v.node.numLinks
    decreases |rest|
  {
    var v := ViewOf(s, inum);
    if |rest| == 0 {
      assert goal == Out(s, Ok(total));
      assert Keeps(v, v);
    } else {
      var t, count := OverwriteNext(s, inum, offset, rest, total, goal);
      OverwriteEnds(t, inum, offset + count, rest[count..], total + count, goal);
      KeepsTrans(v, ViewOf(t, inum), ViewOf(goal.st, inum));
    }
  }

  // ------------------------------------------------------------ WriteAll

  /** Every byte of a laid-out file lies in a data block. */
  lemma LaidWhole(v: View)
    requires ViewOk(v) && Laid(v)
    ensures Whole(v) && v.node.size as int <= MaxFilesize
    ensures forall i :: 0 <= i < v.node.size as int ==> Settled(v, i)
  {
    LaidSmall(v);
    forall i | 0 <= i < v.node.size as int ensures ByteOk(v, i) && Settled(v, i) {
      LaidPart(v, i);
    }
  }

  /** WriteAll on a laid-out file that succeeds and leaves the file laid out: Size
      covers the request, the bytes written read back, and every other byte of the
      old content is unchanged; the type and link count stay. */
  lemma WriteAllView(s: State, inum: int, offset: int, data: seq<byte>)
    requires Shaped(s) && InumOk(inum) && 0 <= offset && offset + |data| <= MaxInt
    requires Laid(ViewOf(s, inum))
    requires var o := WriteAll(s, inum, offset, data); o.res.Ok? && Laid(ViewOf(o.st, inum))
    ensures var v, f := ViewOf(s, inum), ViewOf(WriteAll(s, inum, offset, data).st, inum);
      var end := offset + |data|;
      Whole(v) && Whole(f) &&
      f.node.size as int == (if |data| == 0 then v.node.size as int else Max(v.node.size as int, end)) &&
      f.node.ntype == v.node.ntype && f.node.numLinks == v.node.numLinks &&
      (forall i :: offset <= i < end ==> FileContent(f)[i] == data[i - offset]) &&
      (forall i :: 0 <= i < v.node.size as int && !(offset <= i < end) ==> FileContent(f)[i] == FileContent(v)[i])
  {
    var v := ViewOf(s, inum);
    var o := WriteAll(s, inum, offset, data);
    var f := ViewOf(o.st, inum);
    WriteLoopView(s, inum, offset, data, 0, o);
    LaidWhole(v);
    LaidWhole(f);
  }

  function Max(a: int, b: int): int
  {
    if a < b then b else a
  }

  /** What WriteAll wrote, ReadAll reads back. */
  lemma WriteThenRead(s: State, inum: int, offset: int, data: seq<byte>)
    requires Shaped(s) && InumOk(inum) && 0 <= offset && offset + |data| <= MaxInt
    requires Laid(ViewOf(s, inum))
    requires var o := WriteAll(s, inum, offset, data); o.res.Ok? && Laid(ViewOf(o.st, inum))
    ensures ReadAll(WriteAll(s, inum, offset, data).st, inum, offset, |data|).res == Ok(data)
  {
    var o := WriteAll(s, inum, offset, data);
    var f := ViewOf(o.st, inum);
    WriteAllView(s, inum, offset, data);
    var end := offset + |data|;
    assert ReadEnd(f.node.size as int, offset, |data|) == end;
    ReadAllView(o.st, inum, offset, |data|);
    var c := FileContent(f);
    assert Span(f, offset, end) == data by {
      forall k | 0 <= k < |data| ensures Span(f, offset, end)[k] == data[k] {
        assert c[offset + k] == data[k];
      }
    }
  }

  /** The content after bytes `data` replace those at `at`, the file growing when
      they run past its end. */
  function Overwritten(c: seq<byte>, at: int, data: seq<byte>): (r: seq<byte>)
    requires 0 <= at <= |c|
    ensures |r| == Max(|c|, at + |data|)
    ensures r[..at] == c[..at] && r[at..at + |data|] == data
  {
    c[..at] + data + (if at + |data| < |c| then c[at + |data|..] else [])
  }

  /** A write starting inside the file, or at its end, leaves the old content with
      the bytes written in place. */
  lemma WriteAllContent(s: State, inum: int, offset: int, data: seq<byte>)
    requires Shaped(s) && InumOk(inum) && 0 <= offset && offset + |data| <= MaxInt
    requires Laid(ViewOf(s, inum)) && offset <= CurNode(s, inum).size as int
    requires var o := WriteAll(s, inum, offset, data); o.res.Ok? && Laid(ViewOf(o.st, inum))
    ensures var v, f := ViewOf(s, inum), ViewOf(WriteAll(s, inum, offset, data).st, inum);
      Whole(v) && Whole(f) && FileContent(f) == Overwritten(FileContent(v), offset, data)
  {
    var v := ViewOf(s, inum);
    var f := ViewOf(WriteAll(s, inum, offset, data).st, inum);
    WriteAllView(s, inum, offset, data);
    var c, d := FileContent(v), FileContent(f);
    var e := Overwritten(c, offset, data);
    forall i | 0 <= i < |d| ensures d[i] == e[i] {
      if i < offset {
        assert e[i] == e[..offset][i];
      } else if i < offset + |data| {
        assert e[i] == e[offset..offset + |data|][i - offset];
      }
    }
  }

  /** A write at the end of a laid-out file that succeeds and leaves it laid out
      appends exactly the bytes written. */
  lemma AppendView(s: State, inum: int, data: seq<byte>)
    requires Shaped(s) && InumOk(inum) && CurNode(s, inum).size as int + |data| <= MaxInt
    requires Laid(ViewOf(s, inum))
    requires var o := WriteAll(s, inum, CurNode(s, inum).size as int, data); o.res.Ok? && Laid(ViewOf(o.st, inum))
    ensures var v := ViewOf(s, inum); var f := ViewOf(WriteAll(s, inum, v.node.size as int, data).st, inum);
      Whole(v) && Whole(f) && FileContent(f) == FileContent(v) + data
  {
    var v := ViewOf(s, inum);
    WriteAllContent(s, inum, v.node.size as int, data);
    var c := FileContent(v);
    assert Overwritten(c, |c|, data) == c + data by {
      assert c[..|c|] == c;
    }
  }

  /** WriteAll inside a laid-out file succeeds, keeps the file laid out with the same
      size, type and link count, and leaves the old content with the bytes written
      in place. */
  lemma OverwriteView(s: State, inum: int, offset: int, data: seq<byte>)
    requires Shaped(s) && InumOk(inum) && 0 <= offset
    requires Laid(ViewOf(s, inum)) && offset + |data| <= CurNode(s, inum).size as int
    ensures offset + |data| <= MaxInt
    ensures var v, o := ViewOf(s, inum), WriteAll(s, inum, offset, data); var f := ViewOf(o.st, inum);
      o.res == Ok(|data|) && Laid(f) && Keeps(v, f) && f.node == v.node.(directBlock := f.node.directBlock) &&
      Whole(v) && Whole(f) && FileContent(f) == Splice(FileContent(v), offset, data)
  {
    var v := ViewOf(s, inum);
    LaidWhole(v);
    var o := WriteAll(s, inum, offset, data);
    OverwriteEnds(s, inum, offset, data, 0, o);
    WriteAllContent(s, inum, offset, data);
    var c := FileContent(v);
    assert Overwritten(c, offset, data) == Splice(c, offset, data);
  }
}
