/** What a node's reads see.  Reading changes the caches but never what they
    stand for: the inode the Node getter yields, the table the Indirect getter
    yields and the device content.  That triple is the node's view; a file's
    content is read off it byte by byte, and ReadAll and the directory scans are
    proved to return exactly that content and what the value-level directory
    scans of Layout make of it. */
module NodeView {
  import opened Bytes
  import opened Layout
  import opened NodeOps
  import Dir = DirOps

  /** The table the Indirect getter yields, or the exception it throws. */
  function TableOf(s: State, inum: int): (r: Result<seq<uint32>>)
    requires Shaped(s) && InumOk(inum)
    ensures r.Ok? ==> |r.value| == IndirectCount
  {
    if s.cache.indirectValid then Ok(s.cache.table)
    else
      var ib := CurNode(s, inum).indirectBlock as int;
      if ib == 0 then Err(IndirectMissing)
      else if !BlockOk(ib) then Err(BadBlock)
      else Ok(DecodeWords(s.disk, BlockSize * ib, IndirectCount))
  }

  /** The device content, the inode and the indirect table as the node sees them. */
  datatype View = View(disk: seq<byte>, node: Inode, table: Result<seq<uint32>>)

  predicate ViewOk(v: View)
  {
    |v.disk| == DeviceSize && (v.table.Ok? ==> |v.table.value| == IndirectCount)
  }

  function ViewOf(s: State, inum: int): (v: View)
    requires Shaped(s) && InumOk(inum)
    ensures ViewOk(v)
  {
    View(s.disk, CurNode(s, inum), TableOf(s, inum))
  }

  /** The block PartBlockNum names for a part within the file (0 for a hole). */
  function PartOf(v: View, part: int): Result<uint32>
    requires ViewOk(v) && 0 <= part
  {
    if part > 0 && v.node.indirectBlock == 0 then Ok(0)
    else if part == 0 then Ok(v.node.directBlock)
    else if v.table.Err? then Err(v.table.error)
    else if part - 1 >= IndirectCount then Err(IndexOutOfRange)
    else Ok(v.table.value[part - 1])
  }

  /** Byte `i` of the file lies in a block on the device. */
  predicate ByteOk(v: View, i: int)
    requires ViewOk(v) && 0 <= i
  {
    var p := PartOf(v, i / BlockSize);
    p.Ok? && BlockOk(p.value as int)
  }

  /** Byte `i` of the file. */
  function ByteAt(v: View, i: int): byte
    requires ViewOk(v) && 0 <= i && ByteOk(v, i)
  {
    v.disk[BlockSize * PartOf(v, i / BlockSize).value as int + i % BlockSize]
  }

  /** Every byte in `[lo, hi)` lies in a block on the device. */
  predicate Readable(v: View, lo: int, hi: int)
    requires ViewOk(v) && 0 <= lo
  {
    forall i :: lo <= i < hi ==> ByteOk(v, i)
  }

  /** The file's bytes `[lo, hi)`. */
  function Span(v: View, lo: int, hi: int): (r: seq<byte>)
    requires ViewOk(v) && 0 <= lo <= hi && Readable(v, lo, hi)
    ensures |r| == hi - lo
  {
    seq<byte>(hi - lo, k requires 0 <= k < hi - lo && ByteOk(v, lo + k) => ByteAt(v, lo + k))
  }

  /** A file all of whose bytes can be read. */
  predicate Whole(v: View)
    requires ViewOk(v)
  {
    Readable(v, 0, v.node.size as int)
  }

  /** The file's content: its first Size bytes. */
  function FileContent(v: View): (c: seq<byte>)
    requires ViewOk(v) && Whole(v)
    ensures |c| == v.node.size as int
  {
    Span(v, 0, v.node.size as int)
  }

  /** Two adjacent runs of bytes join into one. */
  lemma BytesJoin(v: View, lo: int, mid: int, hi: int)
    requires ViewOk(v) && 0 <= lo <= mid <= hi && Readable(v, lo, hi)
    ensures Span(v, lo, mid) + Span(v, mid, hi) == Span(v, lo, hi)
  {
    assert forall k :: 0 <= k < hi - lo ==> (Span(v, lo, mid) + Span(v, mid, hi))[k] == ByteAt(v, lo + k);
  }

  // ---------------------------------------------------------- the getters

  /** The Node getter changes no part of the view. */
  lemma LoadNodeView(s: State, inum: int)
    requires Shaped(s) && InumOk(inum)
    ensures ViewOf(LoadNode(s, inum), inum) == ViewOf(s, inum)
  {
  }

  /** The Indirect getter changes no part of the view, and yields the view's table. */
  lemma LoadTableView(s: State, inum: int)
    requires Shaped(s) && InumOk(inum)
    ensures var o := LoadTable(s, inum);
      ViewOf(o.st, inum) == ViewOf(s, inum) &&
      (o.res.Ok? <==> TableOf(s, inum).Ok?) &&
      (o.res.Ok? ==> o.st.cache.table == TableOf(s, inum).value) &&
      (o.res.Err? ==> o.res.error == TableOf(s, inum).error)
  {
    LoadNodeView(s, inum);
  }

  /** PartBlockNum, for a part the file reaches, changes no part of the view and
      yields the block the view names. */
  lemma PartBlockNumView(s: State, inum: int, part: int)
    requires Shaped(s) && InumOk(inum) && 0 <= part <= CeilDiv(CurNode(s, inum).size as int, BlockSize)
    ensures var o := PartBlockNum(s, inum, part);
      ViewOf(o.st, inum) == ViewOf(s, inum) && o.res == PartOf(ViewOf(s, inum), part)
  {
    var t := LoadNode(s, inum);
    LoadNodeView(s, inum);
    if part > 0 && t.cache.node.indirectBlock != 0 {
      LoadTableView(t, inum);
    }
  }

  // ------------------------------------------------------------- reading

  /** The bytes of a block from `start` on are the file's bytes from the same
      place in the part the block holds. */
  lemma BlockRun(v: View, offset: int, count: int)
    requires ViewOk(v) && 0 <= offset && 0 <= count && offset % BlockSize + count <= BlockSize
    requires ByteOk(v, offset)
    ensures Readable(v, offset, offset + count)
    ensures var at := BlockSize * PartOf(v, offset / BlockSize).value as int + offset % BlockSize;
      Span(v, offset, offset + count) == v.disk[at..at + count]
  {
    var part, start := offset / BlockSize, offset % BlockSize;
    var at := BlockSize * PartOf(v, part).value as int + start;
    forall i | offset <= i < offset + count
      ensures ByteOk(v, i) && ByteAt(v, i) == v.disk[at + (i - offset)]
    {
      assert i == BlockSize * part + (start + (i - offset));
      assert i / BlockSize == part && i % BlockSize == start + (i - offset);
    }
    var run := Span(v, offset, offset + count);
    assert run == v.disk[at..at + count] by {
      forall k | 0 <= k < count ensures run[k] == v.disk[at + k] {
        assert ByteAt(v, offset + k) == v.disk[at + k];
      }
    }
  }

  /** One Read within the file moves the file's bytes up to the end of the block,
      and changes no part of the view. */
  lemma ReadView(s: State, inum: int, offset: int, n: int)
    requires Shaped(s) && InumOk(inum) && 0 <= offset && 0 < n
    requires offset + n <= CurNode(s, inum).size as int
    requires ByteOk(ViewOf(s, inum), offset)
    ensures var v, o := ViewOf(s, inum), Read(s, inum, offset, n);
      var count := BlockCount(offset % BlockSize, n);
      0 < count <= n && Readable(v, offset, offset + count) &&
      ViewOf(o.st, inum) == v && o.res == Ok(Span(v, offset, offset + count))
  {
    var v := ViewOf(s, inum);
    var t := LoadNode(s, inum);
    var part := offset / BlockSize;
    var size := CurNode(s, inum).size as int;
    LoadNodeView(s, inum);
    assert part <= size / BlockSize <= CeilDiv(size, BlockSize);
    PartBlockNumView(t, inum, part);
    var count := BlockCount(offset % BlockSize, n);
    BlockCountBounds(offset, n);
    BlockRun(v, offset, count);
  }

  /** The read loop within the file returns the file's bytes it was asked for after
      those it had, and changes no part of the view. */
  lemma {:induction false} ReadLoopView(s: State, inum: int, offset: int, n: nat, got: seq<byte>)
    requires Shaped(s) && InumOk(inum) && 0 <= offset
    requires offset + n <= CurNode(s, inum).size as int
    requires Readable(ViewOf(s, inum), offset, offset + n)
    ensures var v, o := ViewOf(s, inum), ReadLoop(s, inum, offset, n, got);
      ViewOf(o.st, inum) == v && o.res == Ok(got + Span(v, offset, offset + n))
    decreases n
  {
    var v := ViewOf(s, inum);
    if n == 0 {
      assert got + Span(v, offset, offset) == got;
    } else {
      var r := Read(s, inum, offset, n);
      ReadView(s, inum, offset, n);
      var count := |r.res.value|;
      ReadLoopView(r.st, inum, offset + count, n - count, got + r.res.value);
      BytesJoin(v, offset, offset + count, offset + n);
      AppendAssoc(got, Span(v, offset, offset + count), Span(v, offset + count, offset + n));
    }
  }

  /** Where ReadAll's request, cut off at the end of the file, stops. */
  function ReadEnd(size: int, offset: int, n: int): int
  {
    if offset + n > size then (if size > offset then size else offset)
    else if n > 0 then offset + n else offset
  }

  /** ReadAll returns the file's bytes from `offset` up to the end of the request or
      of the file, whichever comes first, and changes no part of the view. */
  lemma ReadAllView(s: State, inum: int, offset: int, n: int)
    requires Shaped(s) && InumOk(inum) && 0 <= offset
    requires Readable(ViewOf(s, inum), offset, ReadEnd(CurNode(s, inum).size as int, offset, n))
    ensures var v, o := ViewOf(s, inum), ReadAll(s, inum, offset, n);
      ViewOf(o.st, inum) == v &&
      o.res == Ok(Span(v, offset, ReadEnd(v.node.size as int, offset, n)))
  {
    var v := ViewOf(s, inum);
    var t := LoadNode(s, inum);
    LoadNodeView(s, inum);
    var size := v.node.size as int;
    var m := if offset + n > size then size - offset else n;
    var end := ReadEnd(size, offset, n);
    if m <= 0 {
      assert end == offset;
      assert ReadLoop(t, inum, offset, m, []) == Out(t, Ok([]));
    } else {
      ReadLoopView(t, inum, offset, m, []);
      assert [] + Span(v, offset, end) == Span(v, offset, end);
    }
  }

  /** What DirEntry.ReadFrom finds in the fresh array a clamped ReadAll filled is the
      file's content from `at`, zero past its end. */
  lemma PaddedBytes(v: View, at: int, k: nat)
    requires ViewOk(v) && Whole(v) && 0 <= at
    ensures var end := ReadEnd(v.node.size as int, at, k);
      Readable(v, at, end) && Splice(Zeros(k), 0, Span(v, at, end)) == Padded(FileContent(v), at, k)
  {
    var size := v.node.size as int;
    var end := ReadEnd(size, at, k);
    assert Readable(v, at, end);
    var b := Span(v, at, end);
    var c := FileContent(v);
    forall i | 0 <= i < k ensures Splice(Zeros(k), 0, b)[i] == Padded(c, at, k)[i] {
      SpliceAt(Zeros(k), 0, b);
      if i < |b| {
        assert b[i] == ByteAt(v, at + i) == c[at + i];
      }
    }
  }

  // ------------------------------------------------------------ directories

  /** On a file that can be read whole, DirEntry.ReadFrom yields what EntryAt finds in
      the file's content, and changes no part of the view. */
  lemma EntryReadView(s: State, inum: int, at: int)
    requires Shaped(s) && InumOk(inum) && 0 <= at && Whole(ViewOf(s, inum))
    ensures var v, o := ViewOf(s, inum), Dir.EntryRead(s, inum, at);
      ViewOf(o.st, inum) == v && o.res == EntryAt(FileContent(v), at)
  {
    var v := ViewOf(s, inum);
    var c := FileContent(v);
    var size := v.node.size as int;
    if at + 8 <= MaxInt {
      var h := ReadAll(s, inum, at, 8);
      PaddedBytes(v, at, 8);
      ReadAllView(s, inum, at, 8);
      var head := Splice(Zeros(8), 0, h.res.value);
      assert head == Padded(c, at, 8);
      var len := ReadLE32(head, 4) as int;
      if at + 8 + len <= MaxInt {
        PaddedBytes(v, at + 8, len);
        ReadAllView(h.st, inum, at + 8, len);
      }
    }
  }

  /** One round of a directory scan yields the entry EntryAt finds, or None at the end
      of the file, and changes no part of the view. */
  lemma ScanStepView(s: State, inum: int, runner: int)
    requires Shaped(s) && InumOk(inum) && 0 <= runner && Whole(ViewOf(s, inum))
    ensures var v, o := ViewOf(s, inum), Dir.ScanStep(s, inum, runner);
      ViewOf(o.st, inum) == v &&
      o.res == if runner >= v.node.size as int then Ok(None)
               else match EntryAt(FileContent(v), runner)
                 case Err(x) => Err(x)
                 case Ok(e) => Ok(Some(e))
  {
    LoadNodeView(s, inum);
    EntryReadView(LoadNode(s, inum), inum, runner);
  }

  /** ParseFrom's result with `acc` listed in front. */
  function After(acc: seq<DirEntry>, r: Result<seq<DirEntry>>): Result<seq<DirEntry>>
  {
    match r
    case Err(x) => Err(x)
    case Ok(es) => Ok(acc + es)
  }

  // ----------------------------------------------------- scans, round by round

  /* The scan loops are proved one round at a time.  A round of the loop unfolds the
     whole of ScanStep, and a round of the content-level scan unfolds EntryAt; a proof
     that sees both unfolded at once is slow.  So the inductions below run on the loops
     and on ScanStep as reached through `depth` indirections, which the solver opens
     one at a time, and on a content `c` tied to the view by ContentIs, whose bytes
     are matched only against ByteAt. */

  /** Byte `i` of the file, or None where it lies outside the device. */
  function ByteIn(v: View, i: int): (r: Option<byte>)
    requires ViewOk(v) && 0 <= i
    ensures r.Some? <==> ByteOk(v, i)
  {
    if ByteOk(v, i) then Some(ByteAt(v, i)) else None
  }

  /** `c` is the file's content. */
  predicate ContentIs(v: View, c: seq<byte>)
    requires ViewOk(v)
  {
    |c| == v.node.size as int &&
    forall i {:trigger ByteIn(v, i)} :: 0 <= i < |c| ==> ByteIn(v, i) == Some(c[i])
  }

  lemma ContentIsFile(v: View, c: seq<byte>)
    requires ViewOk(v) && ContentIs(v, c)
    ensures Whole(v) && c == FileContent(v)
  {
    forall i | 0 <= i < |c| ensures ByteOk(v, i) && c[i] == ByteAt(v, i) {
      assert ByteIn(v, i) == Some(c[i]);
    }
  }

  lemma FileContentIs(v: View)
    requires ViewOk(v) && Whole(v)
    ensures ContentIs(v, FileContent(v))
  {
    var c := FileContent(v);
    forall i | 0 <= i < |c| ensures ByteIn(v, i) == Some(c[i]) {
    }
  }

  /** ScanStep, reached through `depth` indirections. */
  function StepVia(s: State, inum: int, runner: int, depth: nat): Out<Option<DirEntry>>
    requires Shaped(s) && InumOk(inum) && 0 <= runner
    decreases depth
  {
    if depth == 0 then Dir.ScanStep(s, inum, runner) else StepVia(s, inum, runner, depth - 1)
  }

  /** The Contents loop, reached through `depth` indirections. */
  function ListVia(s: State, inum: int, runner: int, acc: seq<DirEntry>, depth: nat): Out<seq<DirEntry>>
    requires Shaped(s) && InumOk(inum) && 0 <= runner <= MaxInt
    decreases depth
  {
    if depth == 0 then Dir.ListLoop(s, inum, runner, acc) else ListVia(s, inum, runner, acc, depth - 1)
  }

  /** The FindNode loop, reached through `depth` indirections. */
  function FindVia(s: State, inum: int, runner: int, name: Name, depth: nat): Out<Option<uint32>>
    requires Shaped(s) && InumOk(inum) && 0 <= runner <= MaxInt
    decreases depth
  {
    if depth == 0 then Dir.FindLoop(s, inum, runner, name) else FindVia(s, inum, runner, name, depth - 1)
  }

  /** The DeleteNode scan, reached through `depth` indirections. */
  function SeekVia(s: State, inum: int, runner: int, target: uint32, depth: nat): Out<(int, DirEntry)>
    requires Shaped(s) && InumOk(inum) && 0 <= runner <= MaxInt
    decreases depth
  {
    if depth == 0 then Dir.SeekLoop(s, inum, runner, target) else SeekVia(s, inum, runner, target, depth - 1)
  }

  lemma {:induction false} StepViaIs(s: State, inum: int, runner: int, depth: nat)
    requires Shaped(s) && InumOk(inum) && 0 <= runner
    ensures StepVia(s, inum, runner, depth) == Dir.ScanStep(s, inum, runner)
    decreases depth
  {
    if depth > 0 { StepViaIs(s, inum, runner, depth - 1); }
  }

  lemma {:induction false} ListViaIs(s: State, inum: int, runner: int, acc: seq<DirEntry>, depth: nat)
    requires Shaped(s) && InumOk(inum) && 0 <= runner <= MaxInt
    ensures ListVia(s, inum, runner, acc, depth) == Dir.ListLoop(s, inum, runner, acc)
    decreases depth
  {
    if depth > 0 { ListViaIs(s, inum, runner, acc, depth - 1); }
  }

  lemma {:induction false} FindViaIs(s: State, inum: int, runner: int, name: Name, depth: nat)
    requires Shaped(s) && InumOk(inum) && 0 <= runner <= MaxInt
    ensures FindVia(s, inum, runner, name, depth) == Dir.FindLoop(s, inum, runner, name)
    decreases depth
  {
    if depth > 0 { FindViaIs(s, inum, runner, name, depth - 1); }
  }

  lemma {:induction false} SeekViaIs(s: State, inum: int, runner: int, target: uint32, depth: nat)
    requires Shaped(s) && InumOk(inum) && 0 <= runner <= MaxInt
    ensures SeekVia(s, inum, runner, target, depth) == Dir.SeekLoop(s, inum, runner, target)
    decreases depth
  {
    if depth > 0 { SeekViaIs(s, inum, runner, target, depth - 1); }
  }

  /** A round of a scan on a file whose content is `c`: it yields what EntryAt finds
      in `c`, or None at the end, and leaves a state with the same view. */
  lemma StepViaView(s: State, inum: int, runner: int, depth: nat, c: seq<byte>)
    requires Shaped(s) && InumOk(inum) && 0 <= runner && ContentIs(ViewOf(s, inum), c)
    ensures var o := StepVia(s, inum, runner, depth);
      Shaped(o.st) && ViewOf(o.st, inum) == ViewOf(s, inum) &&
      o.res == if runner >= |c| then Ok(None)
               else match EntryAt(c, runner)
                 case Err(x) => Err(x)
                 case Ok(e) => Ok(Some(e))
  {
    ContentIsFile(ViewOf(s, inum), c);
    StepViaIs(s, inum, runner, depth);
    ScanStepView(s, inum, runner);
  }

  /** A round of the Contents loop, in terms of the round's outcome. */
  lemma ListRound(s: State, inum: int, runner: int, acc: seq<DirEntry>, depth: nat)
    requires Shaped(s) && InumOk(inum) && 0 <= runner <= MaxInt
    ensures var o := StepVia(s, inum, runner, depth); var x := o.res;
      Shaped(o.st) &&
      (x.Err? ==> ListVia(s, inum, runner, acc, depth).res == Err(x.error)) &&
      (x.Ok? && x.value.None? ==> ListVia(s, inum, runner, acc, depth).res == Ok(acc)) &&
      (x.Ok? && x.value.Some? ==>
         var e := x.value.value;
         runner + 8 + |e.name| <= MaxInt &&
         ListVia(s, inum, runner, acc, depth) == ListVia(o.st, inum, runner + 8 + |e.name|, acc + [e], depth))
  {
    var x := Dir.ScanStep(s, inum, runner);
    StepViaIs(s, inum, runner, depth);
    ListViaIs(s, inum, runner, acc, depth);
    Dir.ListNext(s, inum, runner, acc, x.st, x.res);
    if x.res.Ok? && x.res.value.Some? {
      var e := x.res.value.value;
      ListViaIs(x.st, inum, runner + 8 + |e.name|, acc + [e], depth);
    }
  }

  /** A round of the FindNode loop, in terms of the round's outcome. */
  lemma FindRound(s: State, inum: int, runner: int, name: Name, depth: nat)
    requires Shaped(s) && InumOk(inum) && 0 <= runner <= MaxInt
    ensures var o := StepVia(s, inum, runner, depth); var x := o.res;
      Shaped(o.st) &&
      (x.Err? ==> FindVia(s, inum, runner, name, depth) == Out(o.st, Err(x.error))) &&
      (x.Ok? && x.value.None? ==> FindVia(s, inum, runner, name, depth) == Out(o.st, Ok(None))) &&
      (x.Ok? && x.value.Some? ==>
         var e := x.value.value;
         runner + 8 + |e.name| <= MaxInt &&
         FindVia(s, inum, runner, name, depth)
           == if e.name == name then Out(o.st, Ok(Some(e.inum)))
              else FindVia(o.st, inum, runner + 8 + |e.name|, name, depth))
  {
    var x := Dir.ScanStep(s, inum, runner);
    StepViaIs(s, inum, runner, depth);
    FindViaIs(s, inum, runner, name, depth);
    Dir.FindNext(s, inum, runner, name, x.st, x.res);
    if x.res.Ok? && x.res.value.Some? {
      var e := x.res.value.value;
      FindViaIs(x.st, inum, runner + 8 + |e.name|, name, depth);
    }
  }

  /** A round of the DeleteNode scan, in terms of the round's outcome. */
  lemma SeekRound(s: State, inum: int, runner: int, target: uint32, depth: nat)
    requires Shaped(s) && InumOk(inum) && 0 <= runner <= MaxInt
    ensures var o := StepVia(s, inum, runner, depth); var x := o.res;
      Shaped(o.st) &&
      (x.Err? ==> SeekVia(s, inum, runner, target, depth) == Out(o.st, Err(x.error))) &&
      (x.Ok? && x.value.None? ==> SeekVia(s, inum, runner, target, depth) == Out(o.st, Err(NodeNotFound))) &&
      (x.Ok? && x.value.Some? ==>
         var e := x.value.value;
         runner + 8 + |e.name| <= MaxInt &&
         SeekVia(s, inum, runner, target, depth)
           == if e.inum == target then Out(o.st, Ok((runner, e)))
              else SeekVia(o.st, inum, runner + 8 + |e.name|, target, depth))
  {
    var x := Dir.ScanStep(s, inum, runner);
    StepViaIs(s, inum, runner, depth);
    SeekViaIs(s, inum, runner, target, depth);
    Dir.SeekNext(s, inum, runner, target, x.st, x.res);
    if x.res.Ok? && x.res.value.Some? {
      var e := x.res.value.value;
      SeekViaIs(x.st, inum, runner + 8 + |e.name|, target, depth);
    }
  }

  /** One step of ParseFrom at `at`, on any content. */
  lemma ParseOn(c: seq<byte>, at: nat, acc: seq<DirEntry>)
    ensures at >= |c| ==> After(acc, ParseFrom(c, at)) == Ok(acc)
    ensures at < |c| && EntryAt(c, at).Err? ==> After(acc, ParseFrom(c, at)) == Err(EntryAt(c, at).error)
    ensures at < |c| && EntryAt(c, at).Ok? ==>
      var e := EntryAt(c, at).value;
      After(acc, ParseFrom(c, at)) == After(acc + [e], ParseFrom(c, at + 8 + |e.name|))
  {
    if at >= |c| {
      assert acc + [] == acc;
    } else if EntryAt(c, at).Ok? {
      var e := EntryAt(c, at).value;
      match ParseFrom(c, at + 8 + |e.name|)
      case Err(_) =>
      case Ok(rest) => AppendAssoc(acc, [e], rest);
    }
  }

  /** The Contents loop from `runner` lists, after `acc`, what ParseFrom finds in the
      content from there. */
  lemma {:induction false} ListViaView(s: State, inum: int, runner: int, acc: seq<DirEntry>, depth: nat, c: seq<byte>)
    requires Shaped(s) && InumOk(inum) && 0 <= runner <= MaxInt && ContentIs(ViewOf(s, inum), c)
    ensures ListVia(s, inum, runner, acc, depth).res == After(acc, ParseFrom(c, runner))
    decreases MaxInt - runner
  {
    ListRound(s, inum, runner, acc, depth);
    StepViaView(s, inum, runner, depth, c);
    ParseOn(c, runner, acc);
    if runner < |c| && EntryAt(c, runner).Ok? {
      var e := EntryAt(c, runner).value;
      ListViaView(StepVia(s, inum, runner, depth).st, inum, runner + 8 + |e.name|, acc + [e], depth, c);
    }
  }

  /** The FindNode loop from `runner` answers what ScanFind finds in the content. */
  lemma {:induction false} FindViaView(s: State, inum: int, runner: int, name: Name, depth: nat, c: seq<byte>)
    requires Shaped(s) && InumOk(inum) && 0 <= runner <= MaxInt && ContentIs(ViewOf(s, inum), c)
    ensures FindVia(s, inum, runner, name, depth).res == ScanFind(c, runner, name)
    decreases MaxInt - runner
  {
    FindRound(s, inum, runner, name, depth);
    StepViaView(s, inum, runner, depth, c);
    if runner < |c| && EntryAt(c, runner).Ok? {
      var e := EntryAt(c, runner).value;
      if e.name != name {
        FindViaView(StepVia(s, inum, runner, depth).st, inum, runner + 8 + |e.name|, name, depth, c);
      }
    }
  }

  /** The DeleteNode scan from `runner` stops where ScanInum does, and changes no part
      of the view. */
  lemma {:induction false} SeekViaView(s: State, inum: int, runner: int, target: uint32, depth: nat, c: seq<byte>)
    requires Shaped(s) && InumOk(inum) && 0 <= runner <= MaxInt && ContentIs(ViewOf(s, inum), c)
    ensures var o := SeekVia(s, inum, runner, target, depth);
      Shaped(o.st) && ViewOf(o.st, inum) == ViewOf(s, inum) && o.res == ScanInum(c, runner, target)
    decreases MaxInt - runner
  {
    SeekRound(s, inum, runner, target, depth);
    StepViaView(s, inum, runner, depth, c);
    if runner < |c| && EntryAt(c, runner).Ok? {
      var e := EntryAt(c, runner).value;
      if e.inum != target {
        SeekViaView(StepVia(s, inum, runner, depth).st, inum, runner + 8 + |e.name|, target, depth, c);
      }
    }
  }

  /** The Contents loop from `runner` lists, after `acc`, what ParseFrom finds in the
      file's content from there. */
  lemma ListLoopView(s: State, inum: int, runner: int, acc: seq<DirEntry>)
    requires Shaped(s) && InumOk(inum) && 0 <= runner <= MaxInt && Whole(ViewOf(s, inum))
    ensures Dir.ListLoop(s, inum, runner, acc).res == After(acc, ParseFrom(FileContent(ViewOf(s, inum)), runner))
  {
    FileContentIs(ViewOf(s, inum));
    ListViaView(s, inum, runner, acc, 1, FileContent(ViewOf(s, inum)));
    ListViaIs(s, inum, runner, acc, 1);
  }

  /** The FindNode loop from `runner` answers what ScanFind finds in the content. */
  lemma FindLoopView(s: State, inum: int, runner: int, name: Name)
    requires Shaped(s) && InumOk(inum) && 0 <= runner <= MaxInt && Whole(ViewOf(s, inum))
    ensures Dir.FindLoop(s, inum, runner, name).res == ScanFind(FileContent(ViewOf(s, inum)), runner, name)
  {
    FileContentIs(ViewOf(s, inum));
    FindViaView(s, inum, runner, name, 1, FileContent(ViewOf(s, inum)));
    FindViaIs(s, inum, runner, name, 1);
  }

  /** The DeleteNode scan from `runner` stops where ScanInum does, and changes no part
      of the view. */
  lemma SeekLoopView(s: State, inum: int, runner: int, target: uint32)
    requires Shaped(s) && InumOk(inum) && 0 <= runner <= MaxInt && Whole(ViewOf(s, inum))
    ensures var o := Dir.SeekLoop(s, inum, runner, target);
      ViewOf(o.st, inum) == ViewOf(s, inum) &&
      o.res == ScanInum(FileContent(ViewOf(s, inum)), runner, target)
  {
    FileContentIs(ViewOf(s, inum));
    SeekViaView(s, inum, runner, target, 1, FileContent(ViewOf(s, inum)));
    SeekViaIs(s, inum, runner, target, 1);
  }

  /** Contents lists what ParseFrom finds in the directory's content; a file that is
      not a directory is refused. */
  lemma ContentsView(s: State, inum: int)
    requires Shaped(s) && InumOk(inum) && Whole(ViewOf(s, inum))
    ensures Dir.Contents(s, inum).res
      == if CurNode(s, inum).ntype != DirectoryType then Err(NotDirectory)
         else ParseFrom(FileContent(ViewOf(s, inum)), 0)
  {
    var c := Dir.CheckDir(s, inum);
    LoadNodeView(s, inum);
    if c.res.Ok? {
      ListLoopView(c.st, inum, 0, []);
      match ParseFrom(FileContent(ViewOf(s, inum)), 0)
      case Err(_) =>
      case Ok(es) => assert [] + es == es;
    }
  }

  /** A directory whose content holds the encodings of `es`, back to back, lists
      exactly `es`, in that order. */
  lemma ContentsListsEntries(s: State, inum: int, es: seq<DirEntry>)
    requires Shaped(s) && InumOk(inum) && Whole(ViewOf(s, inum))
    requires CurNode(s, inum).ntype == DirectoryType
    requires NamesFit(es) && FileContent(ViewOf(s, inum)) == EncodeDir(es) && |EncodeDir(es)| <= MaxInt
    ensures Dir.Contents(s, inum).res == Ok(es)
  {
    ContentsView(s, inum);
    DirRoundTrip(es);
  }

  /** FindNode answers with the first entry of the listing that has the name, or None;
      a file that is not a directory is refused. */
  lemma FindNodeView(s: State, inum: int, name: Name, es: seq<DirEntry>)
    requires Shaped(s) && InumOk(inum) && Whole(ViewOf(s, inum))
    requires CurNode(s, inum).ntype == DirectoryType ==> Dir.Contents(s, inum).res == Ok(es)
    ensures Dir.FindNode(s, inum, name).res
      == if CurNode(s, inum).ntype != DirectoryType then Err(NotDirectory) else Ok(FindIn(es, name))
  {
    var c := Dir.CheckDir(s, inum);
    LoadNodeView(s, inum);
    if c.res.Ok? {
      ContentsView(s, inum);
      FindLoopView(c.st, inum, 0, name);
      ScanFindAgrees(FileContent(ViewOf(s, inum)), 0, name, es);
    }
  }
}
