/** What the directory edits do to a directory BobFS has laid out.  DeleteNode moves
    the bytes after the first entry holding a node over it and lowers Size by the
    entry's length, so the directory then lists the other entries; the append
    LinkNode and NewNode make adds one entry at the end of the listing. */
module DirWrite {
  import opened Bytes
  import opened Layout
  import opened NodeOps
  import opened NodeView
  import opened NodeWrite
  import opened DirOps

  /** `c` with the `gap` bytes at `lo` taken out. */
  function Cut(c: seq<byte>, lo: int, gap: int): (r: seq<byte>)
    requires 0 <= lo && 0 <= gap && lo + gap <= |c|
    ensures |r| == |c| - gap
    ensures forall i :: 0 <= i < lo ==> r[i] == c[i]
    ensures forall i :: lo <= i < |r| ==> r[i] == c[i + gap]
  {
    c[..lo] + c[lo + gap..]
  }

  /** A file part-way through the compaction loop: laid out, of the old size, its
      first `runner` bytes already those of the cut content, the rest as before. */
  ghost predicate Shifting(v: View, c: seq<byte>, lo: int, runner: int, gap: int)
    requires ViewOk(v) && 0 <= lo <= runner && 0 < gap && runner + gap <= |c|
  {
    Laid(v) && Whole(v) && v.node.size as int == |c| &&
    FileContent(v) == Cut(c, lo, gap)[..runner] + c[runner..]
  }

  /** Writing the bytes `d` that follow the gap over `runner` moves the cut on by `|d|`. */
  lemma CutOn(cur: seq<byte>, c: seq<byte>, lo: int, runner: int, gap: int, d: seq<byte>)
    requires 0 <= lo <= runner && 0 < gap && runner + gap + |d| <= |c|
    requires cur == Cut(c, lo, gap)[..runner] + c[runner..]
    requires d == c[runner + gap..runner + gap + |d|]
    ensures Splice(cur, runner, d) == Cut(c, lo, gap)[..runner + |d|] + c[runner + |d|..]
  {
    var next := Splice(cur, runner, d);
    var cut := Cut(c, lo, gap);
    SpliceAt(cur, runner, d);
    forall i | 0 <= i < |c| ensures next[i] == (cut[..runner + |d|] + c[runner + |d|..])[i] {
      if runner <= i < runner + |d| {
        assert next[i] == d[i - runner] == c[i + gap];
      }
    }
  }

  /** The read of a round of the compaction loop: the file's bytes after the gap, up
      to a block of them, and the view unchanged. */
  lemma ShiftRead(s: State, inum: int, runner: int, gap: int, c: seq<byte>, lo: int)
      returns (t: State, d: seq<byte>)
    requires Shaped(s) && InumOk(inum) && |c| <= MaxFilesize
    requires 0 <= lo <= runner && 0 < gap && runner + gap < |c|
    requires Shifting(ViewOf(s, inum), c, lo, runner, gap)
    ensures Shaped(t) && ViewOf(t, inum) == ViewOf(s, inum)
    ensures 0 < |d| <= BlockSize && runner + gap + |d| <= |c| && d == c[runner + gap..runner + gap + |d|]
    ensures ShiftLoop(s, inum, runner, gap) == ShiftOn(WriteAll(t, inum, runner, d), inum, runner, gap)
  {
    var v := ViewOf(s, inum);
    var from := runner + gap;
    var end := ReadEnd(|c|, from, BlockSize);
    var r := ReadAll(s, inum, from, BlockSize);
    ReadAllView(s, inum, from, BlockSize);
    ShiftNext(s, inum, runner, gap, r.st, r.res);
    t, d := r.st, r.res.value;
    SpanIsContent(v, from, end);
    PastRunner(FileContent(v), c, lo, runner, gap, from, end);
  }

  /** A run of a whole file's bytes is a slice of its content. */
  lemma SpanIsContent(v: View, lo: int, hi: int)
    requires ViewOk(v) && Whole(v) && 0 <= lo <= hi <= v.node.size as int
    ensures Span(v, lo, hi) == FileContent(v)[lo..hi]
  {
    var c := FileContent(v);
    assert forall k :: 0 <= k < hi - lo ==> Span(v, lo, hi)[k] == c[lo + k];
  }

  /** Past the runner, the content part-way through the compaction is the old one. */
  lemma PastRunner(cur: seq<byte>, c: seq<byte>, lo: int, runner: int, gap: int, from: int, end: int)
    requires 0 <= lo <= runner && 0 < gap && runner + gap <= |c|
    requires cur == Cut(c, lo, gap)[..runner] + c[runner..]
    requires runner <= from <= end <= |c|
    ensures cur[from..end] == c[from..end]
  {
    assert forall k :: from <= k < end ==> cur[k] == c[k];
  }

  /** A round of the compaction loop: the read from `runner + gap` has bytes, and
      writing them at `runner` moves the loop on with the same node fields and the
      blocks kept. */
  lemma ShiftRound(s: State, inum: int, runner: int, gap: int, c: seq<byte>, lo: int)
      returns (t: State, len: int)
    requires Shaped(s) && InumOk(inum) && |c| <= MaxFilesize
    requires 0 <= lo <= runner && 0 < gap && runner + gap < |c|
    requires Shifting(ViewOf(s, inum), c, lo, runner, gap)
    ensures Shaped(t) && 0 < len && runner + len + gap <= |c|
    ensures ShiftLoop(s, inum, runner, gap) == ShiftLoop(t, inum, runner + len, gap)
    ensures var v, w := ViewOf(s, inum), ViewOf(t, inum);
      Shifting(w, c, lo, runner + len, gap) && Keeps(v, w) &&
      w.node.size == v.node.size && w.node.indirectBlock == v.node.indirectBlock &&
      w.node.ntype == v.node.ntype && w.node.numLinks == v.node.numLinks
  {
    var v := ViewOf(s, inum);
    var r, d := ShiftRead(s, inum, runner, gap, c, lo);
    OverwriteView(r, inum, runner, d);
    CutOn(FileContent(v), c, lo, runner, gap, d);
    t, len := WriteAll(r, inum, runner, d).st, |d|;
  }

  /** The compaction loop of DeleteNode, from a file part-way through it, succeeds
      and leaves the cut content followed by the old last `gap` bytes, with the same
      size and node fields and every block kept. */
  lemma {:induction false} ShiftLoopView(s: State, inum: int, runner: int, gap: int, c: seq<byte>, lo: int)
    requires Shaped(s) && InumOk(inum) && |c| <= MaxFilesize
    requires 0 <= lo <= runner && 0 < gap && runner + gap <= |c|
    requires Shifting(ViewOf(s, inum), c, lo, runner, gap)
    ensures var v, o := ViewOf(s, inum), ShiftLoop(s, inum, runner, gap); var f := ViewOf(o.st, inum);
      o.res == Ok(()) && Laid(f) && Whole(f) && Keeps(v, f) &&
      f.node.size == v.node.size && f.node.indirectBlock == v.node.indirectBlock &&
      f.node.ntype == v.node.ntype && f.node.numLinks == v.node.numLinks &&
      FileContent(f) == Cut(c, lo, gap) + c[|c| - gap..]
    decreases |c| - runner
  {
    var v := ViewOf(s, inum);
    if runner + gap == |c| {
      ShiftDone(s, inum, runner, gap, c, lo);
    } else {
      var t, len := ShiftRound(s, inum, runner, gap, c, lo);
      ShiftLoopView(t, inum, runner + len, gap, c, lo);
      KeepsTrans(v, ViewOf(t, inum), ViewOf(ShiftLoop(t, inum, runner + len, gap).st, inum));
    }
  }

  /** The last round of the compaction loop reads nothing and stops. */
  lemma ShiftDone(s: State, inum: int, runner: int, gap: int, c: seq<byte>, lo: int)
    requires Shaped(s) && InumOk(inum) && |c| <= MaxFilesize
    requires 0 <= lo <= runner && 0 < gap && runner + gap == |c|
    requires Shifting(ViewOf(s, inum), c, lo, runner, gap)
    ensures var v, o := ViewOf(s, inum), ShiftLoop(s, inum, runner, gap);
      o.res == Ok(()) && ViewOf(o.st, inum) == v && FileContent(v) == Cut(c, lo, gap) + c[|c| - gap..]
  {
    var v := ViewOf(s, inum);
    LaidSmall(v);
    var r := ReadAll(s, inum, runner + gap, BlockSize);
    ReadAllView(s, inum, runner + gap, BlockSize);
    ShiftNext(s, inum, runner, gap, r.st, r.res);
    assert Cut(c, lo, gap)[..runner] == Cut(c, lo, gap);
  }

  /** Lowering Size keeps a laid-out file laid out and cuts its content short. */
  lemma ShrinkView(v: View, n: int)
    requires ViewOk(v) && Laid(v) && 0 <= n <= v.node.size as int
    ensures var w := v.(node := v.node.(size := n as uint32));
      ViewOk(w) && Laid(w) && Whole(w) && Whole(v) && FileContent(w) == FileContent(v)[..n]
  {
    var w := v.(node := v.node.(size := n as uint32));
    LaidWhole(v);
    assert forall p :: 0 <= p ==> PartOf(w, p) == PartOf(v, p);
    assert CeilDiv(n, BlockSize) <= CeilDiv(v.node.size as int, BlockSize);
    LaidWhole(w);
  }

  /** SetSize changes only the Size of the view. */
  lemma SetSizeView(s: State, inum: int, n: uint32)
    requires Shaped(s) && InumOk(inum)
    ensures var v := ViewOf(s, inum); ViewOf(SetSize(s, inum, n), inum) == v.(node := v.node.(size := n))
  {
  }

  /** The compaction and the Size update of DeleteNode, from a laid-out file with
      content `c`, take out the `gap` bytes at `at`. */
  lemma CutView(t: State, inum: int, at: int, gap: int, c: seq<byte>)
    requires Shaped(t) && InumOk(inum) && |c| <= MaxFilesize && 0 <= at && 0 < gap && at + gap <= |c|
    requires Laid(ViewOf(t, inum)) && Whole(ViewOf(t, inum)) && FileContent(ViewOf(t, inum)) == c
    ensures var v, o := ViewOf(t, inum), Shrink(ShiftLoop(t, inum, at, gap), inum, gap); var f := ViewOf(o.st, inum);
      o.res == Ok(()) && Laid(f) && Whole(f) && Keeps(v, f) &&
      f.node.size as int == |c| - gap && f.node.ntype == v.node.ntype && f.node.numLinks == v.node.numLinks &&
      FileContent(f) == Cut(c, at, gap)
  {
    var v := ViewOf(t, inum);
    CutStart(c, at, gap);
    var m := ShiftLoop(t, inum, at, gap);
    ShiftLoopView(t, inum, at, gap, c, at);
    ShrinkOk(m, inum, gap);
    CutEnd(c, at, gap);
  }

  /** Before the compaction, the content is the cut content up to `at`, the old
      content after. */
  lemma CutStart(c: seq<byte>, at: int, gap: int)
    requires 0 <= at && 0 < gap && at + gap <= |c|
    ensures c == Cut(c, at, gap)[..at] + c[at..]
  {
    assert Cut(c, at, gap)[..at] == c[..at];
  }

  /** After the compaction, the first `|c| - gap` bytes are the cut content. */
  lemma CutEnd(c: seq<byte>, at: int, gap: int)
    requires 0 <= at && 0 < gap && at + gap <= |c|
    ensures (Cut(c, at, gap) + c[|c| - gap..])[..|c| - gap] == Cut(c, at, gap)
  {
  }

  /** The Size update that ends DeleteNode, after a compaction that succeeded on a
      laid-out file: Size lowered by `gap`, the content cut short, nothing else. */
  lemma ShrinkOk(m: Out<()>, inum: int, gap: int)
    requires Shaped(m.st) && InumOk(inum) && 0 < gap <= MaxInt && m.res.Ok?
    requires Laid(ViewOf(m.st, inum)) && gap <= CurNode(m.st, inum).size as int
    ensures var g, o := ViewOf(m.st, inum), Shrink(m, inum, gap); var f := ViewOf(o.st, inum);
      var n := g.node.size as int - gap;
      o.res == Ok(()) && f == g.(node := g.node.(size := n as uint32)) &&
      Laid(f) && Whole(f) && Whole(g) && Keeps(g, f) && FileContent(f) == FileContent(g)[..n]
  {
    var g := ViewOf(m.st, inum);
    var n := g.node.size as int - gap;
    SetSizeView(m.st, inum, n as uint32);
    ShrinkView(g, n);
  }

  /** DeleteNode on a laid-out directory holding the entries `es`: when an entry
      holds `target`, the first such entry is removed from the listing, Size drops
      by its length, and the type, link count and blocks stay; when none does, the
      result is NodeNotFound and the directory is unchanged. */
  lemma DeleteNodeView(s: State, inum: int, target: uint32, es: seq<DirEntry>)
    requires Shaped(s) && InumOk(inum) && Laid(ViewOf(s, inum))
    requires CurNode(s, inum).ntype == DirectoryType
    requires NamesFit(es) && Whole(ViewOf(s, inum)) && FileContent(ViewOf(s, inum)) == EncodeDir(es)
    ensures var v, o, k := ViewOf(s, inum), DeleteNode(s, inum, target), FirstWith(es, target);
      var f := ViewOf(o.st, inum);
      (k == |es| ==> o.res == Err(NodeNotFound) && f == v) &&
      (k < |es| ==>
         o.res == Ok(()) && Laid(f) && Whole(f) && Keeps(v, f) &&
         f.node.size as int == v.node.size as int - (8 + |es[k].name|) &&
         f.node.ntype == v.node.ntype && f.node.numLinks == v.node.numLinks &&
         FileContent(f) == EncodeDir(es[..k] + es[k + 1..]))
  {
    if FirstWith(es, target) < |es| {
      DeleteNodeFound(s, inum, target, es);
    } else {
      DeleteNodeMissing(s, inum, target, es);
    }
  }

  /** DeleteNodeView when no entry holds `target`. */
  lemma DeleteNodeMissing(s: State, inum: int, target: uint32, es: seq<DirEntry>)
    requires Shaped(s) && InumOk(inum) && Laid(ViewOf(s, inum))
    requires CurNode(s, inum).ntype == DirectoryType
    requires NamesFit(es) && Whole(ViewOf(s, inum)) && FileContent(ViewOf(s, inum)) == EncodeDir(es)
    requires FirstWith(es, target) == |es|
    ensures var o := DeleteNode(s, inum, target);
      o.res == Err(NodeNotFound) && ViewOf(o.st, inum) == ViewOf(s, inum)
  {
    var t, r := DeleteScan(s, inum, target, es);
    assert DeleteNode(s, inum, target) == Out(t, Err(NodeNotFound));
  }

  /** DeleteNodeView when the `k`-th entry is the first to hold `target`. */
  lemma DeleteNodeFound(s: State, inum: int, target: uint32, es: seq<DirEntry>)
    requires Shaped(s) && InumOk(inum) && Laid(ViewOf(s, inum))
    requires CurNode(s, inum).ntype == DirectoryType
    requires NamesFit(es) && Whole(ViewOf(s, inum)) && FileContent(ViewOf(s, inum)) == EncodeDir(es)
    requires FirstWith(es, target) < |es|
    ensures var v, o, k := ViewOf(s, inum), DeleteNode(s, inum, target), FirstWith(es, target);
      var f := ViewOf(o.st, inum);
      o.res == Ok(()) && Laid(f) && Whole(f) && Keeps(v, f) &&
      f.node.size as int == v.node.size as int - (8 + |es[k].name|) &&
      f.node.ntype == v.node.ntype && f.node.numLinks == v.node.numLinks &&
      FileContent(f) == EncodeDir(es[..k] + es[k + 1..])
  {
    var t, r := DeleteScan(s, inum, target, es);
    var k := FirstWith(es, target);
    DeleteFoundView(t, inum, es, k);
    assert DeleteNode(s, inum, target) == DeleteFound(Out(t, Ok((|EncodeDir(es[..k])|, es[k]))), inum);
  }

  /** The rest of DeleteNode once the scan has stopped at the `k`-th entry. */
  lemma DeleteFoundView(t: State, inum: int, es: seq<DirEntry>, k: int)
    requires Shaped(t) && InumOk(inum) && Laid(ViewOf(t, inum)) && 0 <= k < |es|
    requires NamesFit(es) && Whole(ViewOf(t, inum)) && FileContent(ViewOf(t, inum)) == EncodeDir(es)
    requires |EncodeDir(es)| <= MaxFilesize
    ensures var v, at := ViewOf(t, inum), |EncodeDir(es[..k])|;
      at + 8 + |es[k].name| <= MaxInt &&
      var o := DeleteFound(Out(t, Ok((at, es[k]))), inum); var f := ViewOf(o.st, inum);
      o.res == Ok(()) && Laid(f) && Whole(f) && Keeps(v, f) &&
      f.node.size as int == v.node.size as int - (8 + |es[k].name|) &&
      f.node.ntype == v.node.ntype && f.node.numLinks == v.node.numLinks &&
      FileContent(f) == EncodeDir(es[..k] + es[k + 1..])
  {
    RemoveEntryBytes(es, k);
    var at, gap := |EncodeDir(es[..k])|, 8 + |es[k].name|;
    CutView(t, inum, at, gap, EncodeDir(es));
  }

  /** The scan of DeleteNode over a directory holding the entries `es` stops at the
      first entry holding `target`, and changes no part of the view. */
  lemma DeleteScan(s: State, inum: int, target: uint32, es: seq<DirEntry>) returns (t: State, r: Result<(int, DirEntry)>)
    requires Shaped(s) && InumOk(inum) && Laid(ViewOf(s, inum))
    requires CurNode(s, inum).ntype == DirectoryType
    requires NamesFit(es) && Whole(ViewOf(s, inum)) && FileContent(ViewOf(s, inum)) == EncodeDir(es)
    ensures Shaped(t) && ViewOf(t, inum) == ViewOf(s, inum) && |EncodeDir(es)| <= MaxFilesize
    ensures var k := FirstWith(es, target);
      r == if k == |es| then Err(NodeNotFound) else Ok((|EncodeDir(es[..k])|, es[k]))
    ensures r.Ok? ==> 0 <= r.value.0 && r.value.0 + 8 + |r.value.1.name| <= MaxInt
    ensures DeleteNode(s, inum, target) == DeleteFound(Out(t, r), inum)
  {
    LaidSmall(ViewOf(s, inum));
    var c := CheckDir(s, inum);
    LoadNodeView(s, inum);
    var found := SeekLoop(c.st, inum, 0, target);
    SeekLoopView(c.st, inum, 0, target);
    ScanInumEncoded([], es, target);
    assert [] + EncodeDir(es) == EncodeDir(es);
    t, r := found.st, found.res;
    assert r == ScanResult([], es, target);
  }

  /** AddEntry on a laid-out directory holding the entries `es`, when the write
      succeeds and leaves the directory laid out: the directory then holds the
      entries `es` followed by `e`, and lists them. */
  lemma AddEntryView(s: State, inum: int, e: DirEntry, es: seq<DirEntry>)
    requires Shaped(s) && InumOk(inum) && Laid(ViewOf(s, inum))
    requires NamesFit(es) && NameFits(e)
    requires Whole(ViewOf(s, inum)) && FileContent(ViewOf(s, inum)) == EncodeDir(es)
    requires var o := AddEntry(s, inum, e); o.res.Ok? && Laid(ViewOf(o.st, inum))
    ensures var v, f := ViewOf(s, inum), ViewOf(AddEntry(s, inum, e).st, inum);
      Whole(f) && FileContent(f) == EncodeDir(es + [e]) &&
      f.node.size as int == v.node.size as int + 8 + |e.name| &&
      f.node.ntype == v.node.ntype && f.node.numLinks == v.node.numLinks &&
      ParseFrom(FileContent(f), 0) == Ok(es + [e])
  {
    var v := ViewOf(s, inum);
    var t := LoadNode(s, inum);
    LoadNodeView(s, inum);
    var enc := EncodeEntry(e);
    AppendView(t, inum, enc);
    WriteAllView(t, inum, v.node.size as int, enc);
    EncodeDirConcat(es, [e]);
    EncodeOne(e);
    AppendEntry(es, e);
  }
}
