/** LinkNode, RenameNode and NewNode in terms of the listing and the stored records:
    linking appends an entry and stores the other node with one more link; renaming
    removes the node's first entry, appends the new one and stores the node with its
    link count back where it was; a new node is stored with one link and Size 0. */
module DirLink {
  import opened Bytes
  import opened Layout
  import opened NodeOps
  import opened NodeView
  import opened NodeWrite
  import opened NodeCommit
  import opened DirOps
  import opened DirWrite
  import opened Bitmap

  /** A node `++` then `--` on its ushort link count is back where it was. */
  lemma LinksBack(n: uint16)
    ensures Links(Links(n as int + 1) as int - 1) == n
  {
  }

  /** The other node's link count moved by `delta` and the node committed: its record
      then decodes to the node as its handle held it with the new link count. */
  lemma RelinkView(g: State, finum: int, delta: int)
    requires Shaped(g) && InumOk(finum) && finum < BitmapBits
    requires var ib := CurNode(g, finum).indirectBlock as int; ib == 0 || DataBlock(ib)
    ensures var o, n := Relink(g, finum, delta), CurNode(g, finum);
      var m := n.(numLinks := Links(n.numLinks as int + delta));
      o.res == Ok(()) && CurNode(o.st, finum) == m && DecodeInode(o.st.disk, NodeOffset(finum)) == m
  {
    var n := CurNode(g, finum);
    var k := Links(n.numLinks as int + delta);
    var h := SetNumLinks(g, finum, k);
    SetNumLinksMarks(g, finum, k);
    CommitRecordView(h, finum);
  }

  /** The setter leaves the node cached and marked modified. */
  lemma SetNumLinksMarks(g: State, finum: int, k: uint16)
    requires Shaped(g) && InumOk(finum)
    ensures var h := SetNumLinks(g, finum, k);
      h.cache.nodeValid && h.cache.nodeModified && h.cache.node == CurNode(g, finum).(numLinks := k)
  {
  }

  /** A link added and taken away again: the record stored decodes to the node as
      its handle held it. */
  lemma RelinkTwice(g: State, finum: int)
    requires Shaped(g) && InumOk(finum) && finum < BitmapBits
    requires var ib := CurNode(g, finum).indirectBlock as int; ib == 0 || DataBlock(ib)
    ensures var u := Relink(Relink(g, finum, 1).st, finum, -1);
      u.res == Ok(()) && DecodeInode(u.st.disk, NodeOffset(finum)) == CurNode(g, finum)
  {
    RelinkView(g, finum, 1);
    RelinkBack(Relink(g, finum, 1).st, finum, CurNode(g, finum));
  }

  /** A link taken away from a node that was given one: the record stored decodes
      to the node before. */
  lemma RelinkBack(h: State, finum: int, n: Inode)
    requires Shaped(h) && InumOk(finum) && finum < BitmapBits
    requires CurNode(h, finum) == n.(numLinks := Links(n.numLinks as int + 1))
    requires var ib := n.indirectBlock as int; ib == 0 || DataBlock(ib)
    ensures var u := Relink(h, finum, -1);
      u.res == Ok(()) && DecodeInode(u.st.disk, NodeOffset(finum)) == n
  {
    RelinkView(h, finum, -1);
    LinksBackNode(n, CurNode(h, finum));
  }

  /** On the inode: `++` then `--` on the link count leaves the inode as it was. */
  lemma LinksBackNode(n: Inode, m: Inode)
    requires m == n.(numLinks := Links(n.numLinks as int + 1))
    ensures m.(numLinks := Links(m.numLinks as int + -1)) == n
  {
    LinksBack(n.numLinks);
  }

  /** The Node getter a second time changes nothing. */
  lemma AddEntryLoaded(s: State, inum: int, e: DirEntry)
    requires Shaped(s) && InumOk(inum)
    ensures AddEntry(LoadNode(s, inum), inum, e) == AddEntry(s, inum, e)
  {
    assert LoadNode(LoadNode(s, inum), inum) == LoadNode(s, inum);
  }

  /** LinkNode into a laid-out directory holding the entries `es`, when the append
      succeeds and leaves the directory laid out: the directory then lists `es`
      followed by the new entry, and the other node's record holds one more link. */
  lemma LinkNodeView(s: State, inum: int, name: Name, f: Cache, finum: uint32, es: seq<DirEntry>)
    requires Shaped(s) && InumOk(inum) && InumOk(finum as int) && finum as int < BitmapBits && |f.table| == IndirectCount
    requires Laid(ViewOf(s, inum)) && CurNode(s, inum).ntype == DirectoryType
    requires NamesFit(es) && NameFits(DirEntry(finum, name))
    requires Whole(ViewOf(s, inum)) && FileContent(ViewOf(s, inum)) == EncodeDir(es)
    requires var a := AddEntry(s, inum, DirEntry(finum, name));
      a.res.Ok? && Laid(ViewOf(a.st, inum)) &&
      var ib := CurNode(State(a.st.disk, f), finum as int).indirectBlock as int; ib == 0 || DataBlock(ib)
    ensures var a, o := AddEntry(s, inum, DirEntry(finum, name)), LinkNode(s, inum, name, f, finum);
      var n, d := CurNode(State(a.st.disk, f), finum as int), ViewOf(a.st, inum);
      o.res == Ok(()) && o.dir == a.st.cache &&
      Whole(d) && ParseFrom(FileContent(d), 0) == Ok(es + [DirEntry(finum, name)]) &&
      FileContent(d) == EncodeDir(es + [DirEntry(finum, name)]) &&
      o.other == Relink(State(a.st.disk, f), finum as int, 1).st &&
      DecodeInode(o.other.disk, NodeOffset(finum as int)) == n.(numLinks := Links(n.numLinks as int + 1))
  {
    var e := DirEntry(finum, name);
    LinkNodeSteps(s, inum, name, f, finum);
    AddEntryView(s, inum, e, es);
    var a := AddEntry(s, inum, e);
    RelinkView(State(a.st.disk, f), finum as int, 1);
  }

  /** LinkNode on a directory whose append succeeds is that append followed by
      Relink on the other node. */
  lemma LinkNodeSteps(s: State, inum: int, name: Name, f: Cache, finum: uint32)
    requires Shaped(s) && InumOk(inum) && InumOk(finum as int) && |f.table| == IndirectCount
    requires CurNode(s, inum).ntype == DirectoryType
    ensures var a, o := AddEntry(s, inum, DirEntry(finum, name)), LinkNode(s, inum, name, f, finum);
      var u := Relink(State(a.st.disk, f), finum as int, 1);
      a.res.Ok? ==> o.dir == a.st.cache && o.other == u.st && o.res == u.res
  {
    AddEntryLoaded(s, inum, DirEntry(finum, name));
  }

  /** LinkNode of a laid-out directory to itself, when the append succeeds and
      leaves it laid out: the directory lists `es` followed by its own entry, and
      the record stored holds both the grown Size and one more link. */
  lemma LinkSelfView(s: State, inum: int, name: Name, es: seq<DirEntry>)
    requires Shaped(s) && InumOk(inum) && inum < BitmapBits
    requires Laid(ViewOf(s, inum)) && CurNode(s, inum).ntype == DirectoryType
    requires NamesFit(es) && NameFits(DirEntry(inum as uint32, name))
    requires Whole(ViewOf(s, inum)) && FileContent(ViewOf(s, inum)) == EncodeDir(es)
    requires var a := AddEntry(s, inum, DirEntry(inum as uint32, name)); a.res.Ok? && Laid(ViewOf(a.st, inum))
    ensures var e := DirEntry(inum as uint32, name);
      var a, o := AddEntry(s, inum, e), LinkSelf(s, inum, name);
      var n := CurNode(a.st, inum); var m := n.(numLinks := Links(n.numLinks as int + 1));
      o.res == Ok(()) && Whole(ViewOf(a.st, inum)) && FileContent(ViewOf(a.st, inum)) == EncodeDir(es + [e]) &&
      n.size as int == CurNode(s, inum).size as int + 8 + |name| &&
      CurNode(o.st, inum) == m && DecodeInode(o.st.disk, NodeOffset(inum)) == m
  {
    var e := DirEntry(inum as uint32, name);
    LinkSelfSteps(s, inum, name);
    AddEntryView(s, inum, e, es);
    RelinkLaid(AddEntry(s, inum, e).st, inum);
  }

  /** Relink by one on a laid-out node: RelinkView's facts. */
  lemma RelinkLaid(a: State, inum: int)
    requires Shaped(a) && InumOk(inum) && inum < BitmapBits && Laid(ViewOf(a, inum))
    ensures var o, n := Relink(a, inum, 1), CurNode(a, inum);
      var m := n.(numLinks := Links(n.numLinks as int + 1));
      o.res == Ok(()) && CurNode(o.st, inum) == m && DecodeInode(o.st.disk, NodeOffset(inum)) == m
  {
    RelinkView(a, inum, 1);
  }

  /** LinkSelf on a directory whose append succeeds is that append followed by
      Relink on the same caches. */
  lemma LinkSelfSteps(s: State, inum: int, name: Name)
    requires Shaped(s) && InumOk(inum) && CurNode(s, inum).ntype == DirectoryType
    ensures var a := AddEntry(s, inum, DirEntry(inum as uint32, name));
      a.res.Ok? ==> LinkSelf(s, inum, name) == Relink(a.st, inum, 1)
  {
    AddEntryLoaded(s, inum, DirEntry(inum as uint32, name));
  }

  /** RenameNode in a laid-out directory holding the entries `es`, one of which holds
      the node: when the append succeeds and leaves the directory laid out, the
      directory lists `es` without the node's first entry, followed by the entry
      under the new name, and the node's record is stored with its link count as
      it was. */
  lemma RenameNodeView(s: State, inum: int, f: Cache, finum: uint32, name: Name, es: seq<DirEntry>)
    requires Shaped(s) && InumOk(inum) && InumOk(finum as int) && finum as int < BitmapBits && |f.table| == IndirectCount
    requires Laid(ViewOf(s, inum)) && CurNode(s, inum).ntype == DirectoryType
    requires NamesFit(es) && NameFits(DirEntry(finum, name)) && FirstWith(es, finum) < |es|
    requires Whole(ViewOf(s, inum)) && FileContent(ViewOf(s, inum)) == EncodeDir(es)
    requires var d := DeleteNode(s, inum, finum); var a := AddEntry(d.st, inum, DirEntry(finum, name));
      a.res.Ok? && Laid(ViewOf(a.st, inum)) &&
      var ib := CurNode(State(a.st.disk, f), finum as int).indirectBlock as int; ib == 0 || DataBlock(ib)
    ensures var k := FirstWith(es, finum);
      var d := DeleteNode(s, inum, finum); var a := AddEntry(d.st, inum, DirEntry(finum, name));
      var o, n, v := RenameNode(s, inum, f, finum, name), CurNode(State(a.st.disk, f), finum as int), ViewOf(a.st, inum);
      o.res == Ok(()) && o.dir == a.st.cache &&
      Whole(v) && FileContent(v) == EncodeDir(es[..k] + es[k + 1..] + [DirEntry(finum, name)]) &&
      DecodeInode(o.other.disk, NodeOffset(finum as int)) == n
  {
    var k := FirstWith(es, finum);
    DeleteNodeView(s, inum, finum, es);
    var d := DeleteNode(s, inum, finum);
    RemoveEntryBytes(es, k);
    RenameTail(d.st, inum, f, finum, name, es[..k] + es[k + 1..]);
  }

  /** The rest of RenameNode once the entry is deleted: LinkNode, then the link count
      lowered again and the node committed. */
  lemma RenameTail(t: State, inum: int, f: Cache, finum: uint32, name: Name, es: seq<DirEntry>)
    requires Shaped(t) && InumOk(inum) && InumOk(finum as int) && finum as int < BitmapBits && |f.table| == IndirectCount
    requires Laid(ViewOf(t, inum)) && CurNode(t, inum).ntype == DirectoryType
    requires NamesFit(es) && NameFits(DirEntry(finum, name))
    requires Whole(ViewOf(t, inum)) && FileContent(ViewOf(t, inum)) == EncodeDir(es)
    requires var a := AddEntry(t, inum, DirEntry(finum, name));
      a.res.Ok? && Laid(ViewOf(a.st, inum)) &&
      var ib := CurNode(State(a.st.disk, f), finum as int).indirectBlock as int; ib == 0 || DataBlock(ib)
    ensures var a, l := AddEntry(t, inum, DirEntry(finum, name)), LinkNode(t, inum, name, f, finum);
      var n, u := CurNode(State(a.st.disk, f), finum as int), Relink(l.other, finum as int, -1);
      l.res == Ok(())
    ensures var a, l := AddEntry(t, inum, DirEntry(finum, name)), LinkNode(t, inum, name, f, finum);
      l.dir == a.st.cache
    ensures var a, l := AddEntry(t, inum, DirEntry(finum, name)), LinkNode(t, inum, name, f, finum);
      var n, u := CurNode(State(a.st.disk, f), finum as int), Relink(l.other, finum as int, -1);
      u.res == Ok(())
    ensures var a, l := AddEntry(t, inum, DirEntry(finum, name)), LinkNode(t, inum, name, f, finum);
      var n, u := CurNode(State(a.st.disk, f), finum as int), Relink(l.other, finum as int, -1);
      Whole(ViewOf(a.st, inum)) && FileContent(ViewOf(a.st, inum)) == EncodeDir(es + [DirEntry(finum, name)])
    ensures var a, l := AddEntry(t, inum, DirEntry(finum, name)), LinkNode(t, inum, name, f, finum);
      var n, u := CurNode(State(a.st.disk, f), finum as int), Relink(l.other, finum as int, -1);
      DecodeInode(u.st.disk, NodeOffset(finum as int)) == n
  {
    LinkNodeView(t, inum, name, f, finum, es);
    var a := AddEntry(t, inum, DirEntry(finum, name));
    RelinkTwice(State(a.st.disk, f), finum as int);
  }

  // ------------------------------------------------------------ NewNode

  /** The node NewNode makes is stored with the given type, one link and Size 0; its
      block fields are whatever the record held before. */
  lemma InitNodeView(disk: seq<byte>, finum: int, ntype: uint16)
    requires |disk| == DeviceSize && InumOk(finum) && finum < BitmapBits
    requires var ib := DecodeInode(disk, NodeOffset(finum)).indirectBlock as int; ib == 0 || DataBlock(ib)
    ensures var o, r := InitNode(disk, finum, ntype), DecodeInode(disk, NodeOffset(finum));
      o.res == Ok(()) && DecodeInode(o.st.disk, NodeOffset(finum)) == r.(ntype := ntype, numLinks := 1, size := 0)
  {
    var s := State(disk, FreshCache());
    CommitView(SetSize(SetNumLinks(SetType(s, finum, ntype), finum, 1), finum, 0), finum);
  }

  /** A change to the inode bitmap alone leaves a laid-out file's view, and so its
      content, as it was. */
  lemma InodeBitmapFrame(s: State, inum: int, disk: seq<byte>)
    requires Shaped(s) && InumOk(inum) && |disk| == DeviceSize && Laid(ViewOf(s, inum))
    requires forall a :: 0 <= a < DeviceSize && !(BlockSize * InodeBitmapBlock <= a < BlockSize * InodeTableBlock) ==>
      disk[a] == s.disk[a]
    ensures var v, w := ViewOf(s, inum), ViewOf(s.(disk := disk), inum);
      w.node == v.node && w.table == v.table && Laid(w) && Whole(w) && Whole(v) && FileContent(w) == FileContent(v)
  {
    var t := s.(disk := disk);
    var at := NodeOffset(inum);
    assert disk[at..at + NodeSize] == s.disk[at..at + NodeSize];
    InodeFromBytes(disk, at, s.disk, at);
    var v, w := ViewOf(s, inum), ViewOf(t, inum);
    var ib := v.node.indirectBlock as int;
    if !s.cache.indirectValid && ib != 0 {
      assert disk[BlockSize * ib..BlockSize * ib + 4 * IndirectCount] == s.disk[BlockSize * ib..BlockSize * ib + 4 * IndirectCount];
      WordsFromBytes(disk, BlockSize * ib, s.disk, BlockSize * ib, IndirectCount);
    }
    assert w.node == v.node && w.table == v.table;
    LaidWhole(v);
    assert forall p :: 0 <= p ==> PartOf(w, p) == PartOf(v, p);
    LaidWhole(w);
    var c, d := FileContent(v), FileContent(w);
    forall i | 0 <= i < |c| ensures d[i] == c[i] {
      LaidPart(v, i);
    }
  }

  /** The state NewNode appends the entry in: the directory loaded and the inode
      bitmap with inode `i` claimed. */
  function Claimed(s: State, inum: int): (r: (State, int))
    requires Shaped(s) && InumOk(inum)
    ensures Shaped(r.0) && r.1 == FirstClear(BlockBytes(s.disk, InodeBitmapBlock), 0)
  {
    var (disk, i) := ClaimBit(s.disk, InodeBitmapBlock);
    (LoadNode(s, inum).(disk := disk), i)
  }

  /** NewNode's structure: no free inode is NoFreeInode with nothing written;
      otherwise the first free inode is claimed, the entry appended, and the new node
      initialised, and the answer is that inode. */
  lemma NewNodeSteps(s: State, inum: int, name: Name, ntype: uint16)
    requires Shaped(s) && InumOk(inum) && CurNode(s, inum).ntype == DirectoryType
    ensures var o, (t, i) := NewNode(s, inum, name, ntype), Claimed(s, inum);
      (i == -1 ==> o.res == Err(NoFreeInode) && o.other.disk == s.disk) &&
      (o.res.Ok? ==>
         0 <= i < BitmapBits && o.res.value as int == i &&
         var a := AddEntry(t, inum, DirEntry(i as uint32, name));
         a.res.Ok? && o.dir == a.st.cache && o.other == InitNode(a.st.disk, i, ntype).st)
  {
  }

  /** Claiming an inode changes the inode bitmap only. */
  lemma ClaimedFrame(s: State, inum: int)
    requires Shaped(s) && InumOk(inum) && Laid(ViewOf(s, inum))
    ensures var v, w := ViewOf(s, inum), ViewOf(Claimed(s, inum).0, inum);
      w.node == v.node && Laid(w) && Whole(w) && Whole(v) && FileContent(w) == FileContent(v)
  {
    var (disk, i) := ClaimBit(s.disk, InodeBitmapBlock);
    var t := LoadNode(s, inum);
    LoadNodeView(s, inum);
    if i != -1 {
      SpliceAt(s.disk, BlockSize * InodeBitmapBlock, SetBit(BlockBytes(s.disk, InodeBitmapBlock), i));
    }
    InodeBitmapFrame(t, inum, disk);
  }

  /** NewNode in a laid-out directory holding the entries `es`: a full inode bitmap
      is NoFreeInode; on success the answer is the first free inode, the directory,
      when the append leaves it laid out, lists `es` followed by the new entry, and
      the new node is stored with the given type, one link and Size 0. */
  lemma NewNodeView(s: State, inum: int, name: Name, ntype: uint16, es: seq<DirEntry>)
    requires Shaped(s) && InumOk(inum) && Laid(ViewOf(s, inum)) && CurNode(s, inum).ntype == DirectoryType
    requires NamesFit(es) && IsAscii(name) && Whole(ViewOf(s, inum)) && FileContent(ViewOf(s, inum)) == EncodeDir(es)
    ensures var o, (t, i) := NewNode(s, inum, name, ntype), Claimed(s, inum);
      var bm := BlockBytes(s.disk, InodeBitmapBlock);
      (i == -1 ==> o.res == Err(NoFreeInode)) &&
      (o.res.Ok? ==> o.res.value as int == i && 0 <= i < BitmapBits && !Bit(bm, i) && forall j :: 0 <= j < i ==> Bit(bm, j))
    ensures var o, (t, i) := NewNode(s, inum, name, ntype), Claimed(s, inum);
      o.res.Ok? ==>
        var e := DirEntry(i as uint32, name); var a := AddEntry(t, inum, e);
        var r := DecodeInode(a.st.disk, NodeOffset(i));
        (Laid(ViewOf(a.st, inum)) ==>
           Whole(ViewOf(a.st, inum)) && FileContent(ViewOf(a.st, inum)) == EncodeDir(es + [e])) &&
        (r.indirectBlock == 0 || DataBlock(r.indirectBlock as int) ==>
           DecodeInode(o.other.disk, NodeOffset(i)) == r.(ntype := ntype, numLinks := 1, size := 0))
  {
    var o := NewNode(s, inum, name, ntype);
    var (t, i) := Claimed(s, inum);
    NewNodeSteps(s, inum, name, ntype);
    if o.res.Ok? {
      var e := DirEntry(i as uint32, name);
      var a := AddEntry(t, inum, e);
      ClaimedFrame(s, inum);
      if Laid(ViewOf(a.st, inum)) {
        AddEntryView(t, inum, e, es);
      }
      var r := DecodeInode(a.st.disk, NodeOffset(i));
      if r.indirectBlock == 0 || DataBlock(r.indirectBlock as int) {
        InitNodeView(a.st.disk, i, ntype);
      }
    }
  }
}
