/** What Commit leaves on the device: the inode record, when the node is marked
    modified, decodes to the cached node; the indirect block, when the table is
    cached and marked modified, decodes to the cached table; no other byte moves.
    Reloading a node after Commit therefore yields what its handle held. */
module NodeCommit {
  import opened Bytes
  import opened Layout
  import opened NodeOps
  import opened NodeWrite

  /** Bytes `[lo, lo + n)` of `e` are the only ones that may differ from `d`. */
  predicate SameBut(d: seq<byte>, e: seq<byte>, lo: int, n: int)
  {
    |e| == |d| && forall a :: 0 <= a < |d| && !(lo <= a < lo + n) ==> e[a] == d[a]
  }

  /** The first half of Commit: the record of a modified node decodes to the node,
      and nothing else of the device changes. */
  lemma CommitNodeView(s: State, inum: int)
    requires Shaped(s) && InumOk(inum)
    ensures NodeOffset(inum) + NodeSize <= DeviceSize
    ensures var r, n, at := CommitNode(s, inum), CurNode(s, inum), NodeOffset(inum);
      r.cache.nodeValid && r.cache.node == n &&
      DecodeInode(r.disk, at) == (if s.cache.nodeValid && s.cache.nodeModified then n else DecodeInode(s.disk, at)) &&
      SameBut(s.disk, r.disk, at, NodeSize)
  {
    var t := LoadNode(s, inum);
    var at := NodeOffset(inum);
    if t.cache.nodeModified {
      var e := EncodeInode(t.cache.node);
      SpliceSlice(t.disk, at, e);
      SpliceAt(t.disk, at, e);
      InodeRoundTrip(t.cache.node, Splice(t.disk, at, e), at);
    }
  }

  /** The second half of Commit, on a loaded node whose indirect block, if any, lies
      on the device: a cached, modified table is stored in that block, and decodes
      back to the table; nothing else of the device changes. */
  lemma CommitTableView(s: State, inum: int)
    requires Shaped(s) && InumOk(inum) && s.cache.nodeValid
    requires var ib := s.cache.node.indirectBlock as int; ib == 0 || BlockOk(ib)
    ensures var o, ib := CommitTable(s, inum), s.cache.node.indirectBlock as int;
      o.res == Ok(()) && o.st.cache.nodeValid && o.st.cache.node == s.cache.node &&
      (ib == 0 ==> o.st.disk == s.disk) &&
      (ib != 0 ==>
         SameBut(s.disk, o.st.disk, BlockSize * ib, BlockSize) &&
         (s.cache.indirectValid && s.cache.indirectModified ==>
            DecodeWords(o.st.disk, BlockSize * ib, IndirectCount) == s.cache.table) &&
         (!(s.cache.indirectValid && s.cache.indirectModified) ==> o.st.disk == s.disk))
  {
    var ib := s.cache.node.indirectBlock as int;
    if ib != 0 {
      var v := LoadTable(s, inum);
      if v.st.cache.indirectModified {
        var e := EncodeWords(v.st.cache.table);
        var d := Splice(v.st.disk, BlockSize * ib, e);
        SpliceSlice(v.st.disk, BlockSize * ib, e);
        SpliceAt(v.st.disk, BlockSize * ib, e);
        WordsFromBytes(d, BlockSize * ib, e, 0, IndirectCount);
        assert e[0..4 * IndirectCount] == e;
        WordsRoundTrip(v.st.cache.table);
      }
    }
  }

  /** Commit on node `inum`, a node of the inode bitmap whose indirect block, if
      any, is a data block: it succeeds, keeps the cached node, stores a modified
      node's record and a modified cached table, and changes no other byte. */
  lemma CommitView(s: State, inum: int)
    requires Shaped(s) && InumOk(inum) && inum < BitmapBits
    requires var ib := CurNode(s, inum).indirectBlock as int; ib == 0 || DataBlock(ib)
    ensures NodeOffset(inum) + NodeSize <= DeviceSize
    ensures var o, n, at := Commit(s, inum), CurNode(s, inum), NodeOffset(inum);
      var ib := n.indirectBlock as int;
      o.res == Ok(()) && CurNode(o.st, inum) == n &&
      DecodeInode(o.st.disk, at) == (if s.cache.nodeValid && s.cache.nodeModified then n else DecodeInode(s.disk, at)) &&
      (ib != 0 && s.cache.indirectValid && s.cache.indirectModified ==>
         DecodeWords(o.st.disk, BlockSize * ib, IndirectCount) == s.cache.table) &&
      (forall a :: 0 <= a < DeviceSize && !(at <= a < at + NodeSize) && !(ib != 0 && BlockSize * ib <= a < BlockSize * ib + BlockSize) ==>
         o.st.disk[a] == s.disk[a])
  {
    var r := CommitNode(s, inum);
    var at := NodeOffset(inum);
    CommitNodeView(s, inum);
    CommitTableView(r, inum);
    var o := Commit(s, inum);
    var ib := r.cache.node.indirectBlock as int;
    if ib != 0 {
      RecordBeforeData(inum, ib);
      SameButSlice(r.disk, o.st.disk, BlockSize * ib, BlockSize, at, at + NodeSize);
      InodeFromBytes(o.st.disk, at, r.disk, at);
      if s.cache.indirectValid && s.cache.indirectModified {
        assert r.cache.table == s.cache.table;
        SameButSlice(s.disk, r.disk, at, NodeSize, BlockSize * ib, BlockSize * ib + 4 * IndirectCount);
      }
    }
  }

  /** The record of an inode the inode bitmap covers lies before every data block. */
  lemma RecordBeforeData(inum: int, ib: int)
    requires 0 <= inum < BitmapBits && DataBlock(ib)
    ensures NodeOffset(inum) + NodeSize <= BlockSize * ib
  {
  }

  /** Bytes outside the span that may differ are the same in both. */
  lemma SameButSlice(d: seq<byte>, e: seq<byte>, lo: int, n: int, a: int, b: int)
    requires SameBut(d, e, lo, n) && 0 <= a <= b <= |d| && (b <= lo || lo + n <= a)
    ensures e[a..b] == d[a..b]
  {
    assert forall i :: 0 <= i < b - a ==> e[a..b][i] == d[a..b][i];
  }

  /** CommitView's facts about the node alone: Commit succeeds, keeps the cached
      node, and a modified node's record decodes to it. */
  lemma CommitRecordView(s: State, inum: int)
    requires Shaped(s) && InumOk(inum) && inum < BitmapBits && s.cache.nodeValid && s.cache.nodeModified
    requires var ib := s.cache.node.indirectBlock as int; ib == 0 || DataBlock(ib)
    ensures var o := Commit(s, inum);
      o.res == Ok(()) && CurNode(o.st, inum) == s.cache.node && DecodeInode(o.st.disk, NodeOffset(inum)) == s.cache.node
  {
    CommitView(s, inum);
  }
}
