/** The directory operations of BobFsNode on values: a directory's content is its
    entries back to back, read and written through ReadAll and WriteAll.  Like
    NodeOps, every function follows its C# member step by step and returns the
    state it leaves with its outcome. */
module DirOps {
  import opened Bytes
  import opened Layout
  import opened Bitmap
  import opened NodeOps

  /** An operation on a directory and one other node of the same device: the
      directory's caches afterwards, the other node's state (which carries the
      device), and the outcome. */
  datatype Out2<T> = Out2(dir: Cache, other: State, res: Result<T>)

  /** The caches of a node just made: nothing loaded, nothing modified. */
  function FreshCache(): (c: Cache)
    ensures !c.nodeValid && !c.indirectValid && |c.table| == IndirectCount
  {
    Cache(Inode(0, 0, 0, 0, 0), false, false, seq(IndirectCount, _ => 0), false, false)
  }

  /** The IsDirectory test that opens every directory operation: the Type getter
      loads the inode. */
  function CheckDir(s: State, inum: int): (o: Out<()>)
    requires Shaped(s) && InumOk(inum)
    ensures Shaped(o.st) && o.st.disk == s.disk && o.st.cache.nodeValid
    ensures CurNode(o.st, inum) == CurNode(s, inum)
    ensures o.res.Ok? <==> CurNode(s, inum).ntype == DirectoryType
    ensures o.res.Err? ==> o.res.error == NotDirectory
  {
    var t := LoadNode(s, inum);
    if t.cache.node.ntype == DirectoryType then Out(t, Ok(())) else Out(t, Err(NotDirectory))
  }

  // -------------------------------------------------------------- reading

  /** DirEntry.ReadFrom at `at`: eight bytes of head read into a fresh array, then
      as many name bytes as the head's length field says, into another. */
  function EntryRead(s: State, inum: int, at: int): (o: Out<DirEntry>)
    requires Shaped(s) && InumOk(inum) && 0 <= at
    ensures Shaped(o.st) && o.st.disk == s.disk
    ensures o.res.Ok? ==> at + 8 + |o.res.value.name| <= MaxInt
  {
    if at + 8 > MaxInt then Out(s, Err(BadEntry)) else EntryName(ReadAll(s, inum, at, 8), inum, at)
  }

  /** The second half of DirEntry.ReadFrom, once the head read has ended in `h`: the
      name read after it. */
  function EntryName(h: Out<seq<byte>>, inum: int, at: int): (o: Out<DirEntry>)
    requires Shaped(h.st) && InumOk(inum) && 0 <= at && at + 8 <= MaxInt
    requires h.res.Ok? ==> |h.res.value| <= 8
    ensures Shaped(o.st) && o.st.disk == h.st.disk
    ensures o.res.Ok? ==> at + 8 + |o.res.value.name| <= MaxInt
  {
    if h.res.Err? then Out(h.st, Err(h.res.error))
    else
      var head := Splice(Zeros(8), 0, h.res.value);
      var len := ReadLE32(head, 4) as int;
      if at + 8 + len > MaxInt then Out(h.st, Err(BadEntry))
      else
        var b := ReadAll(h.st, inum, at + 8, len);
        if b.res.Err? then Out(b.st, Err(b.res.error))
        else Out(b.st, Ok(DirEntry(ReadLE32(head, 0), Ascii(Splice(Zeros(len), 0, b.res.value)))))
  }

  /** One round of a directory scan at `runner`: the Size getter, then, while
      `runner` is below Size, the entry there; None once the scan is over. */
  function ScanStep(s: State, inum: int, runner: int): (o: Out<Option<DirEntry>>)
    requires Shaped(s) && InumOk(inum) && 0 <= runner
    ensures Shaped(o.st) && o.st.disk == s.disk
    ensures o.res.Ok? && o.res.value.Some? ==> runner + 8 + |o.res.value.value.name| <= MaxInt
  {
    var t := LoadNode(s, inum);
    if runner >= t.cache.node.size as int then Out(t, Ok(None))
    else
      var e := EntryRead(t, inum, runner);
      Out(e.st, if e.res.Err? then Err(e.res.error) else Ok(Some(e.res.value)))
  }

  /** The scan loop of Contents from `runner`, with `acc` listed so far. */
  function ListLoop(s: State, inum: int, runner: int, acc: seq<DirEntry>): (o: Out<seq<DirEntry>>)
    requires Shaped(s) && InumOk(inum) && 0 <= runner <= MaxInt
    ensures Shaped(o.st) && o.st.disk == s.disk
    ensures o.res.Ok? ==> |acc| <= |o.res.value| && o.res.value[..|acc|] == acc
    decreases MaxInt - runner
  {
    var x := ScanStep(s, inum, runner);
    if x.res.Err? then Out(x.st, Err(x.res.error))
    else if x.res.value.None? then Out(x.st, Ok(acc))
    else
      var e := x.res.value.value;
      var o := ListLoop(x.st, inum, runner + 8 + |e.name|, acc + [e]);
      assert o.res.Ok? ==> o.res.value[..|acc|] == (acc + [e])[..|acc|];
      o
  }

  /** A round of the Contents loop that ends in `x`, leaving `t`: an exception or the
      end of the scan ends the loop, an entry is listed and the loop goes on. */
  lemma ListNext(s: State, inum: int, runner: int, acc: seq<DirEntry>, t: State, x: Result<Option<DirEntry>>)
    requires Shaped(s) && InumOk(inum) && 0 <= runner <= MaxInt
    requires Out(t, x) == ScanStep(s, inum, runner)
    ensures Shaped(t)
    ensures x.Err? ==> ListLoop(s, inum, runner, acc) == Out(t, Err(x.error))
    ensures x.Ok? && x.value.None? ==> ListLoop(s, inum, runner, acc) == Out(t, Ok(acc))
    ensures x.Ok? && x.value.Some? ==>
      var e := x.value.value;
      runner + 8 + |e.name| <= MaxInt &&
      ListLoop(s, inum, runner, acc) == ListLoop(t, inum, runner + 8 + |e.name|, acc + [e])
  {
  }

  /** Contents: the entries of a directory in stored order, as (inode number,
      name) pairs. */
  function Contents(s: State, inum: int): (o: Out<seq<DirEntry>>)
    requires Shaped(s) && InumOk(inum)
    ensures Shaped(o.st) && o.st.disk == s.disk
    ensures CurNode(s, inum).ntype != DirectoryType ==> o.res == Err(NotDirectory)
  {
    var c := CheckDir(s, inum);
    if c.res.Err? then Out(c.st, Err(c.res.error)) else ListLoop(c.st, inum, 0, [])
  }

  /** The scan loop of FindNode from `runner`: stops at the first entry named `name`. */
  function FindLoop(s: State, inum: int, runner: int, name: Name): (o: Out<Option<uint32>>)
    requires Shaped(s) && InumOk(inum) && 0 <= runner <= MaxInt
    ensures Shaped(o.st) && o.st.disk == s.disk
    decreases MaxInt - runner
  {
    var x := ScanStep(s, inum, runner);
    if x.res.Err? then Out(x.st, Err(x.res.error))
    else if x.res.value.None? then Out(x.st, Ok(None))
    else
      var e := x.res.value.value;
      if e.name == name then Out(x.st, Ok(Some(e.inum)))
      else FindLoop(x.st, inum, runner + 8 + |e.name|, name)
  }

  /** A round of the FindNode loop that ends in `x`, leaving `t`. */
  lemma FindNext(s: State, inum: int, runner: int, name: Name, t: State, x: Result<Option<DirEntry>>)
    requires Shaped(s) && InumOk(inum) && 0 <= runner <= MaxInt
    requires Out(t, x) == ScanStep(s, inum, runner)
    ensures Shaped(t)
    ensures x.Err? ==> FindLoop(s, inum, runner, name) == Out(t, Err(x.error))
    ensures x.Ok? && x.value.None? ==> FindLoop(s, inum, runner, name) == Out(t, Ok(None))
    ensures x.Ok? && x.value.Some? ==>
      var e := x.value.value;
      runner + 8 + |e.name| <= MaxInt &&
      FindLoop(s, inum, runner, name)
        == if e.name == name then Out(t, Ok(Some(e.inum))) else FindLoop(t, inum, runner + 8 + |e.name|, name)
  {
  }

  /** FindNode: the inode number of the first entry named `name`, or None. */
  function FindNode(s: State, inum: int, name: Name): (o: Out<Option<uint32>>)
    requires Shaped(s) && InumOk(inum)
    ensures Shaped(o.st) && o.st.disk == s.disk
    ensures CurNode(s, inum).ntype != DirectoryType ==> o.res == Err(NotDirectory)
  {
    var c := CheckDir(s, inum);
    if c.res.Err? then Out(c.st, Err(c.res.error)) else FindLoop(c.st, inum, 0, name)
  }

  // ------------------------------------------------------------- deleting

  /** The scan loop of DeleteNode from `runner`: the offset and entry of the first
      entry holding `target`; NodeNotFound when the scan reaches Size. */
  function SeekLoop(s: State, inum: int, runner: int, target: uint32): (o: Out<(int, DirEntry)>)
    requires Shaped(s) && InumOk(inum) && 0 <= runner <= MaxInt
    ensures Shaped(o.st) && o.st.disk == s.disk
    ensures o.res.Ok? ==>
      runner <= o.res.value.0 && o.res.value.0 + 8 + |o.res.value.1.name| <= MaxInt &&
      o.res.value.1.inum == target
    decreases MaxInt - runner
  {
    var x := ScanStep(s, inum, runner);
    if x.res.Err? then Out(x.st, Err(x.res.error))
    else if x.res.value.None? then Out(x.st, Err(NodeNotFound))
    else
      var e := x.res.value.value;
      if e.inum == target then Out(x.st, Ok((runner, e)))
      else SeekLoop(x.st, inum, runner + 8 + |e.name|, target)
  }

  /** A round of the DeleteNode scan that ends in `x`, leaving `t`. */
  lemma SeekNext(s: State, inum: int, runner: int, target: uint32, t: State, x: Result<Option<DirEntry>>)
    requires Shaped(s) && InumOk(inum) && 0 <= runner <= MaxInt
    requires Out(t, x) == ScanStep(s, inum, runner)
    ensures Shaped(t)
    ensures x.Err? ==> SeekLoop(s, inum, runner, target) == Out(t, Err(x.error))
    ensures x.Ok? && x.value.None? ==> SeekLoop(s, inum, runner, target) == Out(t, Err(NodeNotFound))
    ensures x.Ok? && x.value.Some? ==>
      var e := x.value.value;
      runner + 8 + |e.name| <= MaxInt &&
      SeekLoop(s, inum, runner, target)
        == if e.inum == target then Out(t, Ok((runner, e))) else SeekLoop(t, inum, runner + 8 + |e.name|, target)
  {
  }

  /** The compaction loop of DeleteNode: a block's worth of bytes read from `gap`
      past `runner` is written back at `runner`, until a read moves nothing.  A
      read whose end would pass the int range is an Overflow. */
  function ShiftLoop(s: State, inum: int, runner: int, gap: int): (o: Out<()>)
    requires Shaped(s) && InumOk(inum) && 0 <= runner && 0 < gap && runner + gap <= MaxInt
    ensures Shaped(o.st)
    decreases MaxInt - runner, 1
  {
    if runner + gap + BlockSize > MaxInt then Out(s, Err(Overflow))
    else
      var r := ReadAll(s, inum, runner + gap, BlockSize);
      if r.res.Err? then Out(r.st, Err(r.res.error))
      else if |r.res.value| == 0 then Out(r.st, Ok(()))
      else ShiftOn(WriteAll(r.st, inum, runner, r.res.value), inum, runner, gap)
  }

  /** The rest of the compaction loop once the write at `runner` has ended in `w`. */
  function ShiftOn(w: Out<int>, inum: int, runner: int, gap: int): (o: Out<()>)
    requires Shaped(w.st) && InumOk(inum) && 0 <= runner && 0 < gap
    requires w.res.Ok? ==> 0 < w.res.value <= BlockSize && runner + gap + w.res.value <= MaxInt
    ensures Shaped(o.st)
    decreases MaxInt - runner, 0
  {
    if w.res.Err? then Out(w.st, Err(w.res.error)) else ShiftLoop(w.st, inum, runner + w.res.value, gap)
  }

  /** A round of the compaction loop whose read ends in `r`, leaving `t`: an
      exception or an empty read ends the loop; otherwise the bytes are written. */
  lemma ShiftNext(s: State, inum: int, runner: int, gap: int, t: State, r: Result<seq<byte>>)
    requires Shaped(s) && InumOk(inum) && 0 <= runner && 0 < gap && runner + gap + BlockSize <= MaxInt
    requires Out(t, r) == ReadAll(s, inum, runner + gap, BlockSize)
    ensures Shaped(t)
    ensures r.Err? ==> ShiftLoop(s, inum, runner, gap) == Out(t, Err(r.error))
    ensures r.Ok? && |r.value| == 0 ==> ShiftLoop(s, inum, runner, gap) == Out(t, Ok(()))
    ensures r.Ok? && |r.value| > 0 ==>
      |r.value| <= BlockSize &&
      ShiftLoop(s, inum, runner, gap) == ShiftOn(WriteAll(t, inum, runner, r.value), inum, runner, gap)
  {
  }

  /** DeleteNode: the first entry holding `target` is found, the bytes after it
      moved over it, and Size lowered by its length (as uint arithmetic). */
  function DeleteNode(s: State, inum: int, target: uint32): (o: Out<()>)
    requires Shaped(s) && InumOk(inum)
    ensures Shaped(o.st)
    ensures CurNode(s, inum).ntype != DirectoryType ==> o == Out(LoadNode(s, inum), Err(NotDirectory))
  {
    var c := CheckDir(s, inum);
    if c.res.Err? then Out(c.st, Err(c.res.error))
    else DeleteFound(SeekLoop(c.st, inum, 0, target), inum)
  }

  /** The rest of DeleteNode once the scan has ended in `f`. */
  function DeleteFound(f: Out<(int, DirEntry)>, inum: int): (o: Out<()>)
    requires Shaped(f.st) && InumOk(inum)
    requires f.res.Ok? ==> 0 <= f.res.value.0 && f.res.value.0 + 8 + |f.res.value.1.name| <= MaxInt
    ensures Shaped(o.st)
  {
    if f.res.Err? then Out(f.st, Err(f.res.error))
    else
      var gap := 8 + |f.res.value.1.name|;
      Shrink(ShiftLoop(f.st, inum, f.res.value.0, gap), inum, gap)
  }

  /** The end of DeleteNode, once the compaction has ended in `m`: `Size -= gap`. */
  function Shrink(m: Out<()>, inum: int, gap: int): (o: Out<()>)
    requires Shaped(m.st) && InumOk(inum) && 0 < gap <= MaxInt
    ensures Shaped(o.st)
  {
    if m.res.Err? then m
    else Out(SetSize(m.st, inum, ToUInt32(CurNode(m.st, inum).size as int - gap)), Ok(()))
  }

  // ------------------------------------------------------------- linking

  /** DirEntry.WriteTo at the end of the directory: the entry's bytes written at
      `(int) Size`; an end past the int range is an Overflow. */
  function AddEntry(s: State, inum: int, e: DirEntry): (o: Out<()>)
    requires Shaped(s) && InumOk(inum)
    ensures Shaped(o.st)
  {
    var t := LoadNode(s, inum);
    var at := t.cache.node.size as int;
    if at + |EncodeEntry(e)| > MaxInt then Out(t, Err(Overflow))
    else
      var w := WriteAll(t, inum, at, EncodeEntry(e));
      Out(w.st, if w.res.Err? then Err(w.res.error) else Ok(()))
  }

  /** `NumLinks` after `++` or `--` on a ushort: arithmetic modulo 2^16. */
  function Links(n: int): (r: uint16)
  {
    (n % 0x1_0000) as uint16
  }

  /** The other node `g`'s NumLinks moved by `delta`, then the node committed. */
  function Relink(g: State, finum: int, delta: int): (o: Out<()>)
    requires Shaped(g) && InumOk(finum)
    ensures Shaped(o.st)
  {
    Commit(SetNumLinks(g, finum, Links(CurNode(g, finum).numLinks as int + delta)), finum)
  }

  /** LinkNode: an entry naming node `finum` (whose caches are `f`) appended to the
      directory, then that node's NumLinks raised by one and the node committed. */
  function LinkNode(s: State, inum: int, name: Name, f: Cache, finum: uint32): (o: Out2<()>)
    requires Shaped(s) && InumOk(inum) && InumOk(finum as int) && |f.table| == IndirectCount
    ensures Shaped(o.other)
  {
    var c := CheckDir(s, inum);
    if c.res.Err? then Out2(c.st.cache, State(c.st.disk, f), Err(c.res.error))
    else
      var a := AddEntry(c.st, inum, DirEntry(finum, name));
      if a.res.Err? then Out2(a.st.cache, State(a.st.disk, f), Err(a.res.error))
      else
        var u := Relink(State(a.st.disk, f), finum as int, 1);
        Out2(a.st.cache, u.st, u.res)
  }

  /** LinkNode with the directory itself as the node linked: the entry appended
      through the directory's caches, then the same caches' NumLinks raised by one
      and committed, so the record stored carries the grown Size too. */
  function LinkSelf(s: State, inum: int, name: Name): (o: Out<()>)
    requires Shaped(s) && InumOk(inum)
    ensures Shaped(o.st)
  {
    var c := CheckDir(s, inum);
    if c.res.Err? then c
    else
      var a := AddEntry(c.st, inum, DirEntry(inum as uint32, name));
      if a.res.Err? then a else Relink(a.st, inum, 1)
  }

  /** RenameNode: the node's entry deleted and linked again under `name`, then its
      NumLinks lowered by one and the node committed. */
  function RenameNode(s: State, inum: int, f: Cache, finum: uint32, name: Name): (o: Out2<()>)
    requires Shaped(s) && InumOk(inum) && InumOk(finum as int) && |f.table| == IndirectCount
    ensures Shaped(o.other)
  {
    var d := DeleteNode(s, inum, finum);
    if d.res.Err? then Out2(d.st.cache, State(d.st.disk, f), Err(d.res.error))
    else
      var l := LinkNode(d.st, inum, name, f, finum);
      if l.res.Err? then l
      else
        var u := Relink(l.other, finum as int, -1);
        Out2(l.dir, u.st, u.res)
  }

  // ------------------------------------------------------------- creating

  /** The node NewNode makes, over device `disk`: loaded from its stored record,
      given its type, one link and Size 0, and committed. */
  function InitNode(disk: seq<byte>, finum: int, ntype: uint16): (o: Out<()>)
    requires |disk| == DeviceSize && InumOk(finum)
    ensures Shaped(o.st)
  {
    var s := State(disk, FreshCache());
    Commit(SetSize(SetNumLinks(SetType(s, finum, ntype), finum, 1), finum, 0), finum)
  }

  /** NewNode: the first free inode number claimed in the inode bitmap, an entry
      for it appended to the directory, and the new node initialised. */
  function NewNode(s: State, inum: int, name: Name, ntype: uint16): (o: Out2<uint32>)
    requires Shaped(s) && InumOk(inum)
    ensures Shaped(o.other)
    ensures o.res.Ok? ==> o.res.value as int < BitmapBits
  {
    var c := CheckDir(s, inum);
    if c.res.Err? then Out2(c.st.cache, State(c.st.disk, FreshCache()), Err(c.res.error))
    else
      var (disk, i) := ClaimBit(c.st.disk, InodeBitmapBlock);
      if i == -1 then Out2(c.st.cache, State(disk, FreshCache()), Err(NoFreeInode))
      else
        var a := AddEntry(c.st.(disk := disk), inum, DirEntry(i as uint32, name));
        if a.res.Err? then Out2(a.st.cache, State(a.st.disk, FreshCache()), Err(a.res.error))
        else
          var u := InitNode(a.st.disk, i, ntype);
          Out2(a.st.cache, u.st, if u.res.Err? then Err(u.res.error) else Ok(i as uint32))
  }
}
