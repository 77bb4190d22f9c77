/** The on-disk layout of a BobFS image: block geometry, the 16-byte inode
    record, the indirect table, directory entries and the superblock. */
module Layout {
  import opened Bytes

  const BlockSize: int := 1024
  const NodeSize: int := 16
  const MaxFilesize: int := BlockSize * 257
  /** Block numbers held by one indirect block. */
  const IndirectCount: int := BlockSize / 4
  /** Block 1 is the block bitmap, block 2 the inode bitmap, blocks 3 .. 130 the inode table. */
  const BlockBitmapBlock: int := 1
  const InodeBitmapBlock: int := 2
  const InodeTableBlock: int := 3
  /** The data block that bit 0 of the block bitmap stands for. */
  const FirstDataBlock: int := 128 + 3
  const BitmapBits: int := BlockSize * 8

  /** Node type codes. */
  const DirectoryType: uint16 := 1
  const FileType: uint16 := 2

  /** "BOBFS439" in ASCII. */
  const HeaderMagic: seq<byte> := [0x42, 0x4F, 0x42, 0x46, 0x53, 0x34, 0x33, 0x39]

  /** The exceptions the filesystem throws, as outcomes. */
  datatype Error =
    | PartInvalid      // PartBlockNum: part beyond the last block of the file
    | IndirectMissing  // the indirect table is needed but IndirectBlock is 0
    | InvalidPart      // AssignBlock: part 257 or beyond
    | PartAssigned     // AssignBlock: the indirect entry is already non-zero
    | IndexOutOfRange  // the indirect table indexed at 256 or beyond
    | BadBlock         // a block whose byte offset does not fit an int
    | ArrayTooSmall    // the indirect table read from a buffer shorter than a block
    | NotDirectory     // a directory operation on a node that is not a directory
    | NoFreeInode      // the inode bitmap is full
    | NodeNotFound     // DeleteNode: no entry has the node's inode number
    | BadEntry         // a directory entry whose extent runs past the int range
    | BadMagic         // Mount: the superblock does not start with the magic
    | Overflow         // an int offset past 2^31 - 1, which the C# arithmetic would wrap

  datatype Result<T> = Ok(value: T) | Err(error: Error)

  /** Integer ceiling division, for sizes and block counts. */
  function CeilDiv(x: nat, d: nat): (r: nat)
    requires d > 0
    ensures (r - 1) * d < x <= r * d || (x == 0 && r == 0)
  {
    (x + d - 1) / d
  }

  /** The largest file ends exactly at the end of part 256, the last one AssignBlock accepts. */
  lemma MaxFilesizeParts()
    ensures CeilDiv(MaxFilesize, BlockSize) == 1 + IndirectCount
    ensures (MaxFilesize - 1) / BlockSize == IndirectCount
  {
  }

  // ---------------------------------------------------------------- inodes

  datatype Inode = Inode(ntype: uint16, numLinks: uint16, size: uint32, directBlock: uint32, indirectBlock: uint32)

  /** Inode.WriteTo: Type at 0, NumLinks at 2, Size at 4, DirectBlock at 8, IndirectBlock at 12. */
  function EncodeInode(n: Inode): (r: seq<byte>)
    ensures |r| == NodeSize
  {
    LE16(n.ntype) + LE16(n.numLinks) + LE32(n.size) + LE32(n.directBlock) + LE32(n.indirectBlock)
  }

  /** Inode.ReadFrom(buffer, at). */
  function DecodeInode(b: seq<byte>, at: int): Inode
    requires 0 <= at && at + NodeSize <= |b|
  {
    Inode(ReadLE16(b, at), ReadLE16(b, at + 2), ReadLE32(b, at + 4), ReadLE32(b, at + 8), ReadLE32(b, at + 12))
  }

  /** Writing an inode and reading it back restores all five fields. */
  lemma InodeRoundTrip(n: Inode, b: seq<byte>, at: int)
    requires 0 <= at && at + NodeSize <= |b| && b[at..at + NodeSize] == EncodeInode(n)
    ensures DecodeInode(b, at) == n
  {
    var e := EncodeInode(n);
    var p0, p1, p2 := LE16(n.ntype), LE16(n.numLinks), LE32(n.size);
    var p3, p4 := LE32(n.directBlock), LE32(n.indirectBlock);
    assert e == p0 + p1 + p2 + p3 + p4;
    assert e[0..2] == p0 && e[2..4] == p1 && e[4..8] == p2;
    assert e[8..12] == p3;
    assert e[12..16] == p4;
    SliceOfSlice(b, at, at + NodeSize, 0, 2);
    SliceOfSlice(b, at, at + NodeSize, 2, 4);
    SliceOfSlice(b, at, at + NodeSize, 4, 8);
    SliceOfSlice(b, at, at + NodeSize, 8, 12);
    SliceOfSlice(b, at, at + NodeSize, 12, 16);
    LE16RoundTrip(n.ntype, b, at);
    LE16RoundTrip(n.numLinks, b, at + 2);
    LE32RoundTrip(n.size, b, at + 4);
    LE32RoundTrip(n.directBlock, b, at + 8);
    LE32RoundTrip(n.indirectBlock, b, at + 12);
  }

  /** Every 16 bytes are the record of the inode they decode to. */
  lemma InodeCanonical(b: seq<byte>, at: int)
    requires 0 <= at && at + NodeSize <= |b|
    ensures EncodeInode(DecodeInode(b, at)) == b[at..at + NodeSize]
  {
    LE16Canonical(b, at);
    LE16Canonical(b, at + 2);
    LE32Canonical(b, at + 4);
    LE32Canonical(b, at + 8);
    LE32Canonical(b, at + 12);
    assert b[at..at + NodeSize]
      == b[at..at + 2] + b[at + 2..at + 4] + b[at + 4..at + 8] + b[at + 8..at + 12] + b[at + 12..at + 16];
  }

  /** Decoding looks at the sixteen bytes of the record and nothing else. */
  lemma InodeFromBytes(a: seq<byte>, i: int, b: seq<byte>, j: int)
    requires 0 <= i && i + NodeSize <= |a| && 0 <= j && j + NodeSize <= |b|
    requires a[i..i + NodeSize] == b[j..j + NodeSize]
    ensures DecodeInode(a, i) == DecodeInode(b, j)
  {
    forall k | i <= k < i + NodeSize
      ensures a[k] == b[k - i + j]
    {
      assert a[i..i + NodeSize][k - i] == b[j..j + NodeSize][k - i];
    }
  }

  // ------------------------------------------------------ the indirect table

  /** Indirects.WriteTo: entry `i` as four little-endian bytes at `4 * i`. */
  function EncodeWords(t: seq<uint32>): (r: seq<byte>)
    ensures |r| == 4 * |t|
  {
    if t == [] then [] else LE32(t[0]) + EncodeWords(t[1..])
  }

  /** Indirects.ReadFrom: `count` little-endian words from `at`. */
  function DecodeWords(b: seq<byte>, at: int, count: nat): (r: seq<uint32>)
    requires 0 <= at && at + 4 * count <= |b|
    ensures |r| == count
  {
    seq(count, i requires 0 <= i < count => ReadLE32(b, at + 4 * i))
  }

  /** Entry `i` of an encoded table sits at bytes `4 * i .. 4 * i + 4`. */
  lemma {:induction false} EncodeWordsAt(t: seq<uint32>, i: int)
    requires 0 <= i < |t|
    ensures EncodeWords(t)[4 * i..4 * i + 4] == LE32(t[i])
  {
    if i > 0 {
      EncodeWordsAt(t[1..], i - 1);
      assert EncodeWords(t)[4 * i..4 * i + 4] == EncodeWords(t[1..])[4 * (i - 1)..4 * (i - 1) + 4];
    }
  }

  /** Encoding grows by one word at a time. */
  lemma {:induction false} EncodeWordsSnoc(t: seq<uint32>, x: uint32)
    ensures EncodeWords(t + [x]) == EncodeWords(t) + LE32(x)
  {
    if t == [] {
      assert EncodeWords([x]) == LE32(x) + EncodeWords([]);
    } else {
      assert (t + [x])[1..] == t[1..] + [x];
      EncodeWordsSnoc(t[1..], x);
    }
  }

  /** Entry `i` decodes from its four bytes. */
  lemma WordAt(t: seq<uint32>, i: int)
    requires 0 <= i < |t|
    ensures DecodeWords(EncodeWords(t), 0, |t|)[i] == t[i]
  {
    EncodeWordsAt(t, i);
    LE32RoundTrip(t[i], EncodeWords(t), 4 * i);
  }

  /** Writing an indirect table and reading it back restores every entry. */
  lemma WordsRoundTrip(t: seq<uint32>)
    ensures DecodeWords(EncodeWords(t), 0, |t|) == t
  {
    var b := EncodeWords(t);
    var d := DecodeWords(b, 0, |t|);
    forall i | 0 <= i < |t|
      ensures d[i] == t[i]
    {
      WordAt(t, i);
    }
    assert d == t;
  }

  /** Decoding a table looks at its `4 * count` bytes and nothing else. */
  lemma WordsFromBytes(a: seq<byte>, i: int, b: seq<byte>, j: int, count: nat)
    requires 0 <= i && i + 4 * count <= |a| && 0 <= j && j + 4 * count <= |b|
    requires a[i..i + 4 * count] == b[j..j + 4 * count]
    ensures DecodeWords(a, i, count) == DecodeWords(b, j, count)
  {
    forall k | i <= k < i + 4 * count
      ensures a[k] == b[k - i + j]
    {
      assert a[i..i + 4 * count][k - i] == b[j..j + 4 * count][k - i];
    }
    forall w | 0 <= w < count
      ensures DecodeWords(a, i, count)[w] == DecodeWords(b, j, count)[w]
    {
      assert a[i + 4 * w + 1] == b[j + 4 * w + 1];
      assert a[i + 4 * w + 2] == b[j + 4 * w + 2];
      assert a[i + 4 * w + 3] == b[j + 4 * w + 3];
    }
  }

  /** Indirects.ReadFrom into the table, in place. */
  method ReadIndirects(table: array<uint32>, buffer: array<byte>) returns (r: Result<()>)
    requires table.Length == IndirectCount
    modifies table
    ensures r.Ok? <==> buffer.Length >= BlockSize
    ensures r.Ok? ==> table[..] == DecodeWords(buffer[..], 0, IndirectCount)
    ensures r.Err? ==> r.error == ArrayTooSmall && table[..] == old(table[..])
  {
    if buffer.Length < BlockSize {
      return Err(ArrayTooSmall);
    }
    for index := 0 to table.Length
      invariant forall i :: 0 <= i < index ==> table[i] == ReadLE32(buffer[..], 4 * i)
    {
      table[index] := ReadLE32(buffer[..], index * 4);
    }
    r := Ok(());
  }

  /** One more word copied after the encoding of the words before it extends that
      encoding by the word's four bytes. */
  lemma EncodeNext(start: seq<byte>, t: seq<uint32>, index: int, before: seq<byte>, after: seq<byte>)
    requires 0 <= index < |t| && 4 * |t| <= |start|
    requires before == Splice(start, 0, EncodeWords(t[..index]))
    requires after == Splice(before, index * 4, LE32(t[index]))
    ensures after == Splice(start, 0, EncodeWords(t[..index + 1]))
  {
    assert t[..index + 1] == t[..index] + [t[index]];
    EncodeWordsSnoc(t[..index], t[index]);
    SpliceAppend(start, 0, EncodeWords(t[..index]), LE32(t[index]));
  }

  /** Indirects.WriteTo: the table's bytes copied into the front of the buffer. */
  method WriteIndirects(table: array<uint32>, buffer: array<byte>)
    requires table.Length == IndirectCount && buffer.Length >= BlockSize
    modifies buffer
    ensures buffer[..] == Splice(old(buffer[..]), 0, EncodeWords(table[..]))
  {
    ghost var start := buffer[..];
    for index := 0 to table.Length
      invariant buffer[..] == Splice(start, 0, EncodeWords(table[..index]))
    {
      ghost var before := buffer[..];
      var word, at := LE32(table[index]), index * 4;
      CopyTo(word, buffer, at);
      EncodeNext(start, table[..], index, before, buffer[..]);
      assert table[..][..index + 1] == table[..index + 1];
    }
    assert table[..table.Length] == table[..];
  }

  // ------------------------------------------------------- directory entries

  /** A name: a .NET string, so at most `MaxInt` characters long. */
  type Name = s: seq<byte> | |s| <= MaxInt

  datatype DirEntry = DirEntry(inum: uint32, name: Name)

  /** Encoding.ASCII in both directions: a byte outside 0 .. 127 becomes '?'. */
  function Ascii(s: seq<byte>): (r: seq<byte>)
    ensures |r| == |s|
  {
    seq(|s|, i requires 0 <= i < |s| => if s[i] < 0x80 then s[i] else 0x3F)
  }

  predicate IsAscii(s: seq<byte>)
  {
    forall i :: 0 <= i < |s| ==> s[i] < 0x80
  }

  /** ASCII names pass through unchanged, and every name comes out ASCII. */
  lemma AsciiFixes(s: seq<byte>)
    ensures IsAscii(Ascii(s))
    ensures Ascii(s) == s <==> IsAscii(s)
  {
    if IsAscii(s) {
      assert forall i :: 0 <= i < |s| ==> Ascii(s)[i] == s[i];
    }
  }

  /** DirEntry.WriteTo's bytes: the inode number, the name length, then the name. */
  function EncodeEntry(e: DirEntry): (r: seq<byte>)
    ensures |r| == 8 + |e.name|
  {
    LE32(e.inum) + LE32(|e.name|) + Ascii(e.name)
  }

  /** `n` bytes of `c` from `at`, zero past its end: what a clamped ReadAll leaves in a fresh array. */
  function Padded(c: seq<byte>, at: int, n: nat): (r: seq<byte>)
    requires 0 <= at
    ensures |r| == n
  {
    seq(n, i requires 0 <= i < n => if at + i < |c| then c[at + i] else 0)
  }

  /** DirEntry.ReadFrom at offset `at` of a directory whose content is `c`. */
  function EntryAt(c: seq<byte>, at: int): Result<DirEntry>
    requires 0 <= at
  {
    var head := Padded(c, at, 8);
    var len := ReadLE32(head, 4);
    if at + 8 + len > MaxInt then Err(BadEntry)
    else Ok(DirEntry(ReadLE32(head, 0), Ascii(Padded(c, at + 8, len))))
  }

  /** The scan step: the next entry starts `8 + name length` bytes further on. */
  function EntryEnd(at: int, e: DirEntry): int
  {
    at + 8 + |e.name|
  }

  /** An entry written at `at` reads back with the same inode number and name. */
  lemma EntryRoundTrip(c: seq<byte>, at: int, e: DirEntry)
    requires 0 <= at && NameFits(e)
    requires at + 8 + |e.name| <= |c| <= MaxInt
    requires c[at..at + 8 + |e.name|] == EncodeEntry(e)
    ensures EntryAt(c, at) == Ok(e)
    ensures EntryEnd(at, e) == at + |EncodeEntry(e)|
  {
    var w := c[at..at + 8 + |e.name|];
    var head := Padded(c, at, 8);
    assert head[0..4] == LE32(e.inum) by {
      assert forall i :: 0 <= i < 4 ==> head[i] == w[i] == LE32(e.inum)[i];
    }
    assert head[4..8] == LE32(|e.name|) by {
      assert forall i :: 4 <= i < 8 ==> head[i] == w[i] == LE32(|e.name|)[i - 4];
    }
    LE32RoundTrip(e.inum, head, 0);
    LE32RoundTrip(|e.name|, head, 4);
    assert Padded(c, at + 8, |e.name|) == Ascii(e.name) by {
      assert forall i :: 0 <= i < |e.name| ==> Padded(c, at + 8, |e.name|)[i] == w[8 + i] == Ascii(e.name)[i];
    }
    AsciiFixes(e.name);
    AsciiFixes(Padded(c, at + 8, |e.name|));
  }

  /** The directory scan of Contents: entries from `at` to the end of `c`. */
  function ParseFrom(c: seq<byte>, at: nat): Result<seq<DirEntry>>
    decreases |c| - at
  {
    if at >= |c| then Ok([])
    else match EntryAt(c, at)
      case Err(x) => Err(x)
      case Ok(e) =>
        match ParseFrom(c, EntryEnd(at, e))
        case Err(x) => Err(x)
        case Ok(rest) => Ok([e] + rest)
  }

  /** A name DirEntry.WriteTo can store and ReadFrom gives back unchanged. */
  predicate NameFits(e: DirEntry)
  {
    IsAscii(e.name)
  }

  predicate NamesFit(es: seq<DirEntry>)
  {
    forall i :: 0 <= i < |es| ==> NameFits(es[i])
  }

  /** A directory's content: its entries' encodings, back to back. */
  function EncodeDir(es: seq<DirEntry>): (r: seq<byte>)
  {
    if es == [] then [] else EncodeEntry(es[0]) + EncodeDir(es[1..])
  }

  /** Encoding two runs of entries is encoding each and joining the bytes. */
  lemma {:induction false} EncodeDirConcat(a: seq<DirEntry>, b: seq<DirEntry>)
    ensures EncodeDir(a + b) == EncodeDir(a) + EncodeDir(b)
    decreases |a|
  {
    if a == [] {
      assert a + b == b;
    } else {
      var e, rest := EncodeEntry(a[0]), a[1..] + b;
      assert (a + b)[0] == a[0] && (a + b)[1..] == rest;
      assert EncodeDir(a + b) == e + EncodeDir(rest);
      EncodeDirConcat(a[1..], b);
      assert EncodeDir(a) == e + EncodeDir(a[1..]);
      AppendAssoc(e, EncodeDir(a[1..]), EncodeDir(b));
    }
  }

  /** Entries taken from a run whose names fit have names that fit. */
  lemma NamesFitParts(es: seq<DirEntry>, k: int)
    requires NamesFit(es) && 0 <= k <= |es|
    ensures NamesFit(es[..k]) && NamesFit(es[k..])
  {
    assert forall i :: 0 <= i < k ==> es[..k][i] == es[i];
    assert forall i :: 0 <= i < |es| - k ==> es[k..][i] == es[k + i];
  }

  /** Joining two runs whose names fit gives a run whose names fit. */
  lemma NamesFitJoin(a: seq<DirEntry>, b: seq<DirEntry>)
    requires NamesFit(a) && NamesFit(b)
    ensures NamesFit(a + b)
  {
    assert forall i :: 0 <= i < |a + b| ==> (a + b)[i] == if i < |a| then a[i] else b[i - |a|];
  }

  /** The bytes of a directory around its `k`-th entry. */
  lemma EncodeDirAround(es: seq<DirEntry>, k: int)
    requires 0 <= k < |es|
    ensures EncodeDir(es) == EncodeDir(es[..k]) + EncodeEntry(es[k]) + EncodeDir(es[k + 1..])
  {
    var a, e, b := EncodeDir(es[..k]), EncodeEntry(es[k]), EncodeDir(es[k + 1..]);
    var tail := es[k..];
    SplitAt(es, k);
    assert EncodeDir(es) == a + EncodeDir(tail) by {
      EncodeDirConcat(es[..k], tail);
    }
    assert EncodeDir(tail) == e + b by {
      EncodeDirCons(tail);
    }
    AppendAssoc(a, e, b);
  }

  lemma EncodeDirCons(es: seq<DirEntry>)
    requires es != []
    ensures EncodeDir(es) == EncodeEntry(es[0]) + EncodeDir(es[1..])
  {
  }

  lemma EncodeOne(e: DirEntry)
    ensures EncodeDir([e]) == EncodeEntry(e)
  {
    assert EncodeDir([e]) == EncodeEntry(e) + EncodeDir([]);
  }

  /** The first stored entry of a non-empty run, behind any bytes `pre`: it reads
      back at |pre|, and the rest of the run follows it. */
  lemma EncodedHead(pre: seq<byte>, es: seq<DirEntry>)
    requires es != [] && NamesFit(es) && |pre + EncodeDir(es)| <= MaxInt
    ensures pre + EncodeDir(es) == (pre + EncodeEntry(es[0])) + EncodeDir(es[1..])
    ensures EntryAt(pre + EncodeDir(es), |pre|) == Ok(es[0])
    ensures EntryEnd(|pre|, es[0]) == |pre + EncodeEntry(es[0])|
    ensures NamesFit(es[1..])
  {
    var c, e := pre + EncodeDir(es), es[0];
    var enc := EncodeEntry(e);
    EncodeDirCons(es);
    AppendAssoc(pre, enc, EncodeDir(es[1..]));
    assert c[|pre|..|pre| + 8 + |e.name|] == enc;
    EntryRoundTrip(c, |pre|, e);
  }

  /** The scan at an entry that reads back is that entry followed by the scan after it. */
  lemma ParseCons(c: seq<byte>, at: nat, e: DirEntry, rest: seq<DirEntry>)
    requires at < |c| && EntryAt(c, at) == Ok(e) && ParseFrom(c, EntryEnd(at, e)) == Ok(rest)
    ensures ParseFrom(c, at) == Ok([e] + rest)
  {
  }

  /** The scan of stored entries, with any bytes in front of them, yields exactly those entries. */
  lemma {:induction false} ParseEncoded(pre: seq<byte>, es: seq<DirEntry>)
    requires NamesFit(es) && |pre + EncodeDir(es)| <= MaxInt
    ensures ParseFrom(pre + EncodeDir(es), |pre|) == Ok(es)
    decreases |es|
  {
    if es != [] {
      var c, e := pre + EncodeDir(es), es[0];
      var enc := EncodeEntry(e);
      EncodedHead(pre, es);
      ParseEncoded(pre + enc, es[1..]);
      assert ParseFrom(c, EntryEnd(|pre|, e)) == Ok(es[1..]);
      ParseCons(c, |pre|, e, es[1..]);
      assert [e] + es[1..] == es;
    }
  }

  /** Reading a directory whose content was written entry by entry gives back the entries. */
  lemma DirRoundTrip(es: seq<DirEntry>)
    requires NamesFit(es) && |EncodeDir(es)| <= MaxInt
    ensures ParseFrom(EncodeDir(es), 0) == Ok(es)
  {
    assert [] + EncodeDir(es) == EncodeDir(es);
    ParseEncoded([], es);
  }

  /** An entry appended at the end of a directory is listed after the ones before it. */
  lemma AppendEntry(es: seq<DirEntry>, e: DirEntry)
    requires NamesFit(es) && NameFits(e)
    requires |EncodeDir(es)| + 8 + |e.name| <= MaxInt
    ensures NamesFit(es + [e])
    ensures ParseFrom(EncodeDir(es) + EncodeEntry(e), 0) == Ok(es + [e])
  {
    EncodeOne(e);
    EncodeDirConcat(es, [e]);
    NamesFitJoin(es, [e]);
    DirRoundTrip(es + [e]);
  }

  /** FindNode's answer: the inode number of the first entry with that name. */
  function FindIn(es: seq<DirEntry>, name: seq<byte>): (r: Option<uint32>)
    ensures r.Some? <==> exists i :: 0 <= i < |es| && es[i].name == name
  {
    if es == [] then None
    else if es[0].name == name then Some(es[0].inum)
    else
      assert forall i :: 1 <= i < |es| ==> es[i] == es[1..][i - 1];
      FindIn(es[1..], name)
  }

  /** The FindNode scan from `at`: stops at the first entry with the name. */
  function ScanFind(c: seq<byte>, at: nat, name: seq<byte>): Result<Option<uint32>>
    decreases |c| - at
  {
    if at >= |c| then Ok(None)
    else match EntryAt(c, at)
      case Err(x) => Err(x)
      case Ok(e) => if e.name == name then Ok(Some(e.inum)) else ScanFind(c, EntryEnd(at, e), name)
  }

  /** On a directory that scans cleanly, FindNode finds what the listing shows first. */
  lemma {:induction false} ScanFindAgrees(c: seq<byte>, at: nat, name: seq<byte>, es: seq<DirEntry>)
    requires ParseFrom(c, at) == Ok(es)
    ensures ScanFind(c, at, name) == Ok(FindIn(es, name))
    decreases |c| - at
  {
    if at < |c| {
      var e := EntryAt(c, at).value;
      if e.name != name {
        ScanFindAgrees(c, EntryEnd(at, e), name, es[1..]);
      }
    }
  }

  /** Where DeleteNode's scan stops: the offset and entry of the first entry with `inum`. */
  function ScanInum(c: seq<byte>, at: nat, inum: uint32): Result<(int, DirEntry)>
    decreases |c| - at
  {
    if at >= |c| then Err(NodeNotFound)
    else match EntryAt(c, at)
      case Err(x) => Err(x)
      case Ok(e) => if e.inum == inum then Ok((at, e)) else ScanInum(c, EntryEnd(at, e), inum)
  }

  /** The index of the first entry holding `inum`. */
  function FirstWith(es: seq<DirEntry>, inum: uint32): (k: int)
    ensures 0 <= k <= |es|
    ensures forall i :: 0 <= i < k ==> es[i].inum != inum
    ensures k < |es| ==> es[k].inum == inum
  {
    if es == [] then 0
    else if es[0].inum == inum then 0
    else 1 + FirstWith(es[1..], inum)
  }

  /** What DeleteNode's scan finds in `pre` followed by the stored entries `es`. */
  function ScanResult(pre: seq<byte>, es: seq<DirEntry>, inum: uint32): Result<(int, DirEntry)>
  {
    var k := FirstWith(es, inum);
    if k == |es| then Err(NodeNotFound) else Ok((|pre| + |EncodeDir(es[..k])|, es[k]))
  }

  /** Skipping an entry that does not hold `inum` moves the expected stop past its bytes. */
  lemma ScanResultSkip(pre: seq<byte>, es: seq<DirEntry>, inum: uint32)
    requires es != [] && es[0].inum != inum
    ensures ScanResult(pre, es, inum) == ScanResult(pre + EncodeEntry(es[0]), es[1..], inum)
  {
    var k := FirstWith(es, inum);
    assert k == 1 + FirstWith(es[1..], inum);
    if k < |es| {
      assert |EncodeDir(es[..k])| == |EncodeEntry(es[0])| + |EncodeDir(es[1..][..k - 1])| by {
        EncodeDirCons(es[..k]);
        assert es[..k][0] == es[0] && es[..k][1..] == es[1..][..k - 1];
      }
      assert es[1..][k - 1] == es[k];
    }
  }

  /** On stored entries, DeleteNode's scan stops at the first entry holding `inum`,
      at the offset where the entries before it end; it fails exactly when none holds it. */
  lemma {:induction false} ScanInumEncoded(pre: seq<byte>, es: seq<DirEntry>, inum: uint32)
    requires NamesFit(es) && |pre + EncodeDir(es)| <= MaxInt
    ensures ScanInum(pre + EncodeDir(es), |pre|, inum) == ScanResult(pre, es, inum)
    decreases |es|
  {
    var c := pre + EncodeDir(es);
    if es != [] {
      var e := es[0];
      var enc := EncodeEntry(e);
      assert c == (pre + enc) + EncodeDir(es[1..]) by {
        EncodeDirCons(es);
        AppendAssoc(pre, enc, EncodeDir(es[1..]));
      }
      assert EntryAt(c, |pre|) == Ok(e) by {
        assert c[|pre|..|pre| + 8 + |e.name|] == enc;
        EntryRoundTrip(c, |pre|, e);
      }
      if e.inum != inum {
        assert ScanInum(c, |pre|, inum) == ScanInum(c, |pre + enc|, inum) by {
          assert |pre| < |c| && EntryEnd(|pre|, e) == |pre + enc|;
        }
        assert NamesFit(es[1..]);
        ScanInumEncoded(pre + enc, es[1..], inum);
        ScanResultSkip(pre, es, inum);
      } else {
        assert ScanInum(c, |pre|, inum) == Ok((|pre|, e));
        assert es[..0] == [];
      }
    }
  }

  /** Removing the bytes of the `k`-th entry leaves the encoding of the other entries. */
  lemma RemoveEntryBytes(es: seq<DirEntry>, k: int)
    requires NamesFit(es) && 0 <= k < |es|
    ensures NamesFit(es[..k]) && NamesFit(es[..k] + es[k + 1..])
    ensures var at := |EncodeDir(es[..k])|;
      var c := EncodeDir(es);
      at + 8 + |es[k].name| <= |c| &&
      c[..at] + c[at + 8 + |es[k].name|..] == EncodeDir(es[..k] + es[k + 1..])
  {
    EncodeDirAround(es, k);
    EncodeDirConcat(es[..k], es[k + 1..]);
    NamesFitParts(es, k);
    NamesFitParts(es, k + 1);
    NamesFitJoin(es[..k], es[k + 1..]);
    var a, e, b := EncodeDir(es[..k]), EncodeEntry(es[k]), EncodeDir(es[k + 1..]);
    var c := a + e + b;
    assert c[..|a|] == a;
    assert c[|a| + |e|..] == b;
  }

  // --------------------------------------------------------------- superblock

  datatype Superblock = Superblock(magic: seq<byte>, rootInum: uint32)

  /** Superblock.ReadFrom: the magic is decoded with a byte count of `bufOffset + 8`,
      which is 8 at the only offset ever used, 0. */
  function ReadSuperblock(b: seq<byte>, bufOffset: nat): Superblock
    requires bufOffset + bufOffset + 8 <= |b| && bufOffset + 12 <= |b|
  {
    Superblock(Ascii(b[bufOffset..bufOffset + (bufOffset + 8)]), ReadLE32(b, bufOffset + 8))
  }

  /** CheckHeader's test. */
  predicate MagicOk(sb: Superblock)
  {
    sb.magic == HeaderMagic
  }

  /** Block 0 as Format writes it: the magic, root inode number 0, then zeros. */
  function FormatSuperblock(): (r: seq<byte>)
    ensures |r| == BlockSize
  {
    HeaderMagic + LE32(0) + Zeros(BlockSize - 12)
  }

  /** The formatted superblock is a zeroed block with the magic and then root inode
      number 0 copied in. */
  lemma FormatSuperblockBuilt()
    ensures Splice(Splice(Zeros(BlockSize), 0, HeaderMagic), 8, LE32(0)) == FormatSuperblock()
  {
    var z := Zeros(BlockSize);
    SpliceAppend(z, 0, HeaderMagic, LE32(0));
    assert Splice(z, 0, HeaderMagic + LE32(0)) == HeaderMagic + LE32(0) + z[12..];
    assert z[12..] == Zeros(BlockSize - 12);
  }

  /** The magic test accepts exactly the blocks that start with "BOBFS439". */
  lemma MagicExact(b: seq<byte>)
    requires |b| >= 12
    ensures MagicOk(ReadSuperblock(b, 0)) <==> b[..8] == HeaderMagic
  {
    var m := ReadSuperblock(b, 0).magic;
    if b[..8] == HeaderMagic {
      AsciiFixes(b[..8]);
    }
    if m == HeaderMagic {
      forall i | 0 <= i < 8 ensures b[i] == HeaderMagic[i] {
        assert m[i] == HeaderMagic[i] != 0x3F;
      }
    }
  }

  /** A formatted superblock reads back as the magic and root inode 0. */
  lemma FormatSuperblockReads()
    ensures ReadSuperblock(FormatSuperblock(), 0) == Superblock(HeaderMagic, 0)
  {
    var b := FormatSuperblock();
    assert b[..8] == HeaderMagic;
    MagicExact(b);
    assert b[8..12] == LE32(0);
    LE32RoundTrip(0, b, 8);
  }
}
