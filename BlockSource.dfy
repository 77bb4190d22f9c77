/** Byte-addressed transfers over a sector store: a transfer touches at most one
    sector, a partial sector write is a read-modify-write, and the accumulating
    loops move a request chunk by chunk. */
module BlockSource {
  import opened Bytes
  import opened RawImage

  /** What one Read or Write moves: `n` bytes, cut off at the end of the sector
      holding `offset`. */
  function ChunkCount(offset: int, n: int): (count: int)
    requires offset >= 0
    ensures count == if n < SectorSize - offset % SectorSize then n else SectorSize - offset % SectorSize
    ensures offset % SectorSize + count <= SectorSize
    ensures n > 0 ==> count > 0
  {
    var start := offset % SectorSize;
    var end := if start + n > SectorSize then SectorSize else start + n;
    end - start
  }

  /** The byte at device offset `o`. */
  function DiskByte(sectors: map<int, Sector>, o: int): byte
    requires o >= 0
  {
    SectorAt(sectors, o / SectorSize)[o % SectorSize]
  }

  /** The `n` bytes at device offset `offset`. */
  function DiskBytes(sectors: map<int, Sector>, offset: int, n: nat): (r: seq<byte>)
    requires offset >= 0
    ensures |r| == n
    ensures forall i :: 0 <= i < n ==> r[i] == DiskByte(sectors, offset + i)
  {
    seq<byte>(n, i requires 0 <= i => DiskByte(sectors, offset + i))
  }

  /** Two dictionaries that read the same for every sector. */
  ghost predicate SameContent(a: map<int, Sector>, b: map<int, Sector>)
  {
    forall s :: SectorAt(a, s) == SectorAt(b, s)
  }

  lemma SameContentBytes(a: map<int, Sector>, b: map<int, Sector>, offset: int, n: nat)
    requires offset >= 0 && SameContent(a, b)
    ensures DiskBytes(a, offset, n) == DiskBytes(b, offset, n)
  {
    forall i | 0 <= i < n
      ensures DiskBytes(a, offset, n)[i] == DiskBytes(b, offset, n)[i]
    {
      assert SectorAt(a, (offset + i) / SectorSize) == SectorAt(b, (offset + i) / SectorSize);
    }
  }

  /** The dictionary after `data`, lying within one sector, is written at `offset`. */
  function PutChunk(sectors: map<int, Sector>, offset: int, data: seq<byte>): map<int, Sector>
    requires offset >= 0 && offset % SectorSize + |data| <= SectorSize
  {
    sectors[offset / SectorSize := Splice(SectorAt(sectors, offset / SectorSize), offset % SectorSize, data)]
  }

  /** The dictionary after `buf[lo..hi]` is written at device offset `at`, chunk
      by chunk, each chunk taken from the next part of the buffer. */
  function WriteRange(sectors: map<int, Sector>, at: int, buf: seq<byte>, lo: int, hi: int): map<int, Sector>
    requires at >= 0 && 0 <= lo <= hi <= |buf|
    decreases hi - lo
  {
    if lo == hi then sectors
    else
      var c := ChunkCount(at, hi - lo);
      WriteRange(PutChunk(sectors, at, buf[lo..lo + c]), at + c, buf, lo + c, hi)
  }

  /** One chunk changes exactly its own bytes. */
  lemma PutChunkEffect(sectors: map<int, Sector>, offset: int, data: seq<byte>, o: int)
    requires offset >= 0 && offset % SectorSize + |data| <= SectorSize && o >= 0
    ensures DiskByte(PutChunk(sectors, offset, data), o)
      == if offset <= o < offset + |data| then data[o - offset] else DiskByte(sectors, o)
  {
    var s := offset / SectorSize;
    if o / SectorSize == s {
      assert offset == s * SectorSize + offset % SectorSize;
      assert o == s * SectorSize + o % SectorSize;
    }
  }

  /** Writing a range changes the bytes of the span it covers to the buffer's bytes
      and no other byte. */
  lemma {:induction false} WriteRangeEffect(sectors: map<int, Sector>, at: int, buf: seq<byte>, lo: int, hi: int, o: int)
    requires at >= 0 && 0 <= lo <= hi <= |buf| && o >= 0
    ensures DiskByte(WriteRange(sectors, at, buf, lo, hi), o)
      == (if at <= o && o - at < hi - lo then buf[lo + (o - at)] else DiskByte(sectors, o))
    decreases hi - lo
  {
    if lo < hi {
      var c := ChunkCount(at, hi - lo);
      var chunk := buf[lo..lo + c];
      var m := PutChunk(sectors, at, chunk);
      WriteRangeEffect(m, at + c, buf, lo + c, hi, o);
      PutChunkEffect(sectors, at, chunk, o);
      if at <= o < at + c {
        assert chunk[o - at] == buf[lo + (o - at)];
      }
    }
  }

  /** Reading back a span just written yields what was written. */
  lemma WriteThenRead(sectors: map<int, Sector>, at: int, buf: seq<byte>, lo: int, hi: int)
    requires at >= 0 && 0 <= lo <= hi <= |buf|
    ensures DiskBytes(WriteRange(sectors, at, buf, lo, hi), at, hi - lo) == buf[lo..hi]
  {
    forall i | 0 <= i < hi - lo
      ensures DiskBytes(WriteRange(sectors, at, buf, lo, hi), at, hi - lo)[i] == buf[lo..hi][i]
    {
      WriteRangeEffect(sectors, at, buf, lo, hi, at + i);
    }
  }

  // ----------------------------------------------------------- device content

  /** The offsets a caller can name: a .NET `int` is never more than 2^31 - 1. */
  const DeviceSize: int := 0x8000_0000

  /** The device's first `n` bytes. */
  ghost function ContentUpTo(sectors: map<int, Sector>, n: nat): (c: seq<byte>)
    ensures |c| == n
  {
    if n == 0 then [] else ContentUpTo(sectors, n - 1) + [DiskByte(sectors, n - 1)]
  }

  lemma {:induction false} ContentUpToAt(sectors: map<int, Sector>, n: nat, o: int)
    requires 0 <= o < n
    ensures ContentUpTo(sectors, n)[o] == DiskByte(sectors, o)
  {
    if o < n - 1 {
      ContentUpToAt(sectors, n - 1, o);
    }
  }

  /** What the device holds at every offset a caller can name. */
  ghost function ContentOf(sectors: map<int, Sector>): (c: seq<byte>)
    ensures |c| == DeviceSize
  {
    ContentUpTo(sectors, DeviceSize)
  }

  lemma ContentAt(sectors: map<int, Sector>, o: int)
    requires 0 <= o < DeviceSize
    ensures ContentOf(sectors)[o] == DiskByte(sectors, o)
  {
    ContentUpToAt(sectors, DeviceSize, o);
  }

  lemma ContentSame(a: map<int, Sector>, b: map<int, Sector>)
    requires SameContent(a, b)
    ensures ContentOf(a) == ContentOf(b)
  {
    forall o | 0 <= o < DeviceSize
      ensures ContentOf(a)[o] == ContentOf(b)[o]
    {
      ContentAt(a, o);
      ContentAt(b, o);
      assert SectorAt(a, o / SectorSize) == SectorAt(b, o / SectorSize);
    }
  }

  lemma ContentBytes(sectors: map<int, Sector>, at: int, n: nat)
    requires 0 <= at && at + n <= DeviceSize
    ensures ContentOf(sectors)[at..at + n] == DiskBytes(sectors, at, n)
  {
    var c := ContentOf(sectors);
    forall i | 0 <= i < n
      ensures c[at..at + n][i] == DiskBytes(sectors, at, n)[i]
    {
      assert c[at..at + n][i] == c[at + i];
      ContentAt(sectors, at + i);
    }
  }

  lemma ContentPut(sectors: map<int, Sector>, offset: int, data: seq<byte>)
    requires offset >= 0 && offset % SectorSize + |data| <= SectorSize && offset + |data| <= DeviceSize
    ensures ContentOf(PutChunk(sectors, offset, data)) == Splice(ContentOf(sectors), offset, data)
  {
    var c := ContentOf(sectors);
    SpliceAt(c, offset, data);
    forall o | 0 <= o < DeviceSize
      ensures ContentOf(PutChunk(sectors, offset, data))[o] == Splice(c, offset, data)[o]
    {
      PutChunkEffect(sectors, offset, data, o);
      ContentAt(PutChunk(sectors, offset, data), o);
      ContentAt(sectors, o);
    }
  }

  lemma ContentWrite(sectors: map<int, Sector>, at: int, buf: seq<byte>, lo: int, hi: int)
    requires at >= 0 && 0 <= lo <= hi <= |buf| && at + (hi - lo) <= DeviceSize
    ensures ContentOf(WriteRange(sectors, at, buf, lo, hi)) == Splice(ContentOf(sectors), at, buf[lo..hi])
  {
    var c := ContentOf(sectors);
    SpliceAt(c, at, buf[lo..hi]);
    forall o | 0 <= o < DeviceSize
      ensures ContentOf(WriteRange(sectors, at, buf, lo, hi))[o] == Splice(c, at, buf[lo..hi])[o]
    {
      WriteRangeEffect(sectors, at, buf, lo, hi, o);
      ContentAt(WriteRange(sectors, at, buf, lo, hi), o);
      ContentAt(sectors, o);
    }
  }

  /** Reads at most one sector's worth at `offset` into `buffer[bufOffset..]`; a whole
      sector is read straight into the buffer, a part through a scratch sector, and a
      zero-byte request touches nothing. */
  method Read(src: ImageSource, offset: int, buffer: array<byte>, bufOffset: int, n: int) returns (count: int)
    requires offset >= 0 && n >= 0
    requires 0 <= bufOffset && bufOffset + ChunkCount(offset, n) <= buffer.Length
    modifies src, buffer
    ensures count == ChunkCount(offset, n)
    ensures src.sectors == if count == 0 then old(src.sectors) else Touch(old(src.sectors), offset / SectorSize)
    ensures buffer[..] == Splice(old(buffer[..]), bufOffset, DiskBytes(old(src.sectors), offset, count))
  {
    var sector := offset / SectorSize;
    var start := offset % SectorSize;
    var end := start + n;
    if end > SectorSize {
      end := SectorSize;
    }
    count := end - start;
    if count == SectorSize {
      // whole sector
      assert start == 0;
      SectorBytes(src.sectors, offset);
      src.ReadSector(sector, buffer, bufOffset);
    } else if count != 0 {
      ghost var sec := SectorAt(src.sectors, sector);
      var data := new byte[SectorSize](_ => 0);
      src.ReadSector(sector, data, 0);
      assert data[..] == sec;
      assert buffer[..] == old(buffer[..]);
      BlockCopy(data, start, buffer, bufOffset, count);
      ChunkBytes(old(src.sectors), offset, count);
    }
  }

  /** What Read promises about content, for the request it is given. */
  lemma ReadContent(sectors: map<int, Sector>, offset: int, n: int)
    requires offset >= 0 && n >= 0
    ensures ContentOf(Touch(sectors, offset / SectorSize)) == ContentOf(sectors)
    ensures offset + ChunkCount(offset, n) <= DeviceSize ==>
      ContentOf(sectors)[offset..offset + ChunkCount(offset, n)] == DiskBytes(sectors, offset, ChunkCount(offset, n))
  {
    ContentSame(Touch(sectors, offset / SectorSize), sectors);
    if offset + ChunkCount(offset, n) <= DeviceSize {
      ContentBytes(sectors, offset, ChunkCount(offset, n));
    }
  }

  /** Writes at most one sector's worth at `offset` from `buffer[bufOffset..]`; a part
      of a sector is spliced into the sector's current bytes, so its other bytes stay. */
  method Write(src: ImageSource, offset: int, buffer: array<byte>, bufOffset: int, n: int) returns (count: int)
    requires offset >= 0 && n >= 0
    requires 0 <= bufOffset && bufOffset + ChunkCount(offset, n) <= buffer.Length
    modifies src
    ensures count == ChunkCount(offset, n)
    ensures src.sectors == if count == 0 then old(src.sectors)
      else PutChunk(old(src.sectors), offset, buffer[bufOffset..bufOffset + count])
  {
    var sector := offset / SectorSize;
    var start := offset % SectorSize;
    var end := start + n;
    if end > SectorSize {
      end := SectorSize;
    }
    count := end - start;
    if count == SectorSize {
      // whole sector
      assert start == 0;
      ghost var chunk := buffer[bufOffset..bufOffset + SectorSize];
      assert chunk == Splice(SectorAt(src.sectors, sector), 0, chunk);
      src.WriteSector(sector, buffer, bufOffset);
      assert src.sectors == PutChunk(old(src.sectors), offset, chunk);
    } else if count != 0 {
      ghost var chunk := buffer[bufOffset..bufOffset + count];
      ghost var updated: Sector := Splice(SectorAt(old(src.sectors), sector), start, chunk);
      var data := new byte[SectorSize](_ => 0);
      src.ReadSector(sector, data, 0);
      assert data[..] == SectorAt(old(src.sectors), sector);
      BlockCopy(buffer, bufOffset, data, start, count);
      assert data[..] == updated;
      assert data[0..SectorSize] == data[..];
      TouchThenStore(old(src.sectors), sector, updated);
      src.WriteSector(sector, data, 0);
      assert src.sectors == old(src.sectors)[sector := updated];
      assert src.sectors == PutChunk(old(src.sectors), offset, chunk);
    }
    assert buffer[bufOffset..bufOffset + count] == old(buffer[bufOffset..bufOffset + count]);
  }

  /** Every chunk of an `n`-byte loop starting at `offset` fits in `room` bytes. */
  predicate ChunksFit(offset: int, n: int, room: int)
    requires offset >= 0
    decreases n
  {
    n <= 0 ||
      (var c := ChunkCount(offset, n);
       c <= room && ChunksFit(offset + c, n - c, room))
  }

  /** After one chunk the remaining chunks are no larger: the loop keeps fitting. */
  lemma ChunksFitStep(offset: int, n: int, room: int)
    requires offset >= 0 && n > 0 && ChunksFit(offset, n, room)
    ensures ChunkCount(offset, n) <= room
    ensures ChunksFit(offset + ChunkCount(offset, n), n - ChunkCount(offset, n), room)
  {
  }

  /** The buffer after ReadAll as written: every chunk lands at the same `bufOffset`. */
  ghost function ReadAllAsWritten(sectors: map<int, Sector>, offset: int, buf: seq<byte>, bufOffset: int, n: int): seq<byte>
    requires offset >= 0 && 0 <= bufOffset && ChunksFit(offset, n, |buf| - bufOffset)
    decreases n
  {
    if n <= 0 then buf
    else
      var c := ChunkCount(offset, n);
      ReadAllAsWritten(sectors, offset + c, Splice(buf, bufOffset, DiskBytes(sectors, offset, c)), bufOffset, n - c)
  }

  /** The dictionary after WriteAll as written: every chunk is taken from the same `bufOffset`. */
  ghost function WriteAllAsWritten(sectors: map<int, Sector>, offset: int, buf: seq<byte>, bufOffset: int, n: int): map<int, Sector>
    requires offset >= 0 && 0 <= bufOffset
    decreases n
  {
    if n <= 0 then sectors
    else
      var c := ChunkCount(offset, n);
      if bufOffset + c > |buf| then sectors  // the copy would throw; callers rule this out
      else WriteAllAsWritten(PutChunk(sectors, offset, buf[bufOffset..bufOffset + c]), offset + c, buf, bufOffset, n - c)
  }

  /** BlockSource.ReadAll as written: loops Read until `n` bytes are moved, advancing
      the device offset but passing the same `bufOffset` to every Read. */
  method ReadAll(src: ImageSource, offset: int, buffer: array<byte>, bufOffset: int, n: int) returns (total: int)
    requires offset >= 0 && 0 <= bufOffset && ChunksFit(offset, n, buffer.Length - bufOffset)
    modifies src, buffer
    ensures total == if n > 0 then n else 0
    ensures SameContent(src.sectors, old(src.sectors)) && old(src.sectors).Keys <= src.sectors.Keys
    ensures buffer[..] == ReadAllAsWritten(old(src.sectors), offset, old(buffer[..]), bufOffset, n)
  {
    total := 0;
    var off, m := offset, n;
    while m > 0
      invariant off == offset + total && m == n - total && 0 <= total
      invariant n > 0 ==> 0 <= m
      invariant total <= (if n > 0 then n else 0)
      invariant ChunksFit(off, m, buffer.Length - bufOffset)
      invariant SameContent(src.sectors, old(src.sectors)) && old(src.sectors).Keys <= src.sectors.Keys
      invariant ReadAllAsWritten(old(src.sectors), off, buffer[..], bufOffset, m)
        == ReadAllAsWritten(old(src.sectors), offset, old(buffer[..]), bufOffset, n)
    {
      ghost var before := src.sectors;
      ChunksFitStep(off, m, buffer.Length - bufOffset);
      var cnt := Read(src, off, buffer, bufOffset, m);
      SameContentBytes(before, old(src.sectors), off, cnt);
      if cnt <= 0 {
        // never taken: a positive request always moves at least one byte
        assert false;
        return total;
      }
      total := total + cnt;
      m := m - cnt;
      off := off + cnt;
    }
  }

  /** BlockSource.WriteAll as written: loops Write until `n` bytes are moved, advancing
      the device offset but passing the same `bufOffset` to every Write. */
  method WriteAll(src: ImageSource, offset: int, buffer: array<byte>, bufOffset: int, n: int) returns (total: int)
    requires offset >= 0 && 0 <= bufOffset && ChunksFit(offset, n, buffer.Length - bufOffset)
    modifies src
    ensures total == if n > 0 then n else 0
    ensures src.sectors == WriteAllAsWritten(old(src.sectors), offset, buffer[..], bufOffset, n)
  {
    ghost var buf := buffer[..];
    ghost var goal := WriteAllAsWritten(src.sectors, offset, buf, bufOffset, n);
    total := 0;
    var off, m := offset, n;
    while m > 0
      invariant off == offset + total && m == n - total && 0 <= total
      invariant n > 0 ==> 0 <= m
      invariant total <= (if n > 0 then n else 0)
      invariant buffer[..] == buf && |buf| == buffer.Length
      invariant ChunksFit(off, m, |buf| - bufOffset)
      invariant WriteAllAsWritten(src.sectors, off, buf, bufOffset, m) == goal
    {
      ghost var cur, off0, m0 := src.sectors, off, m;
      ChunksFitStep(off, m, |buf| - bufOffset);
      assert bufOffset + ChunkCount(off, m) <= buffer.Length;
      var cnt := Write(src, off, buffer, bufOffset, m);
      if cnt <= 0 {
        // never taken: a positive request always moves at least one byte
        assert false;
        return total;
      }
      total := total + cnt;
      m := m - cnt;
      off := off + cnt;
      WriteAllStep(cur, src.sectors, off0, m0, off, m, buf, bufOffset, cnt, goal);
    }
  }

  /** The loop step of WriteAll as written, on values. */
  lemma WriteAllStep(cur: map<int, Sector>, next: map<int, Sector>, off: int, m: int, off2: int, m2: int,
                     buf: seq<byte>, bufOffset: int, cnt: int, goal: map<int, Sector>)
    requires off >= 0 && m > 0 && 0 <= bufOffset && ChunksFit(off, m, |buf| - bufOffset)
    requires cnt == ChunkCount(off, m) && bufOffset + cnt <= |buf|
    requires off2 == off + cnt && m2 == m - cnt
    requires next == PutChunk(cur, off, buf[bufOffset..bufOffset + cnt])
    requires WriteAllAsWritten(cur, off, buf, bufOffset, m) == goal
    ensures off2 >= 0 && ChunksFit(off2, m2, |buf| - bufOffset)
    ensures WriteAllAsWritten(next, off2, buf, bufOffset, m2) == goal
  {
    ChunksFitStep(off, m, |buf| - bufOffset);
  }

  /** An aligned 1024-byte request is two whole-sector chunks. */
  lemma TwoWholeChunks(offset: int, room: int)
    requires offset >= 0 && offset % SectorSize == 0 && SectorSize <= room
    ensures ChunkCount(offset, 2 * SectorSize) == SectorSize
    ensures (offset + SectorSize) % SectorSize == 0
    ensures (offset + SectorSize) / SectorSize == offset / SectorSize + 1
    ensures ChunkCount(offset + SectorSize, SectorSize) == SectorSize
    ensures ChunksFit(offset + SectorSize, SectorSize, room)
    ensures ChunksFit(offset, 2 * SectorSize, room)
  {
  }

  /** A 1024-byte aligned ReadAll as written ends with the SECOND sector's bytes at
      `bufOffset` and leaves the rest of the buffer as it was: the first sector's
      bytes are overwritten and the buffer's second half is never filled. */
  lemma ReadAllAsWrittenLosesFirstSector(sectors: map<int, Sector>, offset: int, buf: seq<byte>, bufOffset: int)
    requires offset >= 0 && offset % SectorSize == 0
    requires 0 <= bufOffset && bufOffset + SectorSize <= |buf|
    ensures ChunksFit(offset, 2 * SectorSize, |buf| - bufOffset)
    ensures ReadAllAsWritten(sectors, offset, buf, bufOffset, 2 * SectorSize)
      == Splice(buf, bufOffset, SectorAt(sectors, offset / SectorSize + 1))
  {
    var room := |buf| - bufOffset;
    var second := offset + SectorSize;
    TwoWholeChunks(offset, room);
    var b1 := Splice(buf, bufOffset, DiskBytes(sectors, offset, SectorSize));
    var b2 := Splice(b1, bufOffset, DiskBytes(sectors, second, SectorSize));
    assert ReadAllAsWritten(sectors, offset, buf, bufOffset, 2 * SectorSize)
      == ReadAllAsWritten(sectors, second, b1, bufOffset, SectorSize);
    assert ReadAllAsWritten(sectors, second, b1, bufOffset, SectorSize)
      == ReadAllAsWritten(sectors, second + SectorSize, b2, bufOffset, 0);
    SpliceTwice(buf, bufOffset, DiskBytes(sectors, offset, SectorSize), DiskBytes(sectors, second, SectorSize));
    SectorBytes(sectors, second);
  }

  /** A 1024-byte aligned WriteAll as written stores the buffer's first 512 bytes in
      BOTH sectors; the buffer's second half never reaches the device. */
  lemma WriteAllAsWrittenDuplicatesFirstHalf(sectors: map<int, Sector>, offset: int, buf: seq<byte>, bufOffset: int)
    requires offset >= 0 && offset % SectorSize == 0
    requires 0 <= bufOffset && bufOffset + SectorSize <= |buf|
    ensures ChunksFit(offset, 2 * SectorSize, |buf| - bufOffset)
    ensures DiskBytes(WriteAllAsWritten(sectors, offset, buf, bufOffset, 2 * SectorSize), offset, 2 * SectorSize)
      == buf[bufOffset..bufOffset + SectorSize] + buf[bufOffset..bufOffset + SectorSize]
  {
    var room := |buf| - bufOffset;
    var second := offset + SectorSize;
    var half := buf[bufOffset..bufOffset + SectorSize];
    TwoWholeChunks(offset, room);
    var m1 := PutChunk(sectors, offset, half);
    var m2 := PutChunk(m1, second, half);
    assert WriteAllAsWritten(sectors, offset, buf, bufOffset, 2 * SectorSize)
      == WriteAllAsWritten(m1, second, buf, bufOffset, SectorSize);
    assert WriteAllAsWritten(m1, second, buf, bufOffset, SectorSize)
      == WriteAllAsWritten(m2, second + SectorSize, buf, bufOffset, 0);
    TwoChunksRead(sectors, offset, half, half);
  }

  /** Two whole-sector chunks written back to back read back as their concatenation. */
  lemma TwoChunksRead(sectors: map<int, Sector>, offset: int, a: seq<byte>, b: seq<byte>)
    requires offset >= 0 && offset % SectorSize == 0 && |a| == |b| == SectorSize
    ensures (offset + SectorSize) % SectorSize == 0
    ensures DiskBytes(PutChunk(PutChunk(sectors, offset, a), offset + SectorSize, b), offset, 2 * SectorSize) == a + b
  {
    var second := offset + SectorSize;
    assert second % SectorSize == 0 by {
      assert second == offset / SectorSize * SectorSize + SectorSize;
    }
    var m1 := PutChunk(sectors, offset, a);
    var m2 := PutChunk(m1, second, b);
    var got := DiskBytes(m2, offset, 2 * SectorSize);
    forall i | 0 <= i < 2 * SectorSize
      ensures got[i] == (a + b)[i]
    {
      var o := offset + i;
      PutChunkEffect(m1, second, b, o);
      PutChunkEffect(sectors, offset, a, o);
      if i < SectorSize {
        assert DiskByte(m2, o) == DiskByte(m1, o);
        assert (a + b)[i] == a[i];
      } else {
        assert (a + b)[i] == b[o - second];
      }
    }
  }

  /** A 5-byte WriteAll as written that starts two bytes before a sector boundary
      stores the buffer's first two bytes, then its first three again: "hello"
      reaches the device as "hehel". */
  lemma UnalignedWriteAsWrittenRepeats(sectors: map<int, Sector>, offset: int, buf: seq<byte>)
    requires offset >= 0 && offset % SectorSize == SectorSize - 2 && 5 <= |buf|
    ensures DiskBytes(WriteAllAsWritten(sectors, offset, buf, 0, 5), offset, 5) == buf[..2] + buf[..3]
  {
    var second := offset + 2;
    assert ChunkCount(offset, 5) == 2;
    assert second % SectorSize == 0 by {
      assert second == offset / SectorSize * SectorSize + SectorSize;
    }
    assert ChunkCount(second, 3) == 3;
    var m1 := PutChunk(sectors, offset, buf[..2]);
    var m2 := PutChunk(m1, second, buf[..3]);
    assert WriteAllAsWritten(sectors, offset, buf, 0, 5) == WriteAllAsWritten(m1, second, buf, 0, 3);
    assert WriteAllAsWritten(m1, second, buf, 0, 3) == WriteAllAsWritten(m2, second + 3, buf, 0, 0);
    AdjacentChunksRead(sectors, offset, buf[..2], buf[..3]);
  }

  /** Two bytes that end a sector and three that start the next one, written back
      to back, read back as their concatenation. */
  lemma AdjacentChunksRead(sectors: map<int, Sector>, offset: int, a: seq<byte>, b: seq<byte>)
    requires offset >= 0 && offset % SectorSize == SectorSize - 2 && |a| == 2 && |b| == 3
    ensures (offset + 2) % SectorSize == 0
    ensures DiskBytes(PutChunk(PutChunk(sectors, offset, a), offset + 2, b), offset, 5) == a + b
  {
    SectorBoundary(offset);
    var got := DiskBytes(PutChunk(PutChunk(sectors, offset, a), offset + 2, b), offset, 5);
    forall i | 0 <= i < 5
      ensures got[i] == (a + b)[i]
    {
      AdjacentByte(sectors, offset, a, b, i);
    }
  }

  /** Two bytes before a sector boundary lies the boundary. */
  lemma SectorBoundary(offset: int)
    requires offset >= 0 && offset % SectorSize == SectorSize - 2
    ensures (offset + 2) % SectorSize == 0
  {
    assert offset + 2 == offset / SectorSize * SectorSize + SectorSize;
  }

  /** Byte `i` of AdjacentChunksRead's span. */
  lemma AdjacentByte(sectors: map<int, Sector>, offset: int, a: seq<byte>, b: seq<byte>, i: int)
    requires offset >= 0 && offset % SectorSize == SectorSize - 2 && |a| == 2 && |b| == 3 && 0 <= i < 5
    requires (offset + 2) % SectorSize == 0
    ensures DiskByte(PutChunk(PutChunk(sectors, offset, a), offset + 2, b), offset + i) == (a + b)[i]
  {
    var m1 := PutChunk(sectors, offset, a);
    var o := offset + i;
    PutChunkEffect(m1, offset + 2, b, o);
    if i < 2 {
      PutChunkEffect(sectors, offset, a, o);
      assert (a + b)[i] == a[o - offset];
    } else {
      assert (a + b)[i] == b[o - (offset + 2)];
    }
  }

  /** The bytes of a span lying within one sector are a slice of that sector. */
  lemma ChunkBytes(sectors: map<int, Sector>, offset: int, count: int)
    requires offset >= 0 && 0 <= count && offset % SectorSize + count <= SectorSize
    ensures DiskBytes(sectors, offset, count)
      == SectorAt(sectors, offset / SectorSize)[offset % SectorSize..offset % SectorSize + count]
  {
    forall i | 0 <= i < count
      ensures DiskBytes(sectors, offset, count)[i] == SectorAt(sectors, offset / SectorSize)[offset % SectorSize + i]
    {
      assert offset == offset / SectorSize * SectorSize + offset % SectorSize;
      assert (offset + i) / SectorSize == offset / SectorSize;
      assert (offset + i) % SectorSize == offset % SectorSize + i;
    }
  }

  /** The 512 bytes of an aligned sector read as that sector. */
  lemma SectorBytes(sectors: map<int, Sector>, offset: int)
    requires offset >= 0 && offset % SectorSize == 0
    ensures DiskBytes(sectors, offset, SectorSize) == SectorAt(sectors, offset / SectorSize)
  {
    forall i | 0 <= i < SectorSize
      ensures DiskBytes(sectors, offset, SectorSize)[i] == SectorAt(sectors, offset / SectorSize)[i]
    {
      assert (offset + i) / SectorSize == offset / SectorSize;
      assert (offset + i) % SectorSize == i;
    }
  }

  /** Two adjacent device spans read into adjacent buffer positions are one span read. */
  lemma SpliceSpans(buf: seq<byte>, bufOffset: int, sectors: map<int, Sector>, offset: int, total: int, at: int, cnt: int, total2: int)
    requires offset >= 0 && 0 <= bufOffset && 0 <= total && 0 <= cnt && at == offset + total && total2 == total + cnt
    requires bufOffset + total2 <= |buf|
    ensures Splice(Splice(buf, bufOffset, DiskBytes(sectors, offset, total)), bufOffset + total, DiskBytes(sectors, at, cnt))
      == Splice(buf, bufOffset, DiskBytes(sectors, offset, total2))
  {
    var d1 := DiskBytes(sectors, offset, total);
    var b1 := Splice(buf, bufOffset, d1);
    var d2 := DiskBytes(sectors, at, cnt);
    var d := DiskBytes(sectors, offset, total2);
    var lhs := Splice(b1, bufOffset + total, d2);
    var rhs := Splice(buf, bufOffset, d);
    SpliceAt(buf, bufOffset, d1);
    SpliceAt(b1, bufOffset + total, d2);
    SpliceAt(buf, bufOffset, d);
    forall i | 0 <= i < |buf|
      ensures lhs[i] == rhs[i]
    {
      if i < bufOffset {
        assert lhs[i] == b1[i] == buf[i];
      } else if i < bufOffset + total {
        assert lhs[i] == b1[i] == d1[i - bufOffset];
        assert rhs[i] == d[i - bufOffset];
      } else if i < bufOffset + total2 {
        assert lhs[i] == d2[i - (bufOffset + total)];
        assert rhs[i] == d[i - bufOffset];
      } else {
        assert lhs[i] == b1[i] == buf[i];
      }
    }
    assert lhs == rhs;
  }

  /** Corrected ReadAll: as BlockSource.ReadAll, but chunk `k` lands at
      `bufOffset + total`, the way BobFsNode.ReadAll advances its buffer position. */
  method ReadSpan(src: ImageSource, offset: int, buffer: array<byte>, bufOffset: int, n: int) returns (total: int)
    requires offset >= 0 && 0 <= bufOffset && bufOffset + (if n > 0 then n else 0) <= buffer.Length
    modifies src, buffer
    ensures total == if n > 0 then n else 0
    ensures SameContent(src.sectors, old(src.sectors)) && old(src.sectors).Keys <= src.sectors.Keys
    ensures buffer[..] == Splice(old(buffer[..]), bufOffset, DiskBytes(old(src.sectors), offset, total))
    ensures ContentOf(src.sectors) == ContentOf(old(src.sectors))
    ensures offset + total <= DeviceSize ==>
      buffer[..] == Splice(old(buffer[..]), bufOffset, ContentOf(old(src.sectors))[offset..offset + total])
  {
    total := ReadSpanLoop(src, offset, buffer, bufOffset, n);
    ContentSame(src.sectors, old(src.sectors));
    if offset + total <= DeviceSize {
      ContentBytes(old(src.sectors), offset, total);
    }
  }

  /** The loop of ReadSpan. */
  method ReadSpanLoop(src: ImageSource, offset: int, buffer: array<byte>, bufOffset: int, n: int) returns (total: int)
    requires offset >= 0 && 0 <= bufOffset && bufOffset + (if n > 0 then n else 0) <= buffer.Length
    modifies src, buffer
    ensures total == if n > 0 then n else 0
    ensures SameContent(src.sectors, old(src.sectors)) && old(src.sectors).Keys <= src.sectors.Keys
    ensures buffer[..] == Splice(old(buffer[..]), bufOffset, DiskBytes(old(src.sectors), offset, total))
  {
    total := 0;
    var off, m := offset, n;
    while m > 0
      invariant off == offset + total && m == n - total && 0 <= total
      invariant n > 0 ==> 0 <= m
      invariant total <= (if n > 0 then n else 0)
      invariant SameContent(src.sectors, old(src.sectors)) && old(src.sectors).Keys <= src.sectors.Keys
      invariant buffer[..] == Splice(old(buffer[..]), bufOffset, DiskBytes(old(src.sectors), offset, total))
    {
      ghost var was, total0, off0 := src.sectors, total, off;
      var cnt := Read(src, off, buffer, bufOffset + total, m);
      SameContentBytes(was, old(src.sectors), off, cnt);
      if cnt <= 0 {
        // never taken: a positive request always moves at least one byte
        assert false;
        return total;
      }
      total := total + cnt;
      m := m - cnt;
      off := off + cnt;
      SpliceSpans(old(buffer[..]), bufOffset, old(src.sectors), offset, total0, off0, cnt, total);
    }
  }

  /** The loop step of WriteSpan, on values: one more chunk written from position `lo`
      leaves the same remaining write. */
  lemma WriteSpanStep(cur: map<int, Sector>, next: map<int, Sector>, at: int, lo: int, hi: int, buf: seq<byte>,
                      cnt: int, at2: int, lo2: int, goal: map<int, Sector>)
    requires at >= 0 && 0 <= lo < hi <= |buf| && cnt == ChunkCount(at, hi - lo)
    requires at2 == at + cnt && lo2 == lo + cnt && lo2 <= hi
    requires next == PutChunk(cur, at, buf[lo..lo + cnt])
    requires WriteRange(cur, at, buf, lo, hi) == goal
    ensures WriteRange(next, at2, buf, lo2, hi) == goal
  {
  }

  /** An empty remaining write changes nothing. */
  lemma WriteSpanDone(sectors: map<int, Sector>, at: int, buf: seq<byte>, lo: int, hi: int)
    requires at >= 0 && 0 <= lo == hi <= |buf|
    ensures WriteRange(sectors, at, buf, lo, hi) == sectors
  {
  }

  /** Corrected WriteAll: chunk `k` is taken from `bufOffset + total`, so the device
      span receives exactly `buffer[bufOffset .. bufOffset + n)`. */
  method WriteSpan(src: ImageSource, offset: int, buffer: array<byte>, bufOffset: int, n: int) returns (total: int)
    requires offset >= 0 && 0 <= bufOffset && bufOffset + (if n > 0 then n else 0) <= buffer.Length
    modifies src
    ensures total == if n > 0 then n else 0
    ensures src.sectors == WriteRange(old(src.sectors), offset, buffer[..], bufOffset, bufOffset + total)
    ensures offset + total <= DeviceSize ==>
      ContentOf(src.sectors) == Splice(ContentOf(old(src.sectors)), offset, buffer[bufOffset..bufOffset + total])
  {
    total := WriteSpanLoop(src, offset, buffer, bufOffset, n);
    if offset + total <= DeviceSize {
      ContentWrite(old(src.sectors), offset, buffer[..], bufOffset, bufOffset + total);
    }
  }

  /** The loop of WriteSpan. */
  method WriteSpanLoop(src: ImageSource, offset: int, buffer: array<byte>, bufOffset: int, n: int) returns (total: int)
    requires offset >= 0 && 0 <= bufOffset && bufOffset + (if n > 0 then n else 0) <= buffer.Length
    modifies src
    ensures total == if n > 0 then n else 0
    ensures src.sectors == WriteRange(old(src.sectors), offset, buffer[..], bufOffset, bufOffset + total)
  {
    ghost var buf := buffer[..];
    ghost var end := bufOffset + (if n > 0 then n else 0);
    ghost var goal := WriteRange(src.sectors, offset, buf, bufOffset, end);
    total := 0;
    var off, lo, m := offset, bufOffset, n;
    while m > 0
      invariant off == offset + total && lo == bufOffset + total && m == n - total && 0 <= total
      invariant lo <= end && (n > 0 ==> m == end - lo)
      invariant buffer[..] == buf
      invariant WriteRange(src.sectors, off, buf, lo, end) == goal
    {
      ghost var cur, off0, lo0 := src.sectors, off, lo;
      var cnt := Write(src, off, buffer, lo, m);
      if cnt <= 0 {
        // never taken: a positive request always moves at least one byte
        assert false;
        return total;
      }
      total := total + cnt;
      m := m - cnt;
      off := off + cnt;
      lo := lo + cnt;
      WriteSpanStep(cur, src.sectors, off0, lo0, end, buf, cnt, off, lo, goal);
    }
    WriteSpanDone(src.sectors, off, buf, lo, end);
  }
}
