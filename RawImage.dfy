/** The in-memory sector store behind a BobFS image: a dictionary from sector
    index to a 512-byte sector, filled from an image and assembled back into one. */
module RawImage {
  import opened Bytes

  const SectorSize: int := 512

  type Sector = s: seq<byte> | |s| == SectorSize witness Zeros(512)

  function ZeroSector(): Sector
  {
    Zeros(SectorSize)
  }

  /** What reading sector `s` yields: the stored bytes, or zeros for a sector never stored. */
  function SectorAt(sectors: map<int, Sector>, s: int): Sector
  {
    if s in sectors then sectors[s] else ZeroSector()
  }

  /** The dictionary after the first touch of sector `s` (ReadSector and WriteSector
      both insert a zero sector when none is stored). */
  function Touch(sectors: map<int, Sector>, s: int): (r: map<int, Sector>)
    ensures r.Keys == sectors.Keys + {s}
    ensures forall t :: SectorAt(r, t) == SectorAt(sectors, t)
  {
    if s in sectors then sectors else sectors[s := ZeroSector()]
  }

  /** Storing a sector over a touched dictionary is storing it over the original. */
  lemma TouchThenStore(sectors: map<int, Sector>, s: int, v: Sector)
    ensures Touch(sectors, s)[s := v] == sectors[s := v]
  {
  }

  /** The sectors an image of `|image|` bytes splits into: sector `i` holds bytes
      `[512 i, 512 i + 512)`. */
  function ImageSectors(image: seq<byte>): (r: map<int, Sector>)
    requires |image| % SectorSize == 0
    ensures forall i :: i in r <==> 0 <= i < |image| / SectorSize
  {
    FirstSectors(image, |image| / SectorSize)
  }

  /** The first `count` sectors of an image, keyed by their index. */
  function FirstSectors(image: seq<byte>, count: int): (r: map<int, Sector>)
    requires 0 <= count && SectorSize * count <= |image|
    ensures forall i :: i in r <==> 0 <= i < count
  {
    map i | 0 <= i < count :: image[SectorSize * i..SectorSize * i + SectorSize]
  }

  /** Sector `index` of an image lies inside it. */
  lemma SectorFits(image: seq<byte>, index: int)
    requires 0 <= index < |image| / SectorSize
    ensures SectorSize * index + SectorSize <= |image|
  {
  }

  /** Storing the next sector extends the sectors stored so far by one. */
  lemma FirstSectorsNext(base: map<int, Sector>, image: seq<byte>, count: int)
    requires 0 <= count && SectorSize * count + SectorSize <= |image|
    ensures (base + FirstSectors(image, count))[count := image[SectorSize * count..SectorSize * count + SectorSize]]
      == base + FirstSectors(image, count + 1)
  {
  }

  /** The image Save writes: `(largest + 1) * 512` bytes, each stored sector at
      `key * 512`, zeros elsewhere. */
  function AssembledImage(sectors: map<int, Sector>, largest: int): (r: seq<byte>)
    requires largest >= -1
    ensures |r| == (largest + 1) * SectorSize
  {
    seq((largest + 1) * SectorSize, i requires 0 <= i => SectorAt(sectors, i / SectorSize)[i % SectorSize])
  }

  /** Splitting an image into sectors and assembling them again gives the image back. */
  lemma ImageRoundTrip(image: seq<byte>)
    requires |image| % SectorSize == 0
    ensures AssembledImage(ImageSectors(image), |image| / SectorSize - 1) == image
  {
    var m := ImageSectors(image);
    var r := AssembledImage(m, |image| / SectorSize - 1);
    forall i | 0 <= i < |image|
      ensures r[i] == image[i]
    {
      var s := i / SectorSize;
      assert s in m;
      assert SectorSize * s <= i < SectorSize * s + SectorSize;
      assert m[s][i % SectorSize] == image[SectorSize * s + i % SectorSize];
    }
  }

  class ImageSource {
    /** The `_sectors` dictionary. */
    var sectors: map<int, Sector>

    /** An empty image: every sector reads as zeros. */
    constructor ()
      ensures sectors == map[]
    {
      sectors := map[];
    }

    /** Copies sector `sector` into `buffer` at `bufOffset`, first inserting a zero
        sector when none is stored. */
    method ReadSector(sector: int, buffer: array<byte>, bufOffset: int)
      requires 0 <= bufOffset && bufOffset + SectorSize <= buffer.Length
      modifies this, buffer
      ensures sectors == Touch(old(sectors), sector)
      ensures buffer[..] == Splice(old(buffer[..]), bufOffset, SectorAt(old(sectors), sector))
    {
      if sector !in sectors {
        sectors := sectors[sector := ZeroSector()];
      }
      var data := sectors[sector];
      forall i | 0 <= i < SectorSize {
        buffer[bufOffset + i] := data[i];
      }
    }

    /** Overwrites sector `sector` with `buffer[bufOffset .. bufOffset + 512)`. */
    method WriteSector(sector: int, buffer: array<byte>, bufOffset: int)
      requires 0 <= bufOffset && bufOffset + SectorSize <= buffer.Length
      modifies this
      ensures sectors == old(sectors)[sector := buffer[bufOffset..bufOffset + SectorSize]]
    {
      if sector !in sectors {
        sectors := sectors[sector := ZeroSector()];
      }
      sectors := sectors[sector := buffer[bufOffset..bufOffset + SectorSize]];
    }

    /** Splits an image into sectors; an image whose length is not a multiple of
        512 is rejected (`false`) and nothing is stored. */
    method PopulateSectors(file: seq<byte>) returns (ok: bool)
      modifies this
      ensures ok == (|file| % SectorSize == 0)
      ensures ok ==> sectors == old(sectors) + ImageSectors(file)
      ensures !ok ==> sectors == old(sectors)
    {
      if |file| % SectorSize != 0 {
        return false;
      }
      for index := 0 to |file| / SectorSize
        invariant SectorSize * index <= |file|
        invariant sectors == old(sectors) + FirstSectors(file, index)
      {
        SectorFits(file, index);
        var tmpBuf := file[SectorSize * index..SectorSize * index + SectorSize];
        FirstSectorsNext(old(sectors), file, index);
        sectors := sectors[index := tmpBuf];
      }
      return true;
    }

    /** The image-assembly part of Save: `None` where .NET throws (no sector stored,
        so `Keys.Max()` fails; a negative sector index, so the copy position is out
        of range; or an image size `(largest + 1) * 512` past the `int` range),
        otherwise the assembled image. */
    method Save() returns (image: Option<seq<byte>>)
      ensures (sectors == map[] || (exists k :: k in sectors && k < 0) ||
               (sectors.Keys != {} && (LargestKey(sectors.Keys) + 1) * SectorSize > MaxInt)) <==> image.None?
      ensures image.Some? ==> image.value == AssembledImage(sectors, LargestKey(sectors.Keys))
      ensures image.Some? ==> |image.value| <= MaxInt
    {
      if sectors == map[] {
        return None;
      }
      var largest := MaxKey(sectors.Keys);
      if largest < 0 {
        return None;
      }
      if (largest + 1) * SectorSize > MaxInt {
        return None;
      }
      var writeBuf := new byte[(largest + 1) * SectorSize](_ => 0);
      var todo := sectors.Keys;
      ghost var done: set<int> := {};
      while todo != {}
        invariant todo + done == sectors.Keys && todo !! done
        invariant forall k :: k in done ==> 0 <= k
        invariant forall i :: 0 <= i < writeBuf.Length ==>
          writeBuf[i] == (if i / SectorSize in done then sectors[i / SectorSize][i % SectorSize] else 0)
        decreases todo
      {
        NonEmptyHasMember(todo);
        var key :| key in todo;
        if key < 0 {
          return None;
        }
        var data := sectors[key];
        ghost var before := writeBuf[..];
        forall i | 0 <= i < SectorSize {
          writeBuf[key * SectorSize + i] := data[i];
        }
        todo := todo - {key};
        done := done + {key};
        forall i | 0 <= i < writeBuf.Length
          ensures writeBuf[i] == (if i / SectorSize in done then sectors[i / SectorSize][i % SectorSize] else 0)
        {
          SectorIndex(i, key);
          if i / SectorSize != key {
            assert writeBuf[i] == before[i];
          }
        }
      }
      image := Some(writeBuf[..]);
    }
  }

  /** Byte `i` of an image lies in sector `key` exactly when it falls in that sector's span. */
  lemma SectorIndex(i: int, key: int)
    requires 0 <= i && 0 <= key
    ensures i / SectorSize == key <==> key * SectorSize <= i < key * SectorSize + SectorSize
    ensures i / SectorSize == key ==> i % SectorSize == i - key * SectorSize
  {
  }

  /** `_sectors.Keys.Max()`. */
  ghost function LargestKey(keys: set<int>): (r: int)
    requires keys != {}
    ensures r in keys && forall j :: j in keys ==> j <= r
    decreases keys
  {
    NonEmptyHasMember(keys);
    var k :| k in keys;
    assert forall j :: j in keys ==> j == k || j in keys - {k};
    if keys - {k} == {} then k
    else
      var rest := LargestKey(keys - {k});
      if k < rest then rest else k
  }

  method MaxKey(keys: set<int>) returns (largest: int)
    requires keys != {}
    ensures largest == LargestKey(keys)
  {
    NonEmptyHasMember(keys);
    largest :| largest in keys;
    var todo := keys - {largest};
    while todo != {}
      invariant todo <= keys && largest in keys
      invariant forall k :: k in keys && k !in todo ==> k <= largest
      decreases todo
    {
      NonEmptyHasMember(todo);
      var k :| k in todo;
      if k > largest {
        largest := k;
      }
      todo := todo - {k};
    }
  }
}
