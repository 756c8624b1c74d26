/** File headers: a length and a table of the sectors that hold the file, one disk sector in all. */
module FileHeaders {
  import opened Bytes
  import opened SectorDisks
  import opened BitMaps

  const NumDirect := 30
  const MaxFileSize := NumDirect * SectorSize

  function DivRoundUp(n: nat, s: nat): nat
    requires s > 0
  {
    n / s + (if n % s > 0 then 1 else 0)
  }

  /** The least number of sectors that hold `n` bytes. */
  lemma SectorsNeeded(n: nat)
    ensures var r := DivRoundUp(n, SectorSize); n <= r * SectorSize && (r > 0 ==> (r - 1) * SectorSize < n)
  {
  }

  /** The value of a header, in memory or on disk. */
  datatype HeaderRecord = HeaderRecord(numBytes: Word, numSectors: Word, dataSectors: seq<Word>)

  type Header = h: HeaderRecord | |h.dataSectors| == NumDirect
    witness HeaderRecord(0, 0, seq(NumDirect, i => 0))

  function HeaderWords(h: Header): (words: seq<Word>)
    ensures |words| == 32
  {
    [h.numBytes, h.numSectors] + h.dataSectors
  }

  function EncodeHeader(h: Header): Sector {
    WordsToBytes(HeaderWords(h))
  }

  function DecodeHeader(s: Sector): Header {
    HeaderRecord(FromBytes(s, 0), FromBytes(s, 4), seq(NumDirect, i requires 0 <= i < NumDirect => FromBytes(s, 4 * (2 + i))))
  }

  /** On disk a header is the length, the number of sectors, and the table of sectors, four bytes each. */
  lemma HeaderLayout(s: Sector, k: nat)
    requires k < 4
    ensures var h := DecodeHeader(s);
            && ToBytes(h.numBytes)[k] == s[k] && ToBytes(h.numSectors)[k] == s[4 + k]
            && forall i :: 0 <= i < NumDirect ==> ToBytes(h.dataSectors[i])[k] == s[8 + 4 * i + k]
  {
    hide ToBytes, JoinBytes;
    BytesRoundTrip(s[0], s[1], s[2], s[3]);
    BytesRoundTrip(s[4], s[5], s[6], s[7]);
    forall i | 0 <= i < NumDirect
      ensures ToBytes(DecodeHeader(s).dataSectors[i])[k] == s[8 + 4 * i + k]
    {
      var j := 8 + 4 * i;
      BytesRoundTrip(s[j], s[j + 1], s[j + 2], s[j + 3]);
    }
  }

  lemma HeaderWordAt(h: Header, k: nat)
    requires k < 32
    ensures FromBytes(EncodeHeader(h), 4 * k) == HeaderWords(h)[k]
  {
    WordsRoundTrip(HeaderWords(h), k);
  }

  lemma DecodedTable(s: Sector, h: Header)
    requires forall i :: 0 <= i < NumDirect ==> FromBytes(s, 4 * (2 + i)) == h.dataSectors[i]
    ensures DecodeHeader(s).dataSectors == h.dataSectors
  {
  }

  /** A header fetched from the sector it was written back to is the header that was written. */
  lemma HeaderRoundTrip(h: Header)
    ensures DecodeHeader(EncodeHeader(h)) == h
  {
    HeaderWordAt(h, 0);
    HeaderWordAt(h, 1);
    forall i | 0 <= i < NumDirect
      ensures FromBytes(EncodeHeader(h), 4 * (2 + i)) == h.dataSectors[i]
    {
      HeaderWordAt(h, 2 + i);
    }
    DecodedTable(EncodeHeader(h), h);
  }

  /** The sectors that hold the first `n` sectors' worth of data. */
  function Sectors(h: Header, n: nat): (s: set<nat>)
    requires n <= NumDirect
  {
    set i: nat | i < n :: h.dataSectors[i]
  }

  /** A header that Allocate can have produced: the table entries in use name different sectors of the disk. */
  ghost predicate ValidHeader(h: Header) {
    && h.numBytes <= MaxFileSize
    && h.numSectors == DivRoundUp(h.numBytes, SectorSize)
    && (forall i :: 0 <= i < h.numSectors ==> h.dataSectors[i] < NumSectors)
    && (forall i, j :: 0 <= i < j < h.numSectors ==> h.dataSectors[i] != h.dataSectors[j])
  }

  function DataSectors(h: Header): set<nat>
    requires h.numSectors <= NumDirect
  {
    Sectors(h, h.numSectors)
  }

  lemma OneMoreSector(h: Header, n: nat)
    requires n < NumDirect
    ensures Sectors(h, n + 1) == Sectors(h, n) + {h.dataSectors[n]}
  {
    forall i: nat | i < n + 1
      ensures h.dataSectors[i] in Sectors(h, n) + {h.dataSectors[n]}
    {
      assert i < n ==> h.dataSectors[i] in Sectors(h, n);
    }
    forall s | s in Sectors(h, n)
      ensures s in Sectors(h, n + 1)
    {
      var i: nat :| i < n && h.dataSectors[i] == s;
      assert h.dataSectors[i] in Sectors(h, n + 1);
    }
    assert h.dataSectors[n] in Sectors(h, n + 1);
  }

  /** A file uses as many sectors as its header says. */
  lemma {:induction false} SectorCount(h: Header, n: nat)
    requires n <= NumDirect
    requires forall i, j :: 0 <= i < j < n ==> h.dataSectors[i] != h.dataSectors[j]
    ensures |Sectors(h, n)| == n
  {
    if n == 0 {
      assert Sectors(h, 0) == {};
    } else {
      SectorCount(h, n - 1);
      OneMoreSector(h, n - 1);
    }
  }

  /** The first `n` sectors of `h` have been taken, one by one, from those that were not in `before`. */
  ghost predicate Allocated(h: Header, n: nat, before: set<nat>, marked: set<nat>) {
    && n <= NumDirect
    && (forall i :: 0 <= i < n ==> h.dataSectors[i] < NumSectors)
    && (forall i, j :: 0 <= i < j < n ==> h.dataSectors[i] != h.dataSectors[j])
    && Sectors(h, n) !! before
    && marked == before + Sectors(h, n)
  }

  lemma AllocatedStep(h: Header, n: nat, found: nat, before: set<nat>, marked: set<nat>)
    requires n < NumDirect && Allocated(h, n, before, marked)
    requires found < NumSectors && found !in marked
    ensures Allocated(h.(dataSectors := h.dataSectors[n := found]), n + 1, before, marked + {found})
  {
    var g := h.(dataSectors := h.dataSectors[n := found]);
    SameTable(h, g, n);
    OneMoreSector(g, n);
    forall i | 0 <= i < n
      ensures h.dataSectors[i] != found
    {
      assert h.dataSectors[i] in Sectors(h, n);
    }
  }

  class FileHeader {
    var numBytes: Word
    var numSectors: Word
    var dataSectors: seq<Word>

    ghost predicate Valid()
      reads this
    {
      |dataSectors| == NumDirect
    }

    ghost function Value(): Header
      requires Valid()
      reads this
    {
      HeaderRecord(numBytes, numSectors, dataSectors)
    }

    /** Fresh memory: nothing is promised about what the fields hold. */
    constructor ()
      ensures Valid()
    {
      numBytes, numSectors, dataSectors := 0, 0, seq(NumDirect, i => 0);
    }

    method Allocate(freeMap: BitMap, fileSize: nat) returns (ok: bool)
      requires Valid() && freeMap.Valid() && freeMap.numBits == NumSectors
      requires fileSize <= MaxFileSize
      modifies this, freeMap.words
      ensures Valid()
      ensures ok <==> |old(freeMap.Marked())| + DivRoundUp(fileSize, SectorSize) <= NumSectors
      ensures !ok ==> freeMap.Marked() == old(freeMap.Marked())
      ensures ok ==>
                && ValidHeader(Value()) && numBytes == fileSize
                && DataSectors(Value()) !! old(freeMap.Marked())
                && freeMap.Marked() == old(freeMap.Marked()) + DataSectors(Value())
    {
      numBytes := fileSize;
      numSectors := DivRoundUp(fileSize, SectorSize);
      var free := freeMap.NumClear();
      if free < numSectors {
        return false;
      }
      ghost var before := freeMap.Marked();
      for i := 0 to numSectors
        invariant Valid() && numBytes == fileSize && numSectors == DivRoundUp(fileSize, SectorSize)
        invariant Allocated(Value(), i, before, freeMap.Marked())
      {
        ghost var h := Value();
        SectorCount(h, i);
        var found := freeMap.Find();
        assert found != -1;
        dataSectors := dataSectors[i := found];
        AllocatedStep(h, i, found, before, before + Sectors(h, i));
      }
      return true;
    }

    method Deallocate(freeMap: BitMap)
      requires Valid() && freeMap.Valid() && freeMap.numBits == NumSectors
      requires ValidHeader(Value())
      requires DataSectors(Value()) <= freeMap.Marked()
      modifies freeMap.words
      ensures freeMap.Marked() == old(freeMap.Marked()) - DataSectors(Value())
    {
      for i := 0 to numSectors
        invariant freeMap.Marked() == old(freeMap.Marked()) - Sectors(Value(), i)
      {
        NotYet(Value(), i);
        var marked := freeMap.Test(dataSectors[i]);
        assert marked;
        freeMap.Clear(dataSectors[i]);
        OneMoreSector(Value(), i);
      }
    }

    method FetchFrom(disk: SectorDisk, sector: nat)
      requires Valid() && disk.Valid() && sector < NumSectors
      modifies this
      ensures Valid() && Value() == DecodeHeader(disk.Contents()[sector])
    {
      var memory := new byte[SectorSize];
      disk.ReadSector(sector, memory, 0);
      var h := DecodeHeader(memory[..]);
      numBytes, numSectors, dataSectors := h.numBytes, h.numSectors, h.dataSectors;
    }

    method WriteBack(disk: SectorDisk, sector: nat)
      requires Valid() && disk.Valid() && sector < NumSectors
      modifies disk.sectors
      ensures disk.Contents() == old(disk.Contents())[sector := EncodeHeader(Value())]
    {
      var bytes := WordsToBytes([numBytes, numSectors] + dataSectors);
      var memory := new byte[SectorSize](i requires 0 <= i < SectorSize => bytes[i]);
      assert memory[0..SectorSize] == bytes;
      assert HeaderWords(Value()) == [numBytes, numSectors] + dataSectors;
      disk.WriteSector(sector, memory, 0);
    }

    function ByteToSector(offset: nat): Word
      requires Valid() && offset / SectorSize < NumDirect
      reads this
    {
      dataSectors[offset / SectorSize]
    }

    function FileLength(): Word
      reads this
    {
      numBytes
    }
  }

  lemma SameTable(h: Header, g: Header, n: nat)
    requires n <= NumDirect
    requires forall i :: 0 <= i < n ==> h.dataSectors[i] == g.dataSectors[i]
    ensures Sectors(h, n) == Sectors(g, n)
  {
    forall s
      ensures s in Sectors(h, n) <==> s in Sectors(g, n)
    {
      if s in Sectors(h, n) {
        var i: nat :| i < n && h.dataSectors[i] == s;
        assert g.dataSectors[i] in Sectors(g, n);
      }
      if s in Sectors(g, n) {
        var i: nat :| i < n && g.dataSectors[i] == s;
        assert h.dataSectors[i] in Sectors(h, n);
      }
    }
  }

  lemma NotYet(h: Header, n: nat)
    requires ValidHeader(h) && n < h.numSectors
    ensures h.dataSectors[n] in DataSectors(h) && h.dataSectors[n] !in Sectors(h, n)
  {
  }
}
