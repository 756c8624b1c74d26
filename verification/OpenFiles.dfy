/** Open files: byte ranges of any alignment over sectors that are read and written whole. */
module OpenFiles {
  import opened Bytes
  import opened SectorDisks
  import opened FileHeaders

  /** Where byte `p` of the file with header `h` lies on the disk. */
  function ByteOf(d: Image, h: Header, p: nat): byte
    requires ValidHeader(h) && p / SectorSize < h.numSectors
  {
    d[h.dataSectors[p / SectorSize]][p % SectorSize]
  }

  /** The bytes of the file with header `h`. */
  function Content(d: Image, h: Header): (s: seq<byte>)
    requires ValidHeader(h)
    ensures |s| == h.numBytes
  {
    seq(h.numBytes, p requires 0 <= p < h.numBytes => ByteOf(d, h, p))
  }

  lemma ContentDependsOnDataSectors(d: Image, e: Image, h: Header)
    requires ValidHeader(h)
    requires forall s :: s in DataSectors(h) ==> d[s] == e[s]
    ensures Content(d, h) == Content(e, h)
  {
    forall p: nat | p < h.numBytes
      ensures ByteOf(d, h, p) == ByteOf(e, h, p)
    {
      assert h.dataSectors[p / SectorSize] in DataSectors(h);
    }
  }

  /** How much of a request is honoured: none when it is empty or starts past the end, else up to the end. */
  function Clipped(numBytes: int, position: nat, fileLength: nat): (n: nat)
    ensures n > 0 ==> n <= numBytes && position + n <= fileLength
    ensures numBytes > 0 && position < fileLength ==> n > 0 && (n == numBytes || position + n == fileLength)
  {
    if numBytes <= 0 || position >= fileLength then 0
    else if position + numBytes > fileLength then fileLength - position
    else numBytes
  }

  /** The sectors from that of the first byte to that of the last one are sectors of the file. */
  lemma SectorRange(fileLength: nat, position: nat, n: nat)
    requires n > 0 && position + n <= fileLength
    ensures position / SectorSize <= (position + n - 1) / SectorSize < DivRoundUp(fileLength, SectorSize)
    ensures position / SectorSize * SectorSize <= position
    ensures position + n <= ((position + n - 1) / SectorSize + 1) * SectorSize
  {
  }

  lemma SectorStart(fileLength: nat, i: nat)
    requires i < DivRoundUp(fileLength, SectorSize)
    ensures i * SectorSize < fileLength
  {
  }

  // ---------------------------------------------------------------- ReadAt

  /** The buffer holds the bytes of the file that start with those of its sector `first`. */
  ghost predicate Fetched(d: Image, h: Header, first: nat, buf: seq<byte>)
    requires ValidHeader(h) && first * SectorSize + |buf| <= h.numSectors * SectorSize
  {
    forall k :: 0 <= k < |buf| ==> buf[k] == ByteOf(d, h, first * SectorSize + k)
  }

  lemma FetchStep(d: Image, h: Header, first: nat, i: nat, before: seq<byte>, after: seq<byte>)
    requires ValidHeader(h) && first <= i < h.numSectors
    requires (1 + i - first) * SectorSize <= |before|
    requires Fetched(d, h, first, before[..(i - first) * SectorSize])
    requires after == Splice(before, (i - first) * SectorSize, d[h.dataSectors[i]])
    ensures Fetched(d, h, first, after[..(1 + i - first) * SectorSize])
  {
    var at := (i - first) * SectorSize;
    forall k: nat | k < at + SectorSize
      ensures after[k] == ByteOf(d, h, first * SectorSize + k)
    {
      if k < at {
        assert after[k] == before[..at][k];
      }
    }
  }

  lemma WantedSlice(d: Image, h: Header, first: nat, buf: seq<byte>, position: nat, n: nat)
    requires ValidHeader(h) && position + n <= h.numBytes
    requires first * SectorSize + |buf| <= h.numSectors * SectorSize
    requires first * SectorSize <= position && position + n <= first * SectorSize + |buf|
    requires Fetched(d, h, first, buf)
    ensures var skip := position - first * SectorSize; buf[skip..skip + n] == Content(d, h)[position..position + n]
  {
    var skip := position - first * SectorSize;
    var wanted := buf[skip..skip + n];
    forall k: nat | k < n
      ensures wanted[k] == Content(d, h)[position..position + n][k]
    {
      assert buf[skip + k] == ByteOf(d, h, first * SectorSize + (skip + k));
    }
  }

  // ---------------------------------------------------------------- WriteAt

  /** The part of the buffer for sector `i` of the file holds what the file has there. */
  ghost predicate HoldsOld(d: Image, h: Header, first: nat, buf: seq<byte>, i: nat)
    requires ValidHeader(h) && first <= i && (i + 1 - first) * SectorSize <= |buf|
  {
    forall k :: (i - first) * SectorSize <= k < (i + 1 - first) * SectorSize && first * SectorSize + k < h.numBytes ==>
      buf[k] == Content(d, h)[first * SectorSize + k]
  }

  /** What the buffer of WriteAt must hold before it is flushed: `source` over the requested range, the old
      bytes of the file elsewhere, and anything at all past the end of the file. */
  ghost predicate ReadyToFlush(d: Image, h: Header, first: nat, buf: seq<byte>, source: seq<byte>, position: nat)
    requires ValidHeader(h) && first * SectorSize <= position
  {
    forall k :: 0 <= k < |buf| && first * SectorSize + k < h.numBytes ==>
      var p := first * SectorSize + k;
      buf[k] == if position <= p < position + |source| then source[p - position] else Content(d, h)[p]
  }

  lemma OldSectorRead(d: Image, h: Header, first: nat, before: seq<byte>, after: seq<byte>, i: nat, n: nat)
    requires ValidHeader(h) && first <= i && (i + 1 - first) * SectorSize <= |before|
    requires i * SectorSize < h.numBytes
    requires n == Clipped(SectorSize, i * SectorSize, h.numBytes)
    requires after == Splice(before, (i - first) * SectorSize, Content(d, h)[i * SectorSize..i * SectorSize + n])
    ensures HoldsOld(d, h, first, after, i)
    ensures forall k :: 0 <= k < (i - first) * SectorSize ==> after[k] == before[k]
  {
    var c, at := Content(d, h), (i - first) * SectorSize;
    forall k: nat | at <= k < at + SectorSize && first * SectorSize + k < h.numBytes
      ensures after[k] == c[first * SectorSize + k]
    {
      assert after[k] == c[i * SectorSize..i * SectorSize + n][k - at];
    }
  }

  lemma PreparedBuffer(d: Image, h: Header, first: nat, last: nat, before: seq<byte>, after: seq<byte>, source: seq<byte>, position: nat)
    requires ValidHeader(h) && first <= last < h.numSectors
    requires |before| == (last + 1 - first) * SectorSize
    requires |source| > 0 && position + |source| <= h.numBytes
    requires first == position / SectorSize && last == (position + |source| - 1) / SectorSize
    requires position != first * SectorSize ==> HoldsOld(d, h, first, before, first)
    requires position + |source| != (last + 1) * SectorSize ==> HoldsOld(d, h, first, before, last)
    requires after == Splice(before, position - first * SectorSize, source)
    ensures ReadyToFlush(d, h, first, after, source, position)
  {
    forall k | 0 <= k < |after| && first * SectorSize + k < h.numBytes
      ensures var p := first * SectorSize + k;
        after[k] == if position <= p < position + |source| then source[p - position] else Content(d, h)[p]
    {
      if first * SectorSize + k < position {
        assert k < SectorSize;
      }
    }
  }

  /** `e` is the disk `d` after the sectors `first` to `i - 1` of the file have been overwritten from `buf`. */
  ghost predicate Flushed(d: Image, e: Image, h: Header, first: nat, i: nat, buf: seq<byte>)
    requires ValidHeader(h) && first <= i <= h.numSectors
    requires (i - first) * SectorSize <= |buf|
  {
    && (forall j :: first <= j < i ==> e[h.dataSectors[j]] == buf[(j - first) * SectorSize..(j + 1 - first) * SectorSize])
    && (forall s :: 0 <= s < NumSectors && (forall j :: first <= j < i ==> h.dataSectors[j] != s) ==> e[s] == d[s])
  }

  lemma FlushStep(d: Image, e: Image, h: Header, first: nat, i: nat, buf: seq<byte>)
    requires ValidHeader(h) && first <= i < h.numSectors
    requires (i + 1 - first) * SectorSize <= |buf|
    requires Flushed(d, e, h, first, i, buf)
    ensures Flushed(d, e[h.dataSectors[i] := buf[(i - first) * SectorSize..(i - first) * SectorSize + SectorSize]], h, first, i + 1, buf)
  {
  }

  lemma FlushedByte(d: Image, e: Image, h: Header, first: nat, last: nat, buf: seq<byte>, source: seq<byte>, position: nat, p: nat)
    requires ValidHeader(h) && first <= last < h.numSectors
    requires |buf| == (last + 1 - first) * SectorSize
    requires first * SectorSize <= position && position + |source| <= (last + 1) * SectorSize
    requires ReadyToFlush(d, h, first, buf, source, position)
    requires Flushed(d, e, h, first, last + 1, buf)
    requires p < h.numBytes
    ensures ByteOf(e, h, p) == if position <= p < position + |source| then source[p - position] else Content(d, h)[p]
  {
    var j := p / SectorSize;
    if first <= j <= last {
      assert ByteOf(e, h, p) == buf[p - first * SectorSize];
    } else {
      assert ByteOf(e, h, p) == ByteOf(d, h, p);
    }
  }

  /** The effect of the write loop on the file and on everything else. */
  lemma FlushEffect(d: Image, e: Image, h: Header, first: nat, last: nat, buf: seq<byte>, source: seq<byte>, position: nat)
    requires ValidHeader(h) && first <= last < h.numSectors
    requires |buf| == (last + 1 - first) * SectorSize
    requires first * SectorSize <= position && position + |source| <= (last + 1) * SectorSize
    requires position + |source| <= h.numBytes
    requires ReadyToFlush(d, h, first, buf, source, position)
    requires Flushed(d, e, h, first, last + 1, buf)
    ensures Content(e, h) == Splice(Content(d, h), position, source)
    ensures forall s :: 0 <= s < NumSectors && s !in DataSectors(h) ==> e[s] == d[s]
  {
    forall p: nat | p < h.numBytes
      ensures Content(e, h)[p] == Splice(Content(d, h), position, source)[p]
    {
      FlushedByte(d, e, h, first, last, buf, source, position, p);
    }
    forall s | 0 <= s < NumSectors && s !in DataSectors(h)
      ensures e[s] == d[s]
    {
      forall j | first <= j < last + 1
        ensures h.dataSectors[j] != s
      {
        assert h.dataSectors[j] in DataSectors(h);
      }
    }
  }

  // ---------------------------------------------------------------- the class

  class OpenFile {
    const disk: SectorDisk
    const hdr: FileHeader
    var seekPosition: nat

    ghost predicate Valid()
      reads this, disk, hdr
    {
      disk.Valid() && hdr.Valid() && ValidHeader(hdr.Value())
    }

    ghost function Bytes(): (s: seq<byte>)
      requires Valid()
      reads this, disk, disk.sectors, hdr
      ensures |s| == hdr.numBytes
    {
      Content(disk.Contents(), hdr.Value())
    }

    /** Opens the file whose header is in `sector`. */
    constructor (disk: SectorDisk, sector: nat)
      requires disk.Valid() && sector < NumSectors
      requires ValidHeader(DecodeHeader(disk.Contents()[sector]))
      ensures Valid() && this.disk == disk && fresh(hdr) && seekPosition == 0
      ensures hdr.Value() == DecodeHeader(disk.Contents()[sector])
    {
      this.disk := disk;
      var h := new FileHeader();
      h.FetchFrom(disk, sector);
      hdr := h;
      seekPosition := 0;
    }

    method Seek(position: nat)
      modifies this
      ensures seekPosition == position
    {
      seekPosition := position;
    }

    method Length() returns (length: nat)
      requires Valid()
      ensures length == |Bytes()|
    {
      length := hdr.FileLength();
    }

    /** The read loop of ReadAt: the sectors `first` to `last` of the file, one after the other. */
    method FetchSectors(first: nat, last: nat) returns (buf: array<byte>)
      requires Valid() && first <= last < hdr.numSectors
      ensures fresh(buf) && buf.Length == (1 + last - first) * SectorSize
      ensures Fetched(disk.Contents(), hdr.Value(), first, buf[..])
    {
      buf := new byte[(1 + last - first) * SectorSize];
      ghost var d, h := disk.Contents(), hdr.Value();
      for i := first to last + 1
        invariant Fetched(d, h, first, buf[..][..(i - first) * SectorSize])
      {
        ghost var before := buf[..];
        disk.ReadSector(hdr.ByteToSector(i * SectorSize), buf, (i - first) * SectorSize);
        FetchStep(d, h, first, i, before, buf[..]);
      }
      assert buf[..][..(1 + last - first) * SectorSize] == buf[..];
    }

    /** The bytes `position` to `position + n - 1` of the file, out of all the sectors they touch. */
    method FetchRange(position: nat, n: nat) returns (wanted: seq<byte>)
      requires Valid() && n > 0 && position + n <= hdr.numBytes
      ensures wanted == Bytes()[position..position + n]
    {
      var firstSector := position / SectorSize;
      var lastSector := (position + n - 1) / SectorSize;
      SectorRange(hdr.numBytes, position, n);
      var buf := FetchSectors(firstSector, lastSector);
      var skip := position - firstSector * SectorSize;
      WantedSlice(disk.Contents(), hdr.Value(), firstSector, buf[..], position, n);
      wanted := buf[..][skip..skip + n];
    }

    /** Copies up to `numBytes` bytes from `position` on into the buffer `into`, from its index `at` on. */
    method ReadAt(into: array<byte>, at: nat, numBytes: int, position: nat) returns (n: nat)
      requires Valid()
      requires at + Clipped(numBytes, position, hdr.numBytes) <= into.Length
      modifies into
      ensures n == Clipped(numBytes, position, hdr.numBytes)
      ensures n == 0 ==> into[..] == old(into[..])
      ensures n > 0 ==> into[..] == Splice(old(into[..]), at, old(Bytes())[position..position + n])
    {
      var fileLength := hdr.FileLength();
      if numBytes <= 0 || position >= fileLength {
        return 0;
      }
      n := if position + numBytes > fileLength then fileLength - position else numBytes;
      var wanted := FetchRange(position, n);
      Bcopy(wanted, into, at);
    }

    /** The request that fetches a table kept in a file: all `size` bytes of it, into fresh memory. */
    method ReadWhole(size: nat) returns (raw: seq<byte>)
      requires Valid() && hdr.numBytes == size
      ensures raw == Bytes()
    {
      var memory := new byte[size];
      var n := ReadAt(memory, 0, size, 0);
      raw := memory[..];
    }

    /** The call `ReadAt(&buf[(i - first) * SectorSize], SectorSize, i * SectorSize)` of WriteAt. */
    method ReadOldSector(buf: array<byte>, first: nat, i: nat) returns (n: nat)
      requires Valid() && first <= i < hdr.numSectors
      requires (i + 1 - first) * SectorSize <= buf.Length
      modifies buf
      ensures HoldsOld(disk.Contents(), hdr.Value(), first, buf[..], i)
      ensures forall k :: 0 <= k < (i - first) * SectorSize ==> buf[k] == old(buf[k])
    {
      ghost var d, h, before := disk.Contents(), hdr.Value(), buf[..];
      SectorStart(hdr.numBytes, i);
      n := ReadAt(buf, (i - first) * SectorSize, SectorSize, i * SectorSize);
      OldSectorRead(d, h, first, before, buf[..], i, n);
    }

    /** The first half of WriteAt: read in the sectors that are only partly overwritten, copy the new bytes in. */
    method PrepareBuffer(source: seq<byte>, first: nat, last: nat, position: nat) returns (buf: array<byte>)
      requires Valid() && first <= last < hdr.numSectors
      requires |source| > 0 && position + |source| <= hdr.numBytes
      requires first == position / SectorSize && last == (position + |source| - 1) / SectorSize
      ensures fresh(buf) && buf.Length == (last + 1 - first) * SectorSize
      ensures ReadyToFlush(disk.Contents(), hdr.Value(), first, buf[..], source, position)
    {
      buf := new byte[(1 + last - first) * SectorSize];
      var firstAligned := position == first * SectorSize;
      var lastAligned := position + |source| == (last + 1) * SectorSize;
      ghost var d, h := disk.Contents(), hdr.Value();
      if !firstAligned {
        var _ := ReadOldSector(buf, first, first);
      }
      if !lastAligned && (first != last || firstAligned) {
        var _ := ReadOldSector(buf, first, last);
      }
      ghost var before := buf[..];
      Bcopy(source, buf, position - first * SectorSize);
      PreparedBuffer(d, h, first, last, before, buf[..], source, position);
    }

    /** The second half of WriteAt: write the modified sectors back. */
    method FlushBuffer(buf: array<byte>, first: nat, last: nat)
      requires Valid() && first <= last < hdr.numSectors
      requires buf.Length == (last + 1 - first) * SectorSize
      modifies disk.sectors
      ensures Flushed(old(disk.Contents()), disk.Contents(), hdr.Value(), first, last + 1, buf[..])
    {
      ghost var d, h, bytes := disk.Contents(), hdr.Value(), buf[..];
      for i := first to last + 1
        invariant buf[..] == bytes
        invariant Flushed(d, disk.Contents(), h, first, i, bytes)
      {
        ghost var e := disk.Contents();
        disk.WriteSector(hdr.ByteToSector(i * SectorSize), buf, (i - first) * SectorSize);
        FlushStep(d, e, h, first, i, bytes);
      }
    }

    /** Overwrites up to `numBytes` bytes of the file from `position` on by those of `source`. */
    method WriteAt(source: seq<byte>, numBytes: int, position: nat) returns (n: nat)
      requires Valid()
      requires Clipped(numBytes, position, hdr.numBytes) <= |source|
      modifies disk.sectors
      ensures n == Clipped(numBytes, position, hdr.numBytes)
      ensures n == 0 ==> disk.Contents() == old(disk.Contents())
      ensures n > 0 ==> Bytes() == Splice(old(Bytes()), position, source[..n])
      ensures forall s :: 0 <= s < NumSectors && s !in DataSectors(hdr.Value()) ==> disk.Contents()[s] == old(disk.Contents())[s]
    {
      var fileLength := hdr.FileLength();
      if numBytes <= 0 || position >= fileLength {
        return 0;
      }
      n := if position + numBytes > fileLength then fileLength - position else numBytes;
      var firstSector := position / SectorSize;
      var lastSector := (position + n - 1) / SectorSize;
      SectorRange(fileLength, position, n);
      var buf := PrepareBuffer(source[..n], firstSector, lastSector, position);
      FlushBuffer(buf, firstSector, lastSector);
      FlushEffect(old(disk.Contents()), disk.Contents(), hdr.Value(), firstSector, lastSector, buf[..], source[..n], position);
    }

    /** Reads on from the current position, and moves it past what was read. */
    method Read(into: array<byte>, numBytes: int) returns (n: nat)
      requires Valid()
      requires Clipped(numBytes, seekPosition, hdr.numBytes) <= into.Length
      modifies this, into
      ensures Valid() && n == Clipped(numBytes, old(seekPosition), hdr.numBytes)
      ensures n == 0 ==> into[..] == old(into[..])
      ensures n > 0 ==> into[..] == Splice(old(into[..]), 0, old(Bytes())[old(seekPosition)..old(seekPosition) + n])
      ensures seekPosition == old(seekPosition) + n
    {
      n := ReadAt(into, 0, numBytes, seekPosition);
      seekPosition := seekPosition + n;
    }

    /** Writes on from the current position, and moves it past what was written. */
    method Write(source: seq<byte>, numBytes: int) returns (n: nat)
      requires Valid()
      requires Clipped(numBytes, seekPosition, hdr.numBytes) <= |source|
      modifies this, disk.sectors
      ensures Valid() && n == Clipped(numBytes, old(seekPosition), hdr.numBytes)
      ensures n == 0 ==> disk.Contents() == old(disk.Contents())
      ensures n > 0 ==> Bytes() == Splice(old(Bytes()), old(seekPosition), source[..n])
      ensures forall s :: 0 <= s < NumSectors && s !in DataSectors(hdr.Value()) ==> disk.Contents()[s] == old(disk.Contents())[s]
      ensures seekPosition == old(seekPosition) + n
    {
      n := WriteAt(source, numBytes, seekPosition);
      seekPosition := seekPosition + n;
    }
  }
}
