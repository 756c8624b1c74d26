/** The file system: formatting, Create, Open and Remove over the bitmap and directory files. */
module FileSystems {
  import opened Bytes
  import opened SectorDisks
  import opened BitMaps
  import BitMapFiles
  import opened FileHeaders
  import opened OpenFiles
  import opened Directories
  import opened DiskLayout
  import opened DiskSteps
  import opened DiskUsage

  // ---------------------------------------------------------------- the writes of one operation

  /** `d` becomes `e` by a write of the file with header `h`. */
  ghost predicate Rewrites(d: Image, e: Image, h: Header)
    requires h.numSectors <= NumDirect
  {
    forall s :: 0 <= s < NumSectors && s !in DataSectors(h) ==> e[s] == d[s]
  }

  lemma KeptContent(d: Image, e: Image, g: Header, h: Header)
    requires ValidHeader(g) && ValidHeader(h) && DataSectors(g) !! DataSectors(h)
    requires Rewrites(d, e, h)
    ensures Content(e, g) == Content(d, g)
  {
    hide Content;
    forall s | s in DataSectors(g)
      ensures d[s] == e[s]
    {
    }
    ContentDependsOnDataSectors(d, e, g);
  }

  /** The new directory first, then the new bitmap, over a disk that differs from `d` in the sectors `extra`. */
  lemma TablesRewritten(d: Image, d1: Image, d2: Image, e: Image, extra: set<nat>)
    requires Consistent(d) && extra !! MarkedOn(d) && forall s :: s in extra ==> s < NumSectors
    requires forall s :: 0 <= s < NumSectors && s !in extra ==> d1[s] == d[s]
    requires Rewrites(d1, d2, HeaderAt(d, DirectorySector)) && Rewrites(d2, e, HeaderAt(d, FreeMapSector))
    ensures OnlyTables(d, e, extra) && SystemFiles(e)
    ensures Entries(e) == EntriesOf(Content(d2, HeaderAt(d, DirectorySector)))
    ensures MarkedOn(e) == BitMapFiles.MarksOf(Content(e, HeaderAt(d, FreeMapSector)))
    ensures forall s :: s in extra ==> e[s] == d1[s]
  {
    hide EntriesOf, BitMapFiles.MarksOf, DecodeHeader, Content, KeyOf;
    TablesStay(d, e, extra);
    Separate(d, 0, 1);
    KeptContent(d2, e, HeaderAt(d, DirectorySector), HeaderAt(d, FreeMapSector));
    forall s | s in extra
      ensures s !in SystemData(d)
    {
      if s in SystemData(d) {
        SystemDataOwners(d, s);
        GroupIsMarked(d, if s in Group(d, 0) then 0 else 1, s);
      }
    }
  }

  /** The new bitmap first, then the new directory. */
  lemma TablesRewrittenBack(d: Image, d2: Image, e: Image)
    requires Consistent(d)
    requires Rewrites(d, d2, HeaderAt(d, FreeMapSector)) && Rewrites(d2, e, HeaderAt(d, DirectorySector))
    ensures OnlyTables(d, e, {}) && SystemFiles(e)
    ensures Entries(e) == EntriesOf(Content(e, HeaderAt(d, DirectorySector)))
    ensures MarkedOn(e) == BitMapFiles.MarksOf(Content(d2, HeaderAt(d, FreeMapSector)))
  {
    hide EntriesOf, BitMapFiles.MarksOf, DecodeHeader, Content, KeyOf;
    TablesStay(d, e, {});
    Separate(d, 0, 1);
    KeptContent(d2, e, HeaderAt(d, FreeMapSector), HeaderAt(d, DirectorySector));
  }

  /** `h` is the header, as it is on disk, of the file that `key` names. */
  ghost predicate IsHandle(d: Image, h: Header, key: Key)
    requires ListedFiles(d)
  {
    var i := Slot(Entries(d), key);
    i != -1 && h == HeaderAt(d, Entries(d)[i].sector)
  }

  lemma HandleContent(d: Image, h: Header, key: Key)
    requires ListedFiles(d) && IsHandle(d, h, key)
    ensures ValidHeader(h) && key in View(d) && View(d)[key] == Content(d, h)
  {
    hide EntriesOf, DecodeHeader, Content, KeyOf, View;
    ViewAt(d, key);
  }

  lemma FreeSlotExists(d: Image)
    requires SystemFiles(d)
    ensures FreeSlot(Entries(d)) != -1 <==> HasFreeSlot(d)
  {
    hide EntriesOf, DecodeHeader;
  }

  /** What a file owns is marked: the assertion in Deallocate cannot fail. */
  lemma ListedIsMarked(d: Image, i: nat)
    requires Consistent(d) && i < NumDirEntries && Entries(d)[i].inUse
    ensures Blocks(d, Entries(d)[i].sector) <= MarkedOn(d)
  {
    hide EntriesOf, BitMapFiles.MarksOf, DecodeHeader, Content, KeyOf;
    forall s | s in Blocks(d, Entries(d)[i].sector)
      ensures s in MarkedOn(d)
    {
      assert s in Group(d, i + 2);
      GroupIsMarked(d, i + 2, s);
    }
  }

  /** A file called `name` of `size` bytes has been added, in some slot and on some sectors. */
  ghost predicate NewFile(d: Image, e: Image, name: seq<byte>, size: nat)
    requires Consistent(d)
  {
    exists i, s, h :: FileAdded(d, e, name, i, s, h) && h.numBytes == size
  }

  // ---------------------------------------------------------------- formatting

  ghost predicate NoneInUse(t: seq<DirectoryEntry>) {
    forall i :: 0 <= i < |t| ==> !t[i].inUse
  }

  /** The disk `e` holds the two system files and nothing else. */
  ghost predicate Formatted(e: Image, mapHdr: Header, dirHdr: Header) {
    && ValidHeader(mapHdr) && mapHdr.numBytes == FreeMapFileSize && HeaderAt(e, FreeMapSector) == mapHdr
    && ValidHeader(dirHdr) && dirHdr.numBytes == DirectoryFileSize && HeaderAt(e, DirectorySector) == dirHdr
    && {FreeMapSector, DirectorySector} !! DataSectors(mapHdr)
    && {FreeMapSector, DirectorySector} + DataSectors(mapHdr) !! DataSectors(dirHdr)
    && BitMapFiles.MarksOf(Content(e, mapHdr)) == {FreeMapSector, DirectorySector} + DataSectors(mapHdr) + DataSectors(dirHdr)
    && NoneInUse(EntriesOf(Content(e, dirHdr)))
  }

  lemma {:induction false} UnionOfTwo(gs: seq<set<nat>>)
    requires |gs| >= 2 && forall g :: 2 <= g < |gs| ==> gs[g] == {}
    requires gs[0] !! gs[1]
    ensures Union(gs) == gs[0] + gs[1] && Disjoint(gs)
  {
    var front := gs[..|gs| - 1];
    if |gs| > 2 {
      UnionOfTwo(front);
    } else {
      assert front[..|front| - 1] == [];
      assert Union(front) == gs[0];
    }
  }

  /** A formatted disk is consistent and lists no file. */
  lemma FormattedDisk(e: Image, mapHdr: Header, dirHdr: Header)
    requires Formatted(e, mapHdr, dirHdr)
    ensures Consistent(e) && View(e) == map[]
  {
    hide EntriesOf, BitMapFiles.MarksOf, DecodeHeader, Content, KeyOf, Union, Disjoint;
    assert ListedFiles(e);
    UnionOfTwo(Groups(e));
    assert Names(Entries(e)) == {};
  }

  /** What the four writes of formatting leave on the disk. */
  lemma FormatWrites(d2: Image, d3: Image, e: Image, mapHdr: Header, dirHdr: Header)
    requires ValidHeader(mapHdr) && mapHdr.numBytes == FreeMapFileSize
    requires ValidHeader(dirHdr) && dirHdr.numBytes == DirectoryFileSize
    requires {FreeMapSector, DirectorySector} !! DataSectors(mapHdr)
    requires {FreeMapSector, DirectorySector} + DataSectors(mapHdr) !! DataSectors(dirHdr)
    requires HeaderAt(d2, FreeMapSector) == mapHdr && HeaderAt(d2, DirectorySector) == dirHdr
    requires Rewrites(d2, d3, mapHdr) && Rewrites(d3, e, dirHdr)
    requires BitMapFiles.MarksOf(Content(d3, mapHdr)) == {FreeMapSector, DirectorySector} + DataSectors(mapHdr) + DataSectors(dirHdr)
    requires NoneInUse(EntriesOf(Content(e, dirHdr)))
    ensures Formatted(e, mapHdr, dirHdr)
  {
    hide EntriesOf, BitMapFiles.MarksOf, DecodeHeader, Content;
    KeptContent(d3, e, mapHdr, dirHdr);
  }

  /** Allocating the two system files on an empty bitmap. */
  method AllocateSystemFiles() returns (freeMap: BitMap, mapHdr: FileHeader, dirHdr: FileHeader)
    ensures fresh(freeMap) && fresh(freeMap.words) && fresh(mapHdr) && fresh(dirHdr) && mapHdr != dirHdr
    ensures freeMap.Valid() && freeMap.numBits == NumSectors && freeMap.numWords == NumSectors / BitsInWord
    ensures mapHdr.Valid() && ValidHeader(mapHdr.Value()) && mapHdr.numBytes == FreeMapFileSize
    ensures dirHdr.Valid() && ValidHeader(dirHdr.Value()) && dirHdr.numBytes == DirectoryFileSize
    ensures {FreeMapSector, DirectorySector} !! DataSectors(mapHdr.Value())
    ensures {FreeMapSector, DirectorySector} + DataSectors(mapHdr.Value()) !! DataSectors(dirHdr.Value())
    ensures freeMap.Marked() == {FreeMapSector, DirectorySector} + DataSectors(mapHdr.Value()) + DataSectors(dirHdr.Value())
  {
    hide Marks, Sectors;
    freeMap := new BitMap(NumSectors);
    mapHdr := new FileHeader();
    dirHdr := new FileHeader();
    freeMap.Mark(FreeMapSector);
    freeMap.Mark(DirectorySector);
    var ok := mapHdr.Allocate(freeMap, FreeMapFileSize);
    assert ok;
    ghost var h := mapHdr.Value();
    OneSector(h);
    ok := dirHdr.Allocate(freeMap, DirectoryFileSize);
    assert ok;
  }

  lemma OneSector(h: Header)
    requires ValidHeader(h) && h.numBytes == FreeMapFileSize
    ensures |DataSectors(h)| == 1
  {
    SectorCount(h, 1);
  }

  method FormatDisk(disk: SectorDisk) returns (freeMapFile: OpenFile, directoryFile: OpenFile)
    requires disk.Valid()
    modifies disk.sectors
    ensures Consistent(disk.Contents()) && View(disk.Contents()) == map[]
    ensures freeMapFile.Valid() && freeMapFile.disk == disk && fresh(freeMapFile) && fresh(freeMapFile.hdr)
    ensures directoryFile.Valid() && directoryFile.disk == disk && fresh(directoryFile) && fresh(directoryFile.hdr)
    ensures freeMapFile.hdr.Value() == HeaderAt(disk.Contents(), FreeMapSector)
    ensures directoryFile.hdr.Value() == HeaderAt(disk.Contents(), DirectorySector)
  {
    hide EntriesOf, BitMapFiles.MarksOf, DecodeHeader, EncodeHeader, Content, KeyOf, Consistent, View, ListedFiles, NoneInUse;
    hide Marks, Sectors;
    var freeMap, mapHdr, dirHdr := AllocateSystemFiles();
    ghost var h, g := mapHdr.Value(), dirHdr.Value();
    WriteSystemHeaders(disk, mapHdr, dirHdr);
    ghost var d2 := disk.Contents();
    freeMapFile := new OpenFile(disk, FreeMapSector);
    directoryFile := new OpenFile(disk, DirectorySector);
    BitMapFiles.WriteBack(freeMap, freeMapFile);
    ghost var d3 := disk.Contents();
    WriteEmptyDirectory(directoryFile);
    ghost var e := disk.Contents();
    FormatWrites(d2, d3, e, h, g);
    FormattedDisk(e, h, g);
  }

  method WriteSystemHeaders(disk: SectorDisk, mapHdr: FileHeader, dirHdr: FileHeader)
    requires disk.Valid() && mapHdr.Valid() && dirHdr.Valid()
    modifies disk.sectors
    ensures HeaderAt(disk.Contents(), FreeMapSector) == mapHdr.Value()
    ensures HeaderAt(disk.Contents(), DirectorySector) == dirHdr.Value()
  {
    hide DecodeHeader, EncodeHeader;
    mapHdr.WriteBack(disk, FreeMapSector);
    dirHdr.WriteBack(disk, DirectorySector);
    HeaderRoundTrip(mapHdr.Value());
    HeaderRoundTrip(dirHdr.Value());
  }

  method WriteEmptyDirectory(directoryFile: OpenFile)
    requires directoryFile.Valid() && directoryFile.hdr.numBytes == DirectoryFileSize
    modifies directoryFile.disk.sectors
    ensures NoneInUse(EntriesOf(directoryFile.Bytes()))
    ensures Rewrites(old(directoryFile.disk.Contents()), directoryFile.disk.Contents(), directoryFile.hdr.Value())
  {
    hide EntriesOf, Content;
    var directory := new Directory(NumDirEntries);
    directory.WriteBack(directoryFile);
  }

  // ---------------------------------------------------------------- the class

  class FileSystem {
    const disk: SectorDisk
    const freeMapFile: OpenFile
    const directoryFile: OpenFile

    /** The disk is consistent and the two files that stay open agree with their headers on disk. */
    ghost predicate Valid()
      reads this, disk, disk.sectors, freeMapFile, freeMapFile.disk, freeMapFile.hdr
      reads directoryFile, directoryFile.disk, directoryFile.hdr
    {
      && disk.Valid() && freeMapFile.disk == disk && directoryFile.disk == disk
      && freeMapFile.Valid() && directoryFile.Valid()
      && Consistent(disk.Contents())
      && freeMapFile.hdr.Value() == HeaderAt(disk.Contents(), FreeMapSector)
      && directoryFile.hdr.Value() == HeaderAt(disk.Contents(), DirectorySector)
    }

    /** Reopens a file system that is on the disk already. */
    constructor Mount(disk: SectorDisk)
      requires disk.Valid() && Consistent(disk.Contents())
      ensures Valid() && this.disk == disk
    {
      hide EntriesOf, BitMapFiles.MarksOf, DecodeHeader, Content, KeyOf, Groups, Union, Disjoint, DistinctKeys, View;
      var f := new OpenFile(disk, FreeMapSector);
      var g := new OpenFile(disk, DirectorySector);
      this.disk := disk;
      freeMapFile, directoryFile := f, g;
    }

    /** Puts an empty file system on a disk that may hold anything. */
    constructor Format(disk: SectorDisk)
      requires disk.Valid()
      modifies disk.sectors
      ensures Valid() && this.disk == disk
      ensures View(disk.Contents()) == map[]
    {
      hide EntriesOf, BitMapFiles.MarksOf, DecodeHeader, Content, KeyOf, Groups, Union, Disjoint, DistinctKeys, View;
      var f, g := FormatDisk(disk);
      this.disk := disk;
      freeMapFile, directoryFile := f, g;
    }

    method FetchDirectory() returns (directory: Directory)
      requires Valid()
      ensures fresh(directory) && fresh(directory.table) && directory.Valid() && directory.tableSize == NumDirEntries
      ensures directory.table[..] == Entries(disk.Contents())
    {
      directory := new Directory(NumDirEntries);
      directory.FetchFrom(directoryFile);
    }

    method FetchFreeMap() returns (freeMap: BitMap)
      requires Valid()
      ensures fresh(freeMap) && fresh(freeMap.words) && freeMap.Valid()
      ensures freeMap.numBits == NumSectors && freeMap.numWords == NumSectors / BitsInWord
      ensures freeMap.Marked() == MarkedOn(disk.Contents())
    {
      hide EntriesOf, BitMapFiles.MarksOf, DecodeHeader, Content, KeyOf, Groups, Union, Disjoint, DistinctKeys;
      freeMap := new BitMap(NumSectors);
      BitMapFiles.FetchFrom(freeMap, freeMapFile);
    }

    method Create(name: seq<byte>, initialSize: nat) returns (success: bool)
      requires Valid() && initialSize <= MaxFileSize
      modifies disk.sectors
      ensures Valid()
      ensures success <==> KeyOf(name) !in View(old(disk.Contents())) && |View(old(disk.Contents()))| < NumDirEntries
      ensures success <==> !IsListed(old(disk.Contents()), name) && HasFreeSlot(old(disk.Contents()))
      ensures !success ==> disk.Contents() == old(disk.Contents())
      ensures success ==> NewFile(old(disk.Contents()), disk.Contents(), name, initialSize)
    {
      hide EntriesOf, BitMapFiles.MarksOf, DecodeHeader, Content, KeyOf, Groups, Union, Disjoint, DistinctKeys, SameName, IsListed, View, NewFile, FreeSlot;
      ghost var d := disk.Contents();
      var directory := FetchDirectory();
      var sector := directory.Find(name);
      ViewAt(d, KeyOf(name));
      FullDirectory(d);
      ListedByName(d, name);
      FreeSlotExists(d);
      if sector != -1 {
        success := false;
      } else {
        success := AddFile(name, initialSize, directory);
      }
    }

    /** The branch of Create for a name that is not in the directory. */
    method AddFile(name: seq<byte>, initialSize: nat, directory: Directory) returns (success: bool)
      requires Valid() && initialSize <= MaxFileSize
      requires directory.Valid() && directory.tableSize == NumDirEntries && directory.table[..] == Entries(disk.Contents())
      requires Slot(Entries(disk.Contents()), KeyOf(name)) == -1
      modifies disk.sectors, directory.table
      ensures Valid()
      ensures success <==> FreeSlot(Entries(old(disk.Contents()))) != -1
      ensures !success ==> disk.Contents() == old(disk.Contents())
      ensures success ==> NewFile(old(disk.Contents()), disk.Contents(), name, initialSize)
    {
      hide EntriesOf, BitMapFiles.MarksOf, DecodeHeader, Content, KeyOf, Groups, Union, Disjoint, DistinctKeys, View, FreeSlot, Slot;
      hide FileAdded, FilledIn, ValidHeader, Sectors, Marks, Entries, MarkedOn, ListedFiles;
      ghost var d := disk.Contents();
      SpaceIsNeverTheLimit(d, initialSize);
      var freeMap := FetchFreeMap();
      var sector := freeMap.Find();
      if sector == -1 {
        return false;
      }
      var added := directory.Add(name, sector);
      if !added {
        return false;
      }
      var hdr := new FileHeader();
      var enough := hdr.Allocate(freeMap, initialSize);
      if !enough {
        return false;
      }
      FlushNewFile(name, sector, hdr, directory, freeMap);
      return true;
    }

    /** The end of Create: everything worked, all changes go back to the disk. */
    method FlushNewFile(name: seq<byte>, sector: nat, hdr: FileHeader, directory: Directory, freeMap: BitMap)
      requires Valid() && hdr.Valid() && directory.Valid() && freeMap.Valid()
      requires directory.tableSize == NumDirEntries && freeMap.numBits == NumSectors && freeMap.numWords == NumSectors / BitsInWord
      requires ValidHeader(hdr.Value()) && sector < NumSectors && sector !in DataSectors(hdr.Value())
      requires {sector} + DataSectors(hdr.Value()) !! MarkedOn(disk.Contents())
      requires freeMap.Marked() == MarkedOn(disk.Contents()) + {sector} + DataSectors(hdr.Value())
      requires var t := Entries(disk.Contents()); var i := FreeSlot(t);
               Slot(t, KeyOf(name)) == -1 && i != -1 && directory.table[..] == t[i := FilledIn(t[i], name, sector)]
      modifies disk.sectors
      ensures Valid()
      ensures FileAdded(old(disk.Contents()), disk.Contents(), name, FreeSlot(Entries(old(disk.Contents()))), sector, hdr.Value())
    {
      hide EntriesOf, BitMapFiles.MarksOf, DecodeHeader, EncodeHeader, Content, KeyOf, Groups, Union, Disjoint, DistinctKeys;
      ghost var d, h := disk.Contents(), hdr.Value();
      hdr.WriteBack(disk, sector);
      ghost var d1 := disk.Contents();
      directory.WriteBack(directoryFile);
      ghost var d2 := disk.Contents();
      BitMapFiles.WriteBack(freeMap, freeMapFile);
      ghost var e := disk.Contents();
      TablesRewritten(d, d1, d2, e, {sector});
      HeaderRoundTrip(h);
      TablesStay(d, e, {sector});
      AddedConsistent(d, e, name, FreeSlot(Entries(d)), sector, h);
    }

    /** A fresh handle on the named file, or null when the directory does not list it. */
    method Open(name: seq<byte>) returns (file: OpenFile?)
      requires Valid()
      ensures file == null <==> KeyOf(name) !in View(disk.Contents())
      ensures file == null <==> !IsListed(disk.Contents(), name)
      ensures file != null ==>
                && fresh(file) && fresh(file.hdr) && file.Valid() && file.disk == disk && file.seekPosition == 0
                && IsHandle(disk.Contents(), file.hdr.Value(), KeyOf(name))
    {
      hide EntriesOf, BitMapFiles.MarksOf, DecodeHeader, Content, KeyOf, Groups, Union, Disjoint, DistinctKeys, SameName, IsListed, View;
      var directory := FetchDirectory();
      var sector := directory.Find(name);
      ViewAt(disk.Contents(), KeyOf(name));
      ListedByName(disk.Contents(), name);
      file := null;
      if sector >= 0 {
        file := new OpenFile(disk, sector);
      }
    }

    method Remove(name: seq<byte>) returns (success: bool)
      requires Valid()
      modifies disk.sectors
      ensures Valid()
      ensures success <==> KeyOf(name) in View(old(disk.Contents()))
      ensures success <==> IsListed(old(disk.Contents()), name)
      ensures !success ==> disk.Contents() == old(disk.Contents())
      ensures success ==> FileDropped(old(disk.Contents()), disk.Contents(), Slot(Entries(old(disk.Contents())), KeyOf(name)))
    {
      hide EntriesOf, BitMapFiles.MarksOf, DecodeHeader, Content, KeyOf, Groups, Union, Disjoint, DistinctKeys, SameName, IsListed, View, FileDropped;
      var directory := FetchDirectory();
      var sector := directory.Find(name);
      ViewAt(disk.Contents(), KeyOf(name));
      ListedByName(disk.Contents(), name);
      if sector == -1 {
        success := false;
      } else {
        DropFile(name, sector, directory);
        success := true;
      }
    }

    /** The rest of Remove, for a name that the directory lists. */
    method DropFile(name: seq<byte>, sector: nat, directory: Directory)
      requires Valid()
      requires directory.Valid() && directory.tableSize == NumDirEntries && directory.table[..] == Entries(disk.Contents())
      requires var t := Entries(disk.Contents()); var i := Slot(t, KeyOf(name)); i != -1 && sector == t[i].sector
      modifies disk.sectors, directory.table
      ensures Valid()
      ensures FileDropped(old(disk.Contents()), disk.Contents(), Slot(Entries(old(disk.Contents())), KeyOf(name)))
    {
      hide EntriesOf, BitMapFiles.MarksOf, DecodeHeader, Content, KeyOf, Groups, Union, Disjoint, DistinctKeys, View, Slot, Sectors, Marks;
      ghost var d, i := disk.Contents(), Slot(Entries(disk.Contents()), KeyOf(name));
      var fileHdr := new FileHeader();
      fileHdr.FetchFrom(disk, sector);
      var freeMap := FetchFreeMap();
      ListedIsMarked(d, i);
      fileHdr.Deallocate(freeMap);
      freeMap.Clear(sector);
      var _ := directory.Remove(name);
      FlushDropped(i, directory, freeMap);
    }

    /** The end of Remove: bitmap and directory go back to the disk. */
    method FlushDropped(ghost i: nat, directory: Directory, freeMap: BitMap)
      requires Valid() && directory.Valid() && freeMap.Valid()
      requires directory.tableSize == NumDirEntries && freeMap.numBits == NumSectors && freeMap.numWords == NumSectors / BitsInWord
      requires i < NumDirEntries && Entries(disk.Contents())[i].inUse
      requires directory.table[..] == Entries(disk.Contents())[i := Entries(disk.Contents())[i].(inUse := false)]
      requires freeMap.Marked() == MarkedOn(disk.Contents()) - Blocks(disk.Contents(), Entries(disk.Contents())[i].sector)
      modifies disk.sectors
      ensures Valid() && FileDropped(old(disk.Contents()), disk.Contents(), i)
    {
      hide EntriesOf, BitMapFiles.MarksOf, DecodeHeader, Content, KeyOf, Groups, Union, Disjoint, DistinctKeys, View, Slot, Sectors, Marks;
      ghost var d := disk.Contents();
      BitMapFiles.WriteBack(freeMap, freeMapFile);
      ghost var d2 := disk.Contents();
      directory.WriteBack(directoryFile);
      ghost var e := disk.Contents();
      TablesRewrittenBack(d, d2, e);
      TablesStay(d, e, {});
      DroppedConsistent(d, e, i);
    }
  }
}
