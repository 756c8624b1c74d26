/** What a consistent disk looks like, and the map from names to contents that it stands for. */
module DiskLayout {
  import opened Bytes
  import opened SectorDisks
  import opened BitMaps
  import opened BitMapFiles
  import opened FileHeaders
  import opened OpenFiles
  import opened Directories

  const FreeMapSector := 0
  const DirectorySector := 1
  const FreeMapFileSize := NumSectors / 8
  const NumDirEntries := 10
  const DirectoryFileSize := EntrySize * NumDirEntries

  // ---------------------------------------------------------------- accounting for sectors

  ghost predicate Disjoint(gs: seq<set<nat>>) {
    forall i, j :: 0 <= i < j < |gs| ==> gs[i] !! gs[j]
  }

  ghost function Union(gs: seq<set<nat>>): set<nat> {
    if |gs| == 0 then {} else Union(gs[..|gs| - 1]) + gs[|gs| - 1]
  }

  ghost function TotalSize(gs: seq<set<nat>>): nat {
    if |gs| == 0 then 0 else TotalSize(gs[..|gs| - 1]) + |gs[|gs| - 1]|
  }

  lemma {:induction false} InUnion(gs: seq<set<nat>>, s: nat)
    ensures s in Union(gs) <==> exists g :: 0 <= g < |gs| && s in gs[g]
  {
    if |gs| > 0 {
      var front := gs[..|gs| - 1];
      InUnion(front, s);
      if s in Union(front) {
        var g :| 0 <= g < |front| && s in front[g];
        assert s in gs[g];
      }
      if g :| 0 <= g < |gs| && s in gs[g] {
        assert g < |front| ==> s in front[g];
      }
    }
  }

  /** Disjoint groups of sectors add up. */
  lemma {:induction false} UnionSize(gs: seq<set<nat>>)
    requires Disjoint(gs)
    ensures |Union(gs)| == TotalSize(gs)
  {
    if |gs| > 0 {
      var front, last := gs[..|gs| - 1], gs[|gs| - 1];
      UnionSize(front);
      forall s | s in Union(front)
        ensures s !in last
      {
        InUnion(front, s);
        var g :| 0 <= g < |front| && s in front[g];
        assert gs[g] !! last;
      }
    }
  }

  /** Replacing one group replaces its part of the union. */
  lemma UnionUpdate(gs: seq<set<nat>>, g: nat, replacement: set<nat>)
    requires g < |gs| && Disjoint(gs) && replacement !! Union(gs) - gs[g]
    ensures Disjoint(gs[g := replacement])
    ensures Union(gs[g := replacement]) == Union(gs) - gs[g] + replacement
  {
    var hs := gs[g := replacement];
    forall i | 0 <= i < |gs| && i != g
      ensures gs[i] !! replacement && gs[i] !! gs[g]
    {
      assert i < g ==> gs[i] !! gs[g];
      forall s | s in gs[i]
        ensures s !in replacement
      {
        InUnion(gs, s);
        assert i > g ==> gs[g] !! gs[i];
      }
    }
    forall s
      ensures s in Union(hs) <==> s in Union(gs) - gs[g] + replacement
    {
      InUnion(hs, s);
      InUnion(gs, s);
      if i :| 0 <= i < |hs| && s in hs[i] {
        assert i != g ==> s in gs[i];
      }
      if i :| 0 <= i < |gs| && s in gs[i] {
        assert i != g ==> s in hs[i];
      }
      assert s in replacement ==> s in hs[g];
    }
  }

  // ---------------------------------------------------------------- files on the disk

  function HeaderAt(d: Image, s: nat): Header
    requires s < NumSectors
  {
    DecodeHeader(d[s])
  }

  ghost predicate GoodFile(d: Image, s: nat) {
    s < NumSectors && ValidHeader(HeaderAt(d, s)) && s !in DataSectors(HeaderAt(d, s))
  }

  /** The header sector and the data sectors of a file. */
  ghost function Blocks(d: Image, s: nat): (b: set<nat>)
    requires GoodFile(d, s)
    ensures forall x :: x in b ==> x < NumSectors
  {
    {s} + DataSectors(HeaderAt(d, s))
  }

  ghost function FileAt(d: Image, s: nat): seq<byte>
    requires GoodFile(d, s)
  {
    Content(d, HeaderAt(d, s))
  }

  /** A file depends on its own sectors only. */
  lemma UntouchedFile(d: Image, e: Image, s: nat)
    requires GoodFile(d, s)
    requires forall x :: x in Blocks(d, s) ==> d[x] == e[x]
    ensures GoodFile(e, s) && HeaderAt(e, s) == HeaderAt(d, s)
    ensures Blocks(e, s) == Blocks(d, s) && FileAt(e, s) == FileAt(d, s)
  {
    assert s in Blocks(d, s);
    ContentDependsOnDataSectors(d, e, HeaderAt(d, s));
  }

  ghost predicate SystemFiles(d: Image) {
    && GoodFile(d, FreeMapSector) && HeaderAt(d, FreeMapSector).numBytes == FreeMapFileSize
    && GoodFile(d, DirectorySector) && HeaderAt(d, DirectorySector).numBytes == DirectoryFileSize
  }

  ghost function Entries(d: Image): (t: seq<DirectoryEntry>)
    requires SystemFiles(d)
    ensures |t| == NumDirEntries
  {
    EntriesOf(FileAt(d, DirectorySector))
  }

  /** The sectors that the bitmap on the disk marks as taken. */
  ghost function MarkedOn(d: Image): set<nat>
    requires SystemFiles(d)
  {
    MarksOf(FileAt(d, FreeMapSector))
  }

  ghost predicate ListedFiles(d: Image) {
    && SystemFiles(d)
    && forall i :: 0 <= i < NumDirEntries && Entries(d)[i].inUse ==> GoodFile(d, Entries(d)[i].sector)
  }

  /** The sectors owned by the bitmap file, the directory file, and by each slot of the directory. */
  ghost function Group(d: Image, g: nat): (b: set<nat>)
    requires ListedFiles(d) && g < NumDirEntries + 2
    ensures forall x :: x in b ==> x < NumSectors
  {
    if g < 2 then Blocks(d, g)
    else if Entries(d)[g - 2].inUse then Blocks(d, Entries(d)[g - 2].sector)
    else {}
  }

  ghost function Groups(d: Image): (gs: seq<set<nat>>)
    requires ListedFiles(d)
    ensures |gs| == NumDirEntries + 2
  {
    seq(NumDirEntries + 2, g requires 0 <= g < NumDirEntries + 2 => Group(d, g))
  }

  ghost predicate DistinctKeys(t: seq<DirectoryEntry>) {
    forall i, j :: 0 <= i < j < |t| && t[i].inUse && t[j].inUse ==> KeyOf(t[i].name) != KeyOf(t[j].name)
  }

  /** The bitmap marks exactly the sectors in use, no sector is used twice, and no name is listed twice. */
  ghost predicate Consistent(d: Image) {
    && ListedFiles(d)
    && Disjoint(Groups(d))
    && MarkedOn(d) == Union(Groups(d))
    && DistinctKeys(Entries(d))
  }

  // ---------------------------------------------------------------- the abstract file system

  ghost function Names(t: seq<DirectoryEntry>): set<Key> {
    set i: nat | i < |t| && t[i].inUse :: KeyOf(t[i].name)
  }

  lemma NameHasSlot(t: seq<DirectoryEntry>, key: Key)
    ensures key in Names(t) <==> Slot(t, key) != -1
  {
    var i := Slot(t, key);
    if i != -1 {
      assert KeyOf(t[i].name) in Names(t);
    }
  }

  lemma SlotUnique(t: seq<DirectoryEntry>, key: Key, i: nat)
    requires DistinctKeys(t) && i < |t| && Matches(t[i], key)
    ensures Slot(t, key) == i
  {
    var j := Slot(t, key);
    assert Matches(t[j], key);
  }

  /** The file system as its users see it: what each name holds. */
  ghost function View(d: Image): map<Key, seq<byte>>
    requires ListedFiles(d)
  {
    map key | key in Names(Entries(d)) :: Lookup(d, key)
  }

  ghost function Lookup(d: Image, key: Key): seq<byte>
    requires ListedFiles(d)
  {
    var i := Slot(Entries(d), key);
    if i == -1 then [] else FileAt(d, Entries(d)[i].sector)
  }

  lemma ViewAt(d: Image, key: Key)
    requires ListedFiles(d)
    ensures key in View(d) <==> Slot(Entries(d), key) != -1
    ensures key in View(d) ==> View(d)[key] == FileAt(d, Entries(d)[Slot(Entries(d), key)].sector)
  {
    NameHasSlot(Entries(d), key);
  }

  // ---------------------------------------------------------------- names

  /** Some entry in use has the name, as far as the directory can tell names apart. */
  ghost predicate IsListed(d: Image, name: seq<byte>)
    requires SystemFiles(d)
  {
    exists i :: 0 <= i < NumDirEntries && Entries(d)[i].inUse && SameName(Entries(d)[i].name, name)
  }

  ghost predicate HasFreeSlot(d: Image)
    requires SystemFiles(d)
  {
    exists i :: 0 <= i < NumDirEntries && !Entries(d)[i].inUse
  }

  /** The names that the file system has are the listed ones. */
  lemma ListedByName(d: Image, name: seq<byte>)
    requires ListedFiles(d)
    ensures KeyOf(name) in View(d) <==> IsListed(d, name)
  {
    hide EntriesOf, MarksOf, DecodeHeader, Content, KeyOf, SameName, View;
    ViewAt(d, KeyOf(name));
    var t := Entries(d);
    forall i | 0 <= i < NumDirEntries
      ensures Matches(t[i], KeyOf(name)) <==> t[i].inUse && SameName(t[i].name, name)
    {
      KeysTellApart(t[i].name, name);
    }
  }
}
