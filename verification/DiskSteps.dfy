/** How the disk may change, and what each change does to the file system that the disk stands for. */
module DiskSteps {
  import opened Bytes
  import opened SectorDisks
  import opened BitMapFiles
  import opened FileHeaders
  import opened OpenFiles
  import opened Directories
  import opened DiskLayout

  // ---------------------------------------------------------------- separation

  /** Two different groups of sectors have nothing in common. */
  lemma Separate(d: Image, g: nat, h: nat)
    requires Consistent(d) && g < NumDirEntries + 2 && h < NumDirEntries + 2 && g != h
    ensures Group(d, g) !! Group(d, h)
  {
    hide EntriesOf, MarksOf, DecodeHeader, Content, KeyOf;
    var gs := Groups(d);
    assert gs[g] == Group(d, g) && gs[h] == Group(d, h);
    assert g < h ==> gs[g] !! gs[h];
    assert h < g ==> gs[h] !! gs[g];
  }

  lemma GroupIsMarked(d: Image, g: nat, s: nat)
    requires Consistent(d) && g < NumDirEntries + 2 && s in Group(d, g)
    ensures s in MarkedOn(d)
  {
    hide EntriesOf, MarksOf, DecodeHeader, Content, KeyOf;
    assert Groups(d)[g] == Group(d, g);
    InUnion(Groups(d), s);
  }

  /** The sectors of the two files that Create and Remove rewrite. */
  ghost function SystemData(d: Image): set<nat>
    requires SystemFiles(d)
  {
    DataSectors(HeaderAt(d, FreeMapSector)) + DataSectors(HeaderAt(d, DirectorySector))
  }

  lemma SystemDataOwners(d: Image, s: nat)
    requires Consistent(d) && s in SystemData(d)
    ensures s in Group(d, 0) || s in Group(d, 1)
    ensures s != FreeMapSector && s != DirectorySector
  {
    hide EntriesOf, MarksOf, DecodeHeader, Content, KeyOf;
    Separate(d, 0, 1);
    assert FreeMapSector in Group(d, 0) && DirectorySector in Group(d, 1);
  }

  /** Nothing but the contents of the bitmap and the directory, and sectors in `extra`, has changed. */
  ghost predicate OnlyTables(d: Image, e: Image, extra: set<nat>)
    requires SystemFiles(d)
  {
    forall s :: 0 <= s < NumSectors && s !in SystemData(d) && s !in extra ==> e[s] == d[s]
  }

  lemma TablesStay(d: Image, e: Image, extra: set<nat>)
    requires Consistent(d) && OnlyTables(d, e, extra)
    requires extra !! MarkedOn(d)
    ensures e[FreeMapSector] == d[FreeMapSector] && e[DirectorySector] == d[DirectorySector]
    ensures SystemFiles(e)
    ensures Blocks(e, FreeMapSector) == Blocks(d, FreeMapSector) && Blocks(e, DirectorySector) == Blocks(d, DirectorySector)
  {
    hide EntriesOf, MarksOf, DecodeHeader, Content, KeyOf;
    GroupIsMarked(d, 0, FreeMapSector);
    GroupIsMarked(d, 1, DirectorySector);
    if FreeMapSector in SystemData(d) {
      SystemDataOwners(d, FreeMapSector);
    }
    if DirectorySector in SystemData(d) {
      SystemDataOwners(d, DirectorySector);
    }
  }

  lemma ListedStays(d: Image, e: Image, extra: set<nat>, i: nat)
    requires Consistent(d) && OnlyTables(d, e, extra)
    requires extra !! MarkedOn(d)
    requires i < NumDirEntries && Entries(d)[i].inUse
    ensures var s := Entries(d)[i].sector;
            GoodFile(e, s) && HeaderAt(e, s) == HeaderAt(d, s) && Blocks(e, s) == Blocks(d, s) && FileAt(e, s) == FileAt(d, s)
  {
    hide EntriesOf, MarksOf, DecodeHeader, Content, KeyOf;
    var s := Entries(d)[i].sector;
    forall x | x in Blocks(d, s)
      ensures e[x] == d[x]
    {
      assert x in Group(d, i + 2);
      GroupIsMarked(d, i + 2, x);
      Separate(d, 0, i + 2);
      Separate(d, 1, i + 2);
      if x in SystemData(d) {
        SystemDataOwners(d, x);
      }
    }
    UntouchedFile(d, e, s);
  }

  lemma UpdatedMap<K(!new), V>(m: map<K, V>, n: map<K, V>, key: K, value: V)
    requires key in n && n[key] == value
    requires forall k :: k in n <==> k == key || k in m
    requires forall k :: k in m && k != key ==> n[k] == m[k]
    ensures n == m[key := value]
  {
  }

  lemma ShrunkMap<K(!new), V>(m: map<K, V>, n: map<K, V>, key: K)
    requires forall k :: k in n <==> k != key && k in m
    requires forall k :: k in n ==> n[k] == m[k]
    ensures n == m - {key}
  {
  }

  // ---------------------------------------------------------------- Create

  lemma NoSlot(t: seq<DirectoryEntry>, u: seq<DirectoryEntry>, i: nat, key: Key)
    requires |u| == |t| && i < |t| && Slot(t, key) == -1
    requires !Matches(u[i], key)
    requires forall j :: 0 <= j < |t| && j != i ==> u[j] == t[j]
    ensures Slot(u, key) == -1
  {
  }

  lemma FilledTable(t: seq<DirectoryEntry>, i: nat, f: DirectoryEntry)
    requires DistinctKeys(t) && i < |t| && !t[i].inUse && f.inUse && Slot(t, KeyOf(f.name)) == -1
    ensures DistinctKeys(t[i := f])
    ensures forall key :: Slot(t[i := f], key) == if key == KeyOf(f.name) then i else Slot(t, key)
  {
    hide EntriesOf, MarksOf, DecodeHeader, Content, KeyOf;
    var u, replacement := t[i := f], KeyOf(f.name);
    forall j | 0 <= j < |t| && t[j].inUse
      ensures KeyOf(t[j].name) != replacement
    {
      assert !Matches(t[j], replacement);
    }
    assert DistinctKeys(u);
    forall key
      ensures Slot(u, key) == if key == replacement then i else Slot(t, key)
    {
      if key == replacement {
        SlotUnique(u, key, i);
      } else if Slot(t, key) != -1 {
        SlotUnique(u, key, Slot(t, key));
      } else {
        NoSlot(t, u, i, key);
      }
    }
  }

  /** The disk `e` is the disk `d` after slot `i` has been given to a new file: its header `h` is in sector `s`,
      header and data sectors were free and are marked now, and the directory lists the name. */
  ghost predicate FileAdded(d: Image, e: Image, name: seq<byte>, i: nat, s: nat, h: Header)
    requires Consistent(d)
  {
    && i < NumDirEntries && !Entries(d)[i].inUse && Slot(Entries(d), KeyOf(name)) == -1
    && ValidHeader(h) && s < NumSectors && s !in DataSectors(h)
    && {s} + DataSectors(h) !! MarkedOn(d)
    && OnlyTables(d, e, {s})
    && SystemFiles(e)
    && HeaderAt(e, s) == h
    && Entries(e) == Entries(d)[i := FilledIn(Entries(d)[i], name, s)]
    && MarkedOn(e) == MarkedOn(d) + {s} + DataSectors(h)
  }

  lemma AddedLists(d: Image, e: Image, name: seq<byte>, i: nat, s: nat, h: Header)
    requires Consistent(d) && FileAdded(d, e, name, i, s, h)
    ensures ListedFiles(e)
    ensures Groups(e) == Groups(d)[i + 2 := {s} + DataSectors(h)]
  {
    hide EntriesOf, MarksOf, DecodeHeader, Content, KeyOf;
    TablesStay(d, e, {s});
    assert GoodFile(e, s);
    forall j | 0 <= j < NumDirEntries && j != i && Entries(d)[j].inUse
      ensures var x := Entries(d)[j].sector; GoodFile(e, x) && Blocks(e, x) == Blocks(d, x)
    {
      ListedStays(d, e, {s}, j);
    }
    forall g | 0 <= g < NumDirEntries + 2
      ensures Group(e, g) == Groups(d)[i + 2 := {s} + DataSectors(h)][g]
    {
      assert g >= 2 && g != i + 2 ==> Entries(e)[g - 2] == Entries(d)[g - 2];
    }
  }

  lemma AddedConsistent(d: Image, e: Image, name: seq<byte>, i: nat, s: nat, h: Header)
    requires Consistent(d) && FileAdded(d, e, name, i, s, h)
    ensures Consistent(e)
  {
    hide EntriesOf, MarksOf, DecodeHeader, Content, KeyOf;
    AddedLists(d, e, name, i, s, h);
    var gs, replacement := Groups(d), {s} + DataSectors(h);
    assert gs[i + 2] == {};
    UnionUpdate(gs, i + 2, replacement);
    var f := FilledIn(Entries(d)[i], name, s);
    FilledInKey(Entries(d)[i], name, s);
    FilledTable(Entries(d), i, f);
  }

  lemma AddedFile(d: Image, e: Image, name: seq<byte>, i: nat, s: nat, h: Header)
    requires Consistent(d) && FileAdded(d, e, name, i, s, h)
    ensures GoodFile(e, s) && FileAt(e, s) == Content(d, h)
  {
    hide EntriesOf, MarksOf, DecodeHeader, Content, KeyOf;
    forall x | x in DataSectors(h)
      ensures e[x] == d[x]
    {
      if x in SystemData(d) {
        SystemDataOwners(d, x);
        GroupIsMarked(d, if x in Group(d, 0) then 0 else 1, x);
      }
    }
    ContentDependsOnDataSectors(d, e, h);
  }

  lemma AddedKey(d: Image, e: Image, name: seq<byte>, i: nat, s: nat, h: Header, key: Key)
    requires Consistent(d) && FileAdded(d, e, name, i, s, h) && Consistent(e)
    ensures key in View(e) <==> key == KeyOf(name) || key in View(d)
    ensures key in View(e) ==> View(e)[key] == if key == KeyOf(name) then Content(d, h) else View(d)[key]
    ensures key == KeyOf(name) ==> key !in View(d)
  {
    hide EntriesOf, MarksOf, DecodeHeader, Content, KeyOf, View;
    ViewAt(d, key);
    ViewAt(e, key);
    FilledInKey(Entries(d)[i], name, s);
    FilledTable(Entries(d), i, FilledIn(Entries(d)[i], name, s));
    if key == KeyOf(name) {
      AddedFile(d, e, name, i, s, h);
    } else if key in View(d) {
      ListedStays(d, e, {s}, Slot(Entries(d), key));
    }
  }

  /** Adding a file adds its name, with whatever its sectors held before, and changes no other file. */
  lemma AddedView(d: Image, e: Image, name: seq<byte>, i: nat, s: nat, h: Header)
    requires Consistent(d) && FileAdded(d, e, name, i, s, h)
    ensures Consistent(e)
    ensures KeyOf(name) !in View(d)
    ensures View(e) == View(d)[KeyOf(name) := Content(d, h)]
  {
    hide EntriesOf, MarksOf, DecodeHeader, Content, KeyOf, View, Groups, Union, Disjoint, DistinctKeys;
    AddedConsistent(d, e, name, i, s, h);
    var m, n, replacement := View(d), View(e), KeyOf(name);
    AddedKey(d, e, name, i, s, h, replacement);
    forall key
      ensures key in n <==> key == replacement || key in m
      ensures key in m && key != replacement ==> n[key] == m[key]
    {
      AddedKey(d, e, name, i, s, h, key);
    }
    UpdatedMap(m, n, replacement, Content(d, h));
  }

  // ---------------------------------------------------------------- Remove

  lemma OnlyThere(t: seq<DirectoryEntry>, i: nat, key: Key)
    requires DistinctKeys(t) && i < |t| && Matches(t[i], key)
    ensures Slot(t[i := t[i].(inUse := false)], key) == -1
  {
    hide KeyOf;
    var u := t[i := t[i].(inUse := false)];
    forall j | 0 <= j < |t|
      ensures !Matches(u[j], key)
    {
      assert j < i ==> !Matches(t[j], key);
      assert i < j ==> !Matches(t[j], key);
    }
  }

  lemma DroppedEntry(t: seq<DirectoryEntry>, i: nat)
    requires DistinctKeys(t) && i < |t| && t[i].inUse
    ensures DistinctKeys(t[i := t[i].(inUse := false)])
    ensures forall key :: Slot(t[i := t[i].(inUse := false)], key) == if key == KeyOf(t[i].name) then -1 else Slot(t, key)
  {
    hide EntriesOf, MarksOf, DecodeHeader, Content, KeyOf;
    var u, gone := t[i := t[i].(inUse := false)], KeyOf(t[i].name);
    assert DistinctKeys(u);
    forall key
      ensures Slot(u, key) == if key == gone then -1 else Slot(t, key)
    {
      if key == gone {
        OnlyThere(t, i, key);
      } else if Slot(t, key) != -1 {
        SlotUnique(u, key, Slot(t, key));
      } else {
        NoSlot(t, u, i, key);
      }
    }
  }

  /** The disk `e` is the disk `d` after the file in slot `i` has been taken off the directory and its sectors
      have been set free. */
  ghost predicate FileDropped(d: Image, e: Image, i: nat)
    requires Consistent(d)
  {
    && i < NumDirEntries && Entries(d)[i].inUse
    && OnlyTables(d, e, {})
    && SystemFiles(e)
    && Entries(e) == Entries(d)[i := Entries(d)[i].(inUse := false)]
    && MarkedOn(e) == MarkedOn(d) - Blocks(d, Entries(d)[i].sector)
  }

  lemma DroppedLists(d: Image, e: Image, i: nat)
    requires Consistent(d) && FileDropped(d, e, i)
    ensures ListedFiles(e)
    ensures Groups(e) == Groups(d)[i + 2 := {}]
  {
    hide EntriesOf, MarksOf, DecodeHeader, Content, KeyOf;
    TablesStay(d, e, {});
    forall j | 0 <= j < NumDirEntries && Entries(d)[j].inUse
      ensures var x := Entries(d)[j].sector; GoodFile(e, x) && Blocks(e, x) == Blocks(d, x)
    {
      ListedStays(d, e, {}, j);
    }
    forall g | 0 <= g < NumDirEntries + 2
      ensures Group(e, g) == Groups(d)[i + 2 := {}][g]
    {
      assert g >= 2 && g != i + 2 ==> Entries(e)[g - 2] == Entries(d)[g - 2];
    }
  }

  lemma DroppedConsistent(d: Image, e: Image, i: nat)
    requires Consistent(d) && FileDropped(d, e, i)
    ensures Consistent(e)
  {
    hide EntriesOf, MarksOf, DecodeHeader, Content, KeyOf;
    DroppedLists(d, e, i);
    assert Groups(d)[i + 2] == Group(d, i + 2);
    UnionUpdate(Groups(d), i + 2, {});
    DroppedEntry(Entries(d), i);
  }

  lemma DroppedKey(d: Image, e: Image, i: nat, key: Key)
    requires Consistent(d) && FileDropped(d, e, i) && Consistent(e)
    ensures key in View(e) <==> key != KeyOf(Entries(d)[i].name) && key in View(d)
    ensures key in View(e) ==> View(e)[key] == View(d)[key]
  {
    hide EntriesOf, MarksOf, DecodeHeader, Content, KeyOf, View;
    ViewAt(d, key);
    ViewAt(e, key);
    DroppedEntry(Entries(d), i);
    if key in View(e) {
      ListedStays(d, e, {}, Slot(Entries(d), key));
    }
  }

  /** Dropping a file drops its name and changes no other file. */
  lemma DroppedView(d: Image, e: Image, i: nat)
    requires Consistent(d) && FileDropped(d, e, i)
    ensures Consistent(e)
    ensures View(e) == View(d) - {KeyOf(Entries(d)[i].name)}
  {
    hide EntriesOf, MarksOf, DecodeHeader, Content, KeyOf, View, Groups, Union, Disjoint, DistinctKeys;
    DroppedConsistent(d, e, i);
    var m, n, gone := View(d), View(e), KeyOf(Entries(d)[i].name);
    forall key
      ensures key in n <==> key != gone && key in m
      ensures key in n ==> n[key] == m[key]
    {
      DroppedKey(d, e, i, key);
    }
    ShrunkMap(m, n, gone);
  }

  // ---------------------------------------------------------------- WriteAt on a listed file

  /** The disk `e` is the disk `d` after a write to the file in slot `i`. */
  ghost predicate FileWritten(d: Image, e: Image, i: nat)
    requires Consistent(d)
  {
    && i < NumDirEntries && Entries(d)[i].inUse
    && forall x :: 0 <= x < NumSectors && x !in DataSectors(HeaderAt(d, Entries(d)[i].sector)) ==> e[x] == d[x]
  }

  lemma WrittenGroup(d: Image, e: Image, i: nat, g: nat)
    requires Consistent(d) && FileWritten(d, e, i)
    requires g < NumDirEntries + 2 && g != i + 2
    ensures forall x :: x in Group(d, g) ==> e[x] == d[x]
  {
    hide EntriesOf, MarksOf, DecodeHeader, Content, KeyOf;
    Separate(d, g, i + 2);
    forall x | x in Group(d, g)
      ensures e[x] == d[x]
    {
      assert x !in Blocks(d, Entries(d)[i].sector);
      GroupIsMarked(d, g, x);
    }
  }

  lemma WrittenTables(d: Image, e: Image, i: nat)
    requires Consistent(d) && FileWritten(d, e, i)
    ensures SystemFiles(e) && Entries(e) == Entries(d) && MarkedOn(e) == MarkedOn(d)
    ensures Group(d, 0) == Blocks(e, 0) && Group(d, 1) == Blocks(e, 1)
  {
    hide EntriesOf, MarksOf, DecodeHeader, Content, KeyOf;
    WrittenGroup(d, e, i, 0);
    WrittenGroup(d, e, i, 1);
    UntouchedFile(d, e, FreeMapSector);
    UntouchedFile(d, e, DirectorySector);
  }

  lemma WrittenListed(d: Image, e: Image, i: nat, j: nat)
    requires Consistent(d) && FileWritten(d, e, i)
    requires j < NumDirEntries && Entries(d)[j].inUse
    ensures var s := Entries(d)[j].sector;
            GoodFile(e, s) && HeaderAt(e, s) == HeaderAt(d, s) && (j != i ==> FileAt(e, s) == FileAt(d, s))
  {
    hide EntriesOf, MarksOf, DecodeHeader, Content, KeyOf;
    var s := Entries(d)[j].sector;
    if j == i {
      assert s !in DataSectors(HeaderAt(d, s));
    } else {
      WrittenGroup(d, e, i, j + 2);
      UntouchedFile(d, e, s);
    }
  }

  /** Writing to a file changes that file only, and no header: every other open file stays valid. */
  lemma WrittenView(d: Image, e: Image, i: nat)
    requires Consistent(d) && FileWritten(d, e, i)
    ensures Consistent(e)
    ensures GoodFile(e, Entries(d)[i].sector)
    ensures View(e) == View(d)[KeyOf(Entries(d)[i].name) := FileAt(e, Entries(d)[i].sector)]
  {
    hide EntriesOf, MarksOf, DecodeHeader, Content, KeyOf;
    WrittenTables(d, e, i);
    forall j | 0 <= j < NumDirEntries && Entries(d)[j].inUse
      ensures var s := Entries(d)[j].sector; GoodFile(e, s) && HeaderAt(e, s) == HeaderAt(d, s)
    {
      WrittenListed(d, e, i, j);
    }
    forall g | 0 <= g < NumDirEntries + 2
      ensures Group(e, g) == Group(d, g)
    {
    }
    assert Groups(e) == Groups(d);
    WrittenLookup(d, e, i);
  }

  lemma WrittenKey(d: Image, e: Image, i: nat, key: Key)
    requires Consistent(d) && FileWritten(d, e, i) && Consistent(e) && Entries(e) == Entries(d)
    ensures key in View(e) <==> key in View(d)
    ensures key in View(e) && key == KeyOf(Entries(d)[i].name) ==> View(e)[key] == FileAt(e, Entries(d)[i].sector)
    ensures key in View(e) && key != KeyOf(Entries(d)[i].name) ==> View(e)[key] == View(d)[key]
    ensures key == KeyOf(Entries(d)[i].name) ==> key in View(d)
  {
    hide EntriesOf, MarksOf, DecodeHeader, Content, KeyOf, View;
    var t := Entries(d);
    ViewAt(d, key);
    ViewAt(e, key);
    if key == KeyOf(t[i].name) {
      SlotUnique(t, key, i);
    } else if key in View(d) {
      WrittenListed(d, e, i, Slot(t, key));
    }
  }

  lemma WrittenLookup(d: Image, e: Image, i: nat)
    requires Consistent(d) && FileWritten(d, e, i) && Consistent(e) && Entries(e) == Entries(d)
    ensures View(e) == View(d)[KeyOf(Entries(d)[i].name) := FileAt(e, Entries(d)[i].sector)]
  {
    hide EntriesOf, MarksOf, DecodeHeader, Content, KeyOf, View, Groups, Union, Disjoint, DistinctKeys;
    var m, n, key := View(d), View(e), KeyOf(Entries(d)[i].name);
    WrittenKey(d, e, i, key);
    forall k
      ensures k in n <==> k == key || k in m
      ensures k in m && k != key ==> n[k] == m[k]
    {
      WrittenKey(d, e, i, k);
    }
    UpdatedMap(m, n, key, FileAt(e, Entries(d)[i].sector));
  }
}
