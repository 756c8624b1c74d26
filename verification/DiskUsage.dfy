/** How much of the disk the files use, and how many files there are. */
module DiskUsage {
  import opened Bytes
  import opened SectorDisks
  import opened BitMapFiles
  import opened FileHeaders
  import opened OpenFiles
  import opened Directories
  import opened DiskLayout

  /** One sector for the header and as many as the length calls for. */
  function SectorsFor(length: nat): nat {
    1 + DivRoundUp(length, SectorSize)
  }

  lemma BlockCount(d: Image, s: nat)
    requires GoodFile(d, s)
    ensures |Blocks(d, s)| == SectorsFor(|FileAt(d, s)|)
    ensures |Blocks(d, s)| <= 1 + NumDirect
  {
    hide DecodeHeader;
    var h := HeaderAt(d, s);
    SectorCount(h, h.numSectors);
  }

  /** The sectors used by the files in the first `n` slots. */
  ghost function SlotUsage(d: Image, n: nat): nat
    requires ListedFiles(d) && n <= NumDirEntries
  {
    if n == 0 then 0
    else SlotUsage(d, n - 1) + if Entries(d)[n - 1].inUse then SectorsFor(|FileAt(d, Entries(d)[n - 1].sector)|) else 0
  }

  lemma TotalStep(gs: seq<set<nat>>, n: nat)
    requires n < |gs|
    ensures TotalSize(gs[..n + 1]) == TotalSize(gs[..n]) + |gs[n]|
  {
    assert gs[..n + 1][..n] == gs[..n];
  }

  lemma GroupSize(d: Image, n: nat)
    requires ListedFiles(d) && n < NumDirEntries
    ensures |Group(d, n + 2)| == if Entries(d)[n].inUse then SectorsFor(|FileAt(d, Entries(d)[n].sector)|) else 0
    ensures |Group(d, n + 2)| <= 1 + NumDirect
  {
    hide DecodeHeader, EntriesOf, MarksOf, Content;
    if Entries(d)[n].inUse {
      BlockCount(d, Entries(d)[n].sector);
    }
  }

  lemma SystemUsage(d: Image)
    requires ListedFiles(d)
    ensures TotalSize(Groups(d)[..2]) == 5
  {
    hide DecodeHeader, EntriesOf, MarksOf, Content, TotalSize;
    BlockCount(d, FreeMapSector);
    BlockCount(d, DirectorySector);
    var gs := Groups(d);
    TotalStep(gs, 0);
    TotalStep(gs, 1);
    EmptyTotal(gs);
  }

  lemma EmptyTotal(gs: seq<set<nat>>)
    ensures TotalSize(gs[..0]) == 0
  {
  }

  lemma {:induction false} UsageBySlots(d: Image, n: nat)
    requires ListedFiles(d) && n <= NumDirEntries
    ensures TotalSize(Groups(d)[..n + 2]) == 5 + SlotUsage(d, n)
    ensures SlotUsage(d, n) <= n * (1 + NumDirect)
  {
    hide DecodeHeader, EntriesOf, MarksOf, Content, TotalSize, Group, FileAt;
    if n == 0 {
      SystemUsage(d);
    } else {
      UsageBySlots(d, n - 1);
      TotalStep(Groups(d), n + 1);
      GroupSize(d, n - 1);
    }
  }

  /** Every marked sector is paid for by a file: what the bitmap marks, and so what it leaves free, is
      determined by the lengths of the files. */
  lemma SectorBalance(d: Image)
    requires Consistent(d)
    ensures |MarkedOn(d)| == 5 + SlotUsage(d, NumDirEntries)
  {
    hide DecodeHeader, EntriesOf, MarksOf, Content, DistinctKeys, KeyOf;
    UnionSize(Groups(d));
    UsageBySlots(d, NumDirEntries);
    assert Groups(d)[..NumDirEntries + 2] == Groups(d);
  }

  /** Ten files of at most thirty sectors each cannot fill the disk, so a free slot always comes with enough
      free sectors: the only limits that Create can run into are the name and the directory. */
  lemma SpaceIsNeverTheLimit(d: Image, size: nat)
    requires Consistent(d) && size <= MaxFileSize
    ensures |MarkedOn(d)| <= 315
    ensures |MarkedOn(d)| + SectorsFor(size) <= NumSectors
  {
    hide DecodeHeader, EntriesOf, MarksOf, Content, DistinctKeys, KeyOf;
    SectorBalance(d);
    UsageBySlots(d, NumDirEntries);
  }

  // ---------------------------------------------------------------- number of files

  ghost function NamesBelow(t: seq<DirectoryEntry>, n: nat): set<Key>
    requires n <= |t|
  {
    Names(t[..n])
  }

  lemma NamesStep(t: seq<DirectoryEntry>, n: nat)
    requires n < |t| && DistinctKeys(t)
    ensures NamesBelow(t, n + 1) == NamesBelow(t, n) + if t[n].inUse then {KeyOf(t[n].name)} else {}
    ensures t[n].inUse ==> KeyOf(t[n].name) !in NamesBelow(t, n)
  {
    hide KeyOf;
    var u, v := t[..n], t[..n + 1];
    forall key
      ensures key in Names(v) <==> key in Names(u) || (t[n].inUse && key == KeyOf(t[n].name))
    {
      if key in Names(v) {
        var i: nat :| i < |v| && v[i].inUse && KeyOf(v[i].name) == key;
        assert i < n ==> u[i].inUse && KeyOf(u[i].name) in Names(u);
      }
      if key in Names(u) {
        var i: nat :| i < |u| && u[i].inUse && KeyOf(u[i].name) == key;
        assert v[i].inUse && KeyOf(v[i].name) in Names(v);
      }
      if t[n].inUse {
        assert v[n].inUse && KeyOf(v[n].name) in Names(v);
      }
    }
  }

  lemma {:induction false} NamesCount(t: seq<DirectoryEntry>, n: nat)
    requires n <= |t| && DistinctKeys(t)
    ensures |NamesBelow(t, n)| <= n
    ensures |NamesBelow(t, n)| == n <==> forall i :: 0 <= i < n ==> t[i].inUse
  {
    hide KeyOf, DistinctKeys, Names;
    if n > 0 {
      hide NamesBelow;
      NamesCount(t, n - 1);
      NamesStep(t, n - 1);
      var rest := NamesBelow(t, n - 1);
      if t[n - 1].inUse {
        var key := KeyOf(t[n - 1].name);
        assert |rest + {key}| == |rest| + 1;
      }
    } else {
      NoNames(t);
    }
  }

  lemma NoNames(t: seq<DirectoryEntry>)
    ensures |NamesBelow(t, 0)| == 0
  {
    assert t[..0] == [];
  }

  /** The directory is full exactly when it lists ten files. */
  lemma FullDirectory(d: Image)
    requires Consistent(d)
    ensures |View(d)| <= NumDirEntries
    ensures FreeSlot(Entries(d)) == -1 <==> |View(d)| == NumDirEntries
  {
    hide DecodeHeader, EntriesOf, MarksOf, Content, KeyOf;
    var t := Entries(d);
    assert t[..NumDirEntries] == t;
    NamesCount(t, NumDirEntries);
    assert View(d).Keys == Names(t);
  }
}
