/** The directory: a table of (name, header sector) pairs of 20 bytes each, stored as an ordinary file. */
module Directories {
  import opened Bytes
  import opened SectorDisks
  import opened FileHeaders
  import opened OpenFiles

  const FileNameMaxLen := 9
  const EntrySize := 20

  // ---------------------------------------------------------------- C strings

  /** The characters of the C string `s` up to its terminator, at most `n` of them; two strings for which this
      agrees are equal to strncmp(_, _, n). A sequence without a terminator ends in one. */
  function CString(s: seq<byte>, n: nat): (r: seq<byte>)
    ensures |r| <= n && |r| <= |s|
    decreases n
  {
    if n == 0 || |s| == 0 || s[0] == 0 then [] else [s[0]] + CString(s[1..], n - 1)
  }

  lemma {:induction false} CStringStops(s: seq<byte>, n: nat)
    ensures var r := CString(s, n);
            (forall i :: 0 <= i < |r| ==> r[i] == s[i] && r[i] != 0) && (|r| < n ==> |r| == |s| || s[|r|] == 0)
    decreases n
  {
    if !(n == 0 || |s| == 0 || s[0] == 0) {
      CStringStops(s[1..], n - 1);
      var r, rest := CString(s, n), CString(s[1..], n - 1);
      assert r == [s[0]] + rest;
      hide CString;
      assert forall i :: 1 <= i < |r| ==> r[i] == rest[i - 1] == s[1..][i - 1] == s[i];
    }
  }

  lemma {:induction false} CStringUnique(s: seq<byte>, n: nat, r: seq<byte>)
    requires |r| <= n && |r| <= |s|
    requires forall i :: 0 <= i < |r| ==> r[i] == s[i] && r[i] != 0
    requires |r| < n ==> |r| == |s| || s[|r|] == 0
    ensures r == CString(s, n)
    decreases n
  {
    if |r| > 0 {
      CStringUnique(s[1..], n - 1, r[1..]);
      assert r == [r[0]] + r[1..];
    }
  }

  /** strncpy(target, source, n): the characters of `source`, then zeros up to `n`; the rest of `target` stays. */
  function StrNCpy(target: seq<byte>, source: seq<byte>, n: nat): (r: seq<byte>)
    requires n <= |target|
    ensures |r| == |target|
  {
    var c := CString(source, n);
    c + seq<byte>(n - |c|, i => 0) + target[n..]
  }

  lemma CopiedName(target: seq<byte>, source: seq<byte>, n: nat)
    requires n <= |target|
    ensures CString(StrNCpy(target, source, n), n) == CString(source, n)
  {
    var c, r := CString(source, n), StrNCpy(target, source, n);
    CStringStops(source, n);
    assert |c| < n ==> r[|c|] == 0;
    CStringUnique(r, n, c);
  }

  // ---------------------------------------------------------------- entries

  /** A directory entry with its padding: one byte, a gap, a word, ten characters and two bytes of slack. */
  datatype EntryRecord = EntryRecord(inUse: bool, gap: seq<byte>, sector: Word, name: seq<byte>, slack: seq<byte>)

  type DirectoryEntry = e: EntryRecord | |e.gap| == 3 && |e.name| == FileNameMaxLen + 1 && |e.slack| == 2
    witness EntryRecord(false, [0, 0, 0], 0, [0, 0, 0, 0, 0, 0, 0, 0, 0, 0], [0, 0])

  function EncodeEntry(e: DirectoryEntry): (s: seq<byte>)
    ensures |s| == EntrySize
  {
    [if e.inUse then 1 else 0] + e.gap + ToBytes(e.sector) + e.name + e.slack
  }

  function DecodeEntry(s: seq<byte>, at: nat): DirectoryEntry
    requires at + EntrySize <= |s|
  {
    EntryRecord(s[at] != 0, s[at + 1..at + 4], FromBytes(s, at + 4), s[at + 8..at + 18], s[at + 18..at + 20])
  }

  /** An entry has its flag in byte 0, its sector in bytes 4 to 7 and its name from byte 8 on. */
  lemma EntryLayout(s: seq<byte>, at: nat)
    requires at + EntrySize <= |s|
    ensures var e := DecodeEntry(s, at);
            && (e.inUse <==> s[at] != 0)
            && ToBytes(e.sector) == s[at + 4..at + 8]
            && forall i :: 0 <= i < 10 ==> CharAt(e.name, i) == s[at + 8 + i]
  {
    BytesRoundTrip(s[at + 4], s[at + 5], s[at + 6], s[at + 7]);
  }

  function TableToBytes(t: seq<DirectoryEntry>): (s: seq<byte>)
    ensures |s| == EntrySize * |t|
  {
    seq(EntrySize * |t|, i requires 0 <= i < EntrySize * |t| => EncodeEntry(t[i / EntrySize])[i % EntrySize])
  }

  /** The table that the bytes of a directory file spell out. */
  function EntriesOf(s: seq<byte>): (t: seq<DirectoryEntry>)
    ensures |t| == |s| / EntrySize
  {
    seq(|s| / EntrySize, i requires 0 <= i < |s| / EntrySize => DecodeEntry(s, EntrySize * i))
  }

  lemma EntryRoundTrip(e: DirectoryEntry, s: seq<byte>, at: nat)
    requires at + EntrySize <= |s|
    requires s[at..at + EntrySize] == EncodeEntry(e)
    ensures DecodeEntry(s, at) == e
  {
    var c := EncodeEntry(e);
    assert s[at..at + EntrySize][0] == c[0];
    Field(s, at, c, 1, 4);
    Field(s, at, c, 4, 8);
    Field(s, at, c, 8, 18);
    Field(s, at, c, 18, 20);
    FieldWord(s, at + 4, e.sector);
  }

  lemma Field(s: seq<byte>, at: nat, c: seq<byte>, lo: nat, hi: nat)
    requires at + |c| <= |s| && s[at..at + |c|] == c
    requires lo <= hi <= |c|
    ensures s[at + lo..at + hi] == c[lo..hi]
  {
    forall k: nat | k < hi - lo
      ensures s[at + lo..at + hi][k] == c[lo..hi][k]
    {
      assert s[at..at + |c|][lo + k] == s[at + lo + k];
    }
  }

  lemma FieldWord(s: seq<byte>, at: nat, w: Word)
    requires at + 4 <= |s| && s[at..at + 4] == ToBytes(w)
    ensures FromBytes(s, at) == w
  {
    var b := s[at..at + 4];
    assert s[at] == b[0] && s[at + 1] == b[1] && s[at + 2] == b[2] && s[at + 3] == b[3];
    WordRoundTrip(w);
  }

  lemma EntrySlice(t: seq<DirectoryEntry>, i: nat)
    requires i < |t|
    ensures TableToBytes(t)[EntrySize * i..EntrySize * i + EntrySize] == EncodeEntry(t[i])
  {
    forall k: nat | k < EntrySize
      ensures TableToBytes(t)[EntrySize * i + k] == EncodeEntry(t[i])[k]
    {
      assert (EntrySize * i + k) / EntrySize == i && (EntrySize * i + k) % EntrySize == k;
    }
  }

  /** A table that is written to a file and fetched again is the table that was written. */
  lemma TableRoundTrip(t: seq<DirectoryEntry>)
    ensures EntriesOf(TableToBytes(t)) == t
  {
    forall i: nat | i < |t|
      ensures DecodeEntry(TableToBytes(t), EntrySize * i) == t[i]
    {
      EntrySlice(t, i);
      EntryRoundTrip(t[i], TableToBytes(t), EntrySize * i);
    }
  }

  // ---------------------------------------------------------------- searching

  /** The part of a name that the directory can tell apart. */
  type Key = seq<byte>

  function KeyOf(name: seq<byte>): Key {
    CString(name, FileNameMaxLen)
  }

  /** Character `i` of a name; after the last one there are zeros. */
  function CharAt(name: seq<byte>, i: nat): byte {
    if i < |name| then name[i] else 0
  }

  /** The first of the characters up to `i` that ends the name, if there is one, is not before `i`. */
  predicate Reaches(name: seq<byte>, i: nat) {
    forall j :: 0 <= j < i ==> CharAt(name, j) != 0
  }

  /** Two names are the same to the directory when their first nine characters are, up to the end of the names. */
  predicate SameName(a: seq<byte>, b: seq<byte>) {
    forall i :: 0 <= i < FileNameMaxLen && Reaches(a, i) ==> CharAt(a, i) == CharAt(b, i)
  }

  /** KeyOf tells two names apart exactly when they differ in one of their first nine characters. */
  lemma KeysTellApart(a: seq<byte>, b: seq<byte>)
    ensures KeyOf(a) == KeyOf(b) <==> SameName(a, b)
  {
    hide CString;
    CStringStops(a, FileNameMaxLen);
    CStringStops(b, FileNameMaxLen);
    var k, l := KeyOf(a), KeyOf(b);
    assert forall j :: 0 <= j < |k| ==> CharAt(a, j) == k[j] != 0;
    assert forall j :: 0 <= j < |l| ==> CharAt(b, j) == l[j] != 0;
    if k == l {
      if |k| < FileNameMaxLen {
        assert CharAt(a, |k|) == 0 && CharAt(b, |k|) == 0;
        assert forall i :: |k| < i ==> !Reaches(a, i);
      }
    } else if SameName(a, b) {
      KeysAgree(a, b);
    }
  }

  lemma KeysAgree(a: seq<byte>, b: seq<byte>)
    requires SameName(a, b)
    ensures KeyOf(a) == KeyOf(b)
  {
    hide CString;
    CStringStops(a, FileNameMaxLen);
    var k := KeyOf(a);
    forall j | 0 <= j < |k|
      ensures j < |b| && k[j] == b[j] && b[j] != 0
    {
      assert Reaches(a, j);
      assert CharAt(a, j) == CharAt(b, j);
    }
    if |k| < FileNameMaxLen {
      assert Reaches(a, |k|) && CharAt(a, |k|) == 0;
      assert CharAt(b, |k|) == 0;
    }
    assert |k| > 0 ==> k[|k| - 1] == b[|k| - 1];
    CStringUniqueWithin(b, FileNameMaxLen, k);
  }

  /** A name that ends where `r` does, or is longer than `n`, has `r` as its first `n` characters. */
  lemma CStringUniqueWithin(s: seq<byte>, n: nat, r: seq<byte>)
    requires |r| <= n && |r| <= |s|
    requires forall i :: 0 <= i < |r| ==> r[i] == s[i] && r[i] != 0
    requires |r| < n ==> CharAt(s, |r|) == 0
    ensures r == CString(s, n)
  {
    CStringUnique(s, n, r);
  }

  /** A name of at most nine characters is its own key; of a longer one the first nine count. */
  lemma KeyIsName(name: seq<byte>)
    requires forall i :: 0 <= i < |name| ==> name[i] != 0
    ensures KeyOf(name) == if |name| <= 9 then name else name[..9]
  {
    hide CString;
    CStringUnique(name, FileNameMaxLen, if |name| <= 9 then name else name[..9]);
  }

  predicate Matches(e: DirectoryEntry, key: Key) {
    e.inUse && KeyOf(e.name) == key
  }

  /** The first slot from `i` on that lists `key`, or -1. */
  function SlotFrom(t: seq<DirectoryEntry>, key: Key, i: nat): (slot: int)
    requires i <= |t|
    ensures slot == -1 ==> forall j :: i <= j < |t| ==> !Matches(t[j], key)
    ensures slot != -1 ==> i <= slot < |t| && Matches(t[slot], key) && forall j :: i <= j < slot ==> !Matches(t[j], key)
    decreases |t| - i
  {
    if i == |t| then -1 else if Matches(t[i], key) then i else SlotFrom(t, key, i + 1)
  }

  function Slot(t: seq<DirectoryEntry>, key: Key): (slot: int)
    ensures slot == -1 ==> forall j :: 0 <= j < |t| ==> !Matches(t[j], key)
    ensures slot != -1 ==> 0 <= slot < |t| && Matches(t[slot], key)
  {
    SlotFrom(t, key, 0)
  }

  /** The first slot from `i` on that is not in use, or -1. */
  function FreeFrom(t: seq<DirectoryEntry>, i: nat): (slot: int)
    requires i <= |t|
    ensures slot == -1 ==> forall j :: i <= j < |t| ==> t[j].inUse
    ensures slot != -1 ==> i <= slot < |t| && !t[slot].inUse && forall j :: i <= j < slot ==> t[j].inUse
    decreases |t| - i
  {
    if i == |t| then -1 else if !t[i].inUse then i else FreeFrom(t, i + 1)
  }

  function FreeSlot(t: seq<DirectoryEntry>): (slot: int)
    ensures slot == -1 ==> forall j :: 0 <= j < |t| ==> t[j].inUse
    ensures slot != -1 ==> 0 <= slot < |t| && !t[slot].inUse && forall j :: 0 <= j < slot ==> t[j].inUse
  {
    FreeFrom(t, 0)
  }

  function FilledIn(e: DirectoryEntry, name: seq<byte>, sector: Word): (f: DirectoryEntry)
    ensures f.inUse && f.sector == sector
  {
    e.(inUse := true, name := StrNCpy(e.name, name, FileNameMaxLen), sector := sector)
  }

  lemma FilledInKey(e: DirectoryEntry, name: seq<byte>, sector: Word)
    ensures KeyOf(FilledIn(e, name, sector).name) == KeyOf(name)
  {
    CopiedName(e.name, name, FileNameMaxLen);
  }

  class Directory {
    const tableSize: nat
    const table: array<DirectoryEntry>

    ghost predicate Valid()
      reads this
    {
      table.Length == tableSize
    }

    /** An empty directory; nothing is known about the entries but that none is in use. */
    constructor (size: nat)
      ensures Valid() && fresh(table) && tableSize == size
      ensures forall i :: 0 <= i < size ==> !table[i].inUse
    {
      tableSize := size;
      table := new DirectoryEntry[size];
      new;
      for i := 0 to size
        invariant forall j :: 0 <= j < i ==> !table[j].inUse
      {
        table[i] := table[i].(inUse := false);
      }
    }

    method FindIndex(name: seq<byte>) returns (found: int)
      requires Valid()
      ensures found == Slot(table[..], KeyOf(name))
      ensures found == -1 ==> forall j :: 0 <= j < tableSize ==> !(table[j].inUse && SameName(table[j].name, name))
      ensures found != -1 ==>
                && 0 <= found < tableSize && table[found].inUse && SameName(table[found].name, name)
                && forall j :: 0 <= j < found ==> !(table[j].inUse && SameName(table[j].name, name))
    {
      hide SameName, CString;
      forall j | 0 <= j < tableSize
        ensures KeyOf(table[j].name) == KeyOf(name) <==> SameName(table[j].name, name)
      {
        KeysTellApart(table[j].name, name);
      }
      for i := 0 to tableSize
        invariant SlotFrom(table[..], KeyOf(name), i) == Slot(table[..], KeyOf(name))
      {
        if table[i].inUse && CString(table[i].name, FileNameMaxLen) == CString(name, FileNameMaxLen) {
          return i;
        }
      }
      return -1;
    }

    method Find(name: seq<byte>) returns (sector: int)
      requires Valid()
      ensures var slot := Slot(table[..], KeyOf(name));
              sector == if slot == -1 then -1 else table[slot].sector
    {
      hide SameName, CString;
      var i := FindIndex(name);
      return if i != -1 then table[i].sector else -1;
    }

    method Add(name: seq<byte>, newSector: Word) returns (added: bool)
      requires Valid()
      modifies table
      ensures added <==> Slot(old(table[..]), KeyOf(name)) == -1 && FreeSlot(old(table[..])) != -1
      ensures !added ==> table[..] == old(table[..])
      ensures added ==> var t := old(table[..]); var slot := FreeSlot(t); table[..] == t[slot := FilledIn(t[slot], name, newSector)]
    {
      hide SameName, CString;
      var known := FindIndex(name);
      if known != -1 {
        return false;
      }
      for i := 0 to tableSize
        invariant table[..] == old(table[..])
        invariant FreeFrom(table[..], i) == FreeSlot(table[..])
      {
        if !table[i].inUse {
          table[i] := FilledIn(table[i], name, newSector);
          return true;
        }
      }
      return false;
    }

    method Remove(name: seq<byte>) returns (removed: bool)
      requires Valid()
      modifies table
      ensures removed <==> Slot(old(table[..]), KeyOf(name)) != -1
      ensures !removed ==> table[..] == old(table[..])
      ensures removed ==> var t := old(table[..]); var slot := Slot(t, KeyOf(name)); table[..] == t[slot := t[slot].(inUse := false)]
    {
      hide SameName, CString;
      var i := FindIndex(name);
      if i == -1 {
        return false;
      }
      table[i] := table[i].(inUse := false);
      return true;
    }

    method FetchFrom(file: OpenFile)
      requires Valid() && file.Valid()
      requires file.hdr.numBytes == EntrySize * tableSize
      modifies table
      ensures table[..] == EntriesOf(old(file.Bytes()))
    {
      var raw := file.ReadWhole(EntrySize * tableSize);
      ghost var entries := EntriesOf(raw);
      for i := 0 to tableSize
        invariant table[..i] == entries[..i]
      {
        table[i] := DecodeEntry(raw, EntrySize * i);
      }
      assert table[..] == table[..tableSize];
    }

    method WriteBack(file: OpenFile)
      requires Valid() && file.Valid()
      requires file.hdr.numBytes == EntrySize * tableSize
      modifies file.disk.sectors
      ensures EntriesOf(file.Bytes()) == table[..]
      ensures forall s :: 0 <= s < NumSectors && s !in DataSectors(file.hdr.Value()) ==>
                file.disk.Contents()[s] == old(file.disk.Contents())[s]
    {
      var bytes := TableToBytes(table[..]);
      TableRoundTrip(table[..]);
      var n := file.WriteAt(bytes, EntrySize * tableSize, 0);
      assert bytes[..n] == bytes;
      assert file.Bytes() == bytes;
    }
  }
}
