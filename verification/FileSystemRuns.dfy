/** Whole runs of the file system: whatever is asked of it, it behaves as a map from names to contents. */
module FileSystemRuns {
  import opened Bytes
  import opened SectorDisks
  import BitMapFiles
  import opened FileHeaders
  import opened OpenFiles
  import opened Directories
  import opened DiskLayout
  import opened DiskSteps
  import opened FileSystems

  // ---------------------------------------------------------------- the specification

  type Files = map<Key, seq<byte>>

  /** An open file, as its user sees it. It is live until it is closed, or the file of its name is removed. */
  datatype Handle = Handle(key: Key, position: nat, live: bool)

  /** What the names hold, and the files that have been opened, in order. */
  datatype State = State(files: Files, handles: seq<Handle>)

  datatype Request =
    | Create(name: seq<byte>, size: nat)
    | Remove(name: seq<byte>)
    | Open(name: seq<byte>)
    | Close(h: nat)
    | Seek(h: nat, position: nat)
    | Read(h: nat, numBytes: int)
    | Write(h: nat, source: seq<byte>)
    | ReadAt(h: nat, numBytes: int, position: nat)
    | WriteAt(h: nat, source: seq<byte>, position: nat)

  /** A request on a handle that is not live is not made: what a stale handle does is not specified. */
  datatype Reply = Outcome(ok: bool) | Opened(h: nat) | NoSuchFile | NotLive | Done | Wrote(n: nat) | Got(bytes: seq<byte>)

  /** The bytes of a file after a write of `source` at `position`, clipped to the length of the file. */
  function Overwritten(before: seq<byte>, source: seq<byte>, position: nat): (r: seq<byte>)
    ensures |r| == |before|
  {
    var n := Clipped(|source|, position, |before|);
    if n == 0 then before else Splice(before, position, source[..n])
  }

  function Extract(bytes: seq<byte>, numBytes: int, position: nat): (r: seq<byte>)
    ensures |r| == Clipped(numBytes, position, |bytes|)
  {
    var n := Clipped(numBytes, position, |bytes|);
    if n == 0 then [] else bytes[position..position + n]
  }

  /** Reading back what has been written gives what was written, clipped; all other bytes are as before. */
  lemma WrittenIsRead(before: seq<byte>, source: seq<byte>, position: nat, i: nat)
    requires i < |before|
    ensures var n, after := Clipped(|source|, position, |before|), Overwritten(before, source, position);
            && Extract(after, |source|, position) == source[..n]
            && after[i] == if position <= i < position + n then source[i - position] else before[i]
  {
  }

  predicate IsLive(s: State, h: nat) {
    h < |s.handles| && s.handles[h].live && s.handles[h].key in s.files
  }

  /** The bytes of the file that a live handle stands for. */
  function BytesOf(s: State, h: nat): seq<byte>
    requires IsLive(s, h)
  {
    s.files[s.handles[h].key]
  }

  function Moved(s: State, h: nat, position: nat): State
    requires h < |s.handles|
  {
    s.(handles := s.handles[h := s.handles[h].(position := position)])
  }

  function Rewritten(s: State, h: nat, source: seq<byte>, position: nat): State
    requires IsLive(s, h)
  {
    s.(files := s.files[s.handles[h].key := Overwritten(BytesOf(s, h), source, position)])
  }

  function Retired(handles: seq<Handle>, key: Key): (r: seq<Handle>)
    ensures |r| == |handles|
  {
    seq(|handles|, i requires 0 <= i < |handles| => handles[i].(live := handles[i].live && handles[i].key != key))
  }

  /** What one request does, and what is answered. A new file has the right length; what it holds until it is
      written is whatever was on the disk. */
  ghost predicate Step(s: State, request: Request, reply: Reply, t: State) {
    match request
    case Create(name, size) =>
      var key := KeyOf(name);
      && t.handles == s.handles
      && reply == Outcome(key !in s.files && |s.files| < NumDirEntries)
      && (reply.ok ==> key in t.files && |t.files[key]| == size && t.files == s.files[key := t.files[key]])
      && (!reply.ok ==> t.files == s.files)
    case Remove(name) =>
      var key := KeyOf(name);
      reply == Outcome(key in s.files) && t == State(s.files - {key}, Retired(s.handles, key))
    case Open(name) =>
      var key := KeyOf(name);
      if key in s.files then reply == Opened(|s.handles|) && t == s.(handles := s.handles + [Handle(key, 0, true)])
      else reply == NoSuchFile && t == s
    case Close(h) =>
      if IsLive(s, h) then reply == Done && t == s.(handles := s.handles[h := s.handles[h].(live := false)])
      else reply == NotLive && t == s
    case Seek(h, position) =>
      if IsLive(s, h) then reply == Done && t == Moved(s, h, position)
      else reply == NotLive && t == s
    case Read(h, numBytes) =>
      if IsLive(s, h)
      then
        var from := s.handles[h].position;
        var bytes := Extract(BytesOf(s, h), numBytes, from);
        reply == Got(bytes) && t == Moved(s, h, from + |bytes|)
      else reply == NotLive && t == s
    case Write(h, source) =>
      if IsLive(s, h)
      then
        var at := s.handles[h].position;
        var n := Clipped(|source|, at, |BytesOf(s, h)|);
        reply == Wrote(n) && t == Moved(Rewritten(s, h, source, at), h, at + n)
      else reply == NotLive && t == s
    case ReadAt(h, numBytes, position) =>
      t == s && reply == if IsLive(s, h) then Got(Extract(BytesOf(s, h), numBytes, position)) else NotLive
    case WriteAt(h, source, position) =>
      if IsLive(s, h)
      then reply == Wrote(Clipped(|source|, position, |BytesOf(s, h)|)) && t == Rewritten(s, h, source, position)
      else reply == NotLive && t == s
  }

  /** After a file has been created, exactly its name, as far as nine characters tell, and those that were there
      before can be opened. */
  lemma CreatedIsOpened(s: State, name: seq<byte>, size: nat, t: State, other: seq<byte>, reply: Reply, u: State)
    requires Step(s, Create(name, size), Outcome(true), t) && Step(t, Open(other), reply, u)
    ensures reply == NoSuchFile <==> !SameName(other, name) && KeyOf(other) !in s.files
  {
    hide KeyOf, SameName;
    KeysTellApart(other, name);
  }

  /** The names of live handles are names of files, so `live` alone decides whether a handle can be used. */
  ghost predicate LiveAreListed(s: State) {
    forall h :: 0 <= h < |s.handles| && s.handles[h].live ==> s.handles[h].key in s.files
  }

  lemma StepKeepsListed(s: State, request: Request, reply: Reply, t: State)
    requires LiveAreListed(s) && Step(s, request, reply, t)
    ensures LiveAreListed(t)
  {
    hide Overwritten, Extract, KeyOf;
  }

  // ---------------------------------------------------------------- one request on the disk

  lemma NewFileView(d: Image, e: Image, name: seq<byte>, size: nat)
    requires Consistent(d) && NewFile(d, e, name, size)
    ensures Consistent(e) && KeyOf(name) in View(e) && |View(e)[KeyOf(name)]| == size
    ensures View(e) == View(d)[KeyOf(name) := View(e)[KeyOf(name)]]
  {
    hide EntriesOf, BitMapFiles.MarksOf, DecodeHeader, Content, KeyOf, View, FileAdded, Groups, Union, Disjoint, DistinctKeys;
    var i: nat, s: nat, h: Header :| FileAdded(d, e, name, i, s, h) && h.numBytes == size;
    AddedHeader(d, e, name, i, s, h);
    AddedView(d, e, name, i, s, h);
  }

  lemma AddedHeader(d: Image, e: Image, name: seq<byte>, i: nat, s: nat, h: Header)
    requires Consistent(d) && FileAdded(d, e, name, i, s, h)
    ensures ValidHeader(h)
  {
  }

  lemma RemovedView(d: Image, e: Image, key: Key)
    requires Consistent(d) && key in View(d) && FileDropped(d, e, Slot(Entries(d), key))
    ensures Consistent(e) && View(e) == View(d) - {key}
  {
    hide EntriesOf, BitMapFiles.MarksOf, DecodeHeader, Content, KeyOf, View, FileDropped, Groups, Union, Disjoint, DistinctKeys;
    ViewAt(d, key);
    DroppedView(d, e, Slot(Entries(d), key));
  }

  /** A write through a handle changes the one file, and leaves the handle, and every other one, in order. */
  lemma WrittenThroughHandle(d: Image, e: Image, h: Header, key: Key)
    requires Consistent(d) && IsHandle(d, h, key) && ValidHeader(h) && Rewrites(d, e, h)
    ensures Consistent(e) && key in View(d)
    ensures View(e) == View(d)[key := Content(e, h)]
    ensures IsHandle(e, h, key)
    ensures HeaderAt(e, FreeMapSector) == HeaderAt(d, FreeMapSector) && HeaderAt(e, DirectorySector) == HeaderAt(d, DirectorySector)
  {
    hide EntriesOf, BitMapFiles.MarksOf, DecodeHeader, Content, KeyOf, View, Groups, Union, Disjoint, DistinctKeys;
    var i := Slot(Entries(d), key);
    ViewAt(d, key);
    WrittenView(d, e, i);
    WrittenTables(d, e, i);
    WrittenListed(d, e, i, i);
    WrittenGroup(d, e, i, 0);
    WrittenGroup(d, e, i, 1);
  }

  // ---------------------------------------------------------------- operations together

  /** Removing a file that has just been created gives back every sector it took, and the map as it was. */
  lemma CreateThenRemove(d: Image, e: Image, f: Image, name: seq<byte>, size: nat)
    requires Consistent(d) && NewFile(d, e, name, size)
    requires Consistent(e) && KeyOf(name) in View(e) && FileDropped(e, f, Slot(Entries(e), KeyOf(name)))
    ensures Consistent(f) && MarkedOn(f) == MarkedOn(d) && View(f) == View(d)
  {
    hide EntriesOf, BitMapFiles.MarksOf, DecodeHeader, Content, KeyOf, View, Groups, Union, Disjoint, DistinctKeys, Sectors;
    var i: nat, s: nat, h: Header :| FileAdded(d, e, name, i, s, h) && h.numBytes == size;
    AddedView(d, e, name, i, s, h);
    AddedSlot(d, e, name, i, s, h);
    RemovedView(e, f, KeyOf(name));
    var m := View(d);
    assert m[KeyOf(name) := Content(d, h)] - {KeyOf(name)} == m;
  }

  lemma AddedSlot(d: Image, e: Image, name: seq<byte>, i: nat, s: nat, h: Header)
    requires Consistent(d) && FileAdded(d, e, name, i, s, h) && Consistent(e)
    ensures Slot(Entries(e), KeyOf(name)) == i && Entries(e)[i].inUse && Blocks(e, Entries(e)[i].sector) == {s} + DataSectors(h)
  {
    hide EntriesOf, BitMapFiles.MarksOf, DecodeHeader, Content, KeyOf, View, Groups, Union, Disjoint, Sectors;
    FilledInKey(Entries(d)[i], name, s);
    FilledTable(Entries(d), i, FilledIn(Entries(d)[i], name, s));
  }

  /** A handle stays good when some other file is created. */
  lemma CreateKeepsHandles(d: Image, e: Image, name: seq<byte>, size: nat, h: Header, key: Key)
    requires Consistent(d) && NewFile(d, e, name, size) && IsHandle(d, h, key)
    ensures Consistent(e) && IsHandle(e, h, key)
  {
    hide EntriesOf, BitMapFiles.MarksOf, DecodeHeader, Content, KeyOf, View, Groups, Union, Disjoint, DistinctKeys, Sectors;
    var i: nat, s: nat, g: Header :| FileAdded(d, e, name, i, s, g) && g.numBytes == size;
    AddedConsistent(d, e, name, i, s, g);
    FilledInKey(Entries(d)[i], name, s);
    FilledTable(Entries(d), i, FilledIn(Entries(d)[i], name, s));
    ListedStays(d, e, {s}, Slot(Entries(d), key));
  }

  /** A handle stays good when some other file is removed. */
  lemma RemoveKeepsHandles(d: Image, e: Image, gone: Key, h: Header, key: Key)
    requires Consistent(d) && gone in View(d) && FileDropped(d, e, Slot(Entries(d), gone))
    requires IsHandle(d, h, key) && key != gone
    ensures Consistent(e) && IsHandle(e, h, key)
  {
    hide EntriesOf, BitMapFiles.MarksOf, DecodeHeader, Content, KeyOf, View, Groups, Union, Disjoint, DistinctKeys, Sectors;
    ViewAt(d, gone);
    var i := Slot(Entries(d), gone);
    DroppedConsistent(d, e, i);
    DroppedEntry(Entries(d), i);
    ListedStays(d, e, {}, Slot(Entries(d), key));
  }

  /** A handle stays good when any file is written to, and so is what it reads unless that file is its own. */
  lemma WriteKeepsHandles(d: Image, e: Image, g: Header, written: Key, h: Header, key: Key)
    requires Consistent(d) && IsHandle(d, g, written) && ValidHeader(g) && Rewrites(d, e, g)
    requires IsHandle(d, h, key)
    ensures Consistent(e) && IsHandle(e, h, key)
    ensures ValidHeader(h) && (key != written ==> Content(e, h) == Content(d, h))
  {
    hide EntriesOf, BitMapFiles.MarksOf, DecodeHeader, Content, KeyOf, View, Groups, Union, Disjoint, DistinctKeys, Sectors;
    var i := Slot(Entries(d), written);
    WrittenView(d, e, i);
    WrittenTables(d, e, i);
    WrittenListed(d, e, i, Slot(Entries(d), key));
  }

  // ---------------------------------------------------------------- all handles at once

  /** Every live handle has the header, as it is on disk, of the file of its name. */
  ghost predicate HandlesGood(d: Image, headers: seq<Header>, keys: seq<Key>, live: seq<bool>)
    requires ListedFiles(d)
  {
    && |headers| == |keys| == |live|
    && forall i :: 0 <= i < |headers| && live[i] ==> IsHandle(d, headers[i], keys[i])
  }

  lemma CreateKeepsAll(d: Image, e: Image, name: seq<byte>, size: nat, headers: seq<Header>, keys: seq<Key>, live: seq<bool>)
    requires Consistent(d) && NewFile(d, e, name, size) && HandlesGood(d, headers, keys, live)
    ensures Consistent(e) && HandlesGood(e, headers, keys, live)
  {
    hide Consistent, IsHandle, NewFile, View, ListedFiles;
    NewFileView(d, e, name, size);
    ConsistentLists(e);
    forall i | 0 <= i < |headers| && live[i]
      ensures IsHandle(e, headers[i], keys[i])
    {
      CreateKeepsHandles(d, e, name, size, headers[i], keys[i]);
    }
  }

  lemma ConsistentLists(d: Image)
    requires Consistent(d)
    ensures ListedFiles(d)
  {
    hide ListedFiles;
  }

  lemma RemoveKeepsAll(d: Image, e: Image, gone: Key, headers: seq<Header>, keys: seq<Key>, live: seq<bool>, still: seq<bool>)
    requires Consistent(d) && gone in View(d) && FileDropped(d, e, Slot(Entries(d), gone))
    requires HandlesGood(d, headers, keys, live)
    requires |still| == |live| && forall i :: 0 <= i < |live| ==> still[i] == (live[i] && keys[i] != gone)
    ensures Consistent(e) && HandlesGood(e, headers, keys, still)
  {
    hide Consistent, IsHandle, FileDropped, View, ListedFiles, Slot, Entries;
    RemovedView(d, e, gone);
    ConsistentLists(e);
    forall i | 0 <= i < |headers| && still[i]
      ensures IsHandle(e, headers[i], keys[i])
    {
      RemoveKeepsHandles(d, e, gone, headers[i], keys[i]);
    }
  }

  lemma WriteKeepsAll(d: Image, e: Image, h: nat, headers: seq<Header>, keys: seq<Key>, live: seq<bool>)
    requires Consistent(d) && HandlesGood(d, headers, keys, live)
    requires h < |headers| && live[h] && ValidHeader(headers[h]) && Rewrites(d, e, headers[h])
    ensures Consistent(e) && HandlesGood(e, headers, keys, live)
  {
    hide Consistent, IsHandle, View, ListedFiles, ValidHeader, Rewrites;
    WrittenThroughHandle(d, e, headers[h], keys[h]);
    ConsistentLists(e);
    forall i | 0 <= i < |headers| && live[i]
      ensures IsHandle(e, headers[i], keys[i])
    {
      WriteKeepsHandles(d, e, headers[h], keys[h], headers[i], keys[i]);
    }
  }

  // ---------------------------------------------------------------- serving requests

  /** The users of a file system, taken together: the open files that they hold, each with its own cached header and
      seek position, under what name each was opened, and whether it may still be used. */
  class Session {
    const fs: FileSystem
    var files: seq<OpenFile>
    var keys: seq<Key>
    var live: seq<bool>
    ghost var headers: seq<Header>

    ghost predicate Valid()
      reads this, files, set f | f in files :: f.hdr
      reads fs, fs.disk, fs.disk.sectors, fs.freeMapFile, fs.freeMapFile.disk, fs.freeMapFile.hdr
      reads fs.directoryFile, fs.directoryFile.disk, fs.directoryFile.hdr
    {
      && fs.Valid()
      && |files| == |keys| == |live| == |headers|
      && (forall i, j :: 0 <= i < j < |files| ==> files[i] != files[j])
      && (forall i :: 0 <= i < |files| ==> OwnFile(files[i], headers[i]))
      && HandlesGood(fs.disk.Contents(), headers, keys, live)
    }

    /** An open file on the disk of the file system, not one of its own, with the header `h` in its cache. */
    ghost predicate OwnFile(file: OpenFile, h: Header)
      reads this, file, file.hdr, fs, fs.disk
    {
      && file != fs.freeMapFile && file != fs.directoryFile
      && file.disk == fs.disk && file.Valid() && file.hdr.Value() == h
    }

    ghost function Handles(): (s: seq<Handle>)
      reads this, files
      requires |files| == |keys| == |live|
      ensures |s| == |files|
    {
      seq(|files|, i requires 0 <= i < |files| && |files| == |keys| == |live| reads this, files => Handle(keys[i], files[i].seekPosition, live[i]))
    }

    ghost function Now(): State
      requires Valid()
      reads this, files, set f | f in files :: f.hdr
      reads fs, fs.disk, fs.disk.sectors, fs.freeMapFile, fs.freeMapFile.disk, fs.freeMapFile.hdr
      reads fs.directoryFile, fs.directoryFile.disk, fs.directoryFile.hdr
    {
      State(View(fs.disk.Contents()), Handles())
    }

    constructor (fs: FileSystem)
      requires fs.Valid()
      ensures this.fs == fs && files == [] && Valid() && Now() == State(View(fs.disk.Contents()), [])
    {
      this.fs := fs;
      files, keys, live, headers := [], [], [], [];
    }

    method Create(name: seq<byte>, size: nat) returns (reply: Reply)
      requires Valid() && size <= MaxFileSize
      modifies fs.disk.sectors
      ensures Valid() && Step(old(Now()), Request.Create(name, size), reply, Now())
    {
      hide EntriesOf, BitMapFiles.MarksOf, DecodeHeader, Content, KeyOf, View, NewFile, Groups, Union, Disjoint, DistinctKeys;
      hide HandlesGood, Consistent, ValidHeader;
      ghost var d := fs.disk.Contents();
      var ok := fs.Create(name, size);
      if ok {
        NewFileView(d, fs.disk.Contents(), name, size);
        CreateKeepsAll(d, fs.disk.Contents(), name, size, headers, keys, live);
      }
      reply := Outcome(ok);
      assert Handles() == old(Handles());
    }

    method Remove(name: seq<byte>) returns (reply: Reply)
      requires Valid()
      modifies this, fs.disk.sectors
      ensures Valid() && files == old(files) && Step(old(Now()), Request.Remove(name), reply, Now())
    {
      hide EntriesOf, BitMapFiles.MarksOf, DecodeHeader, Content, KeyOf, View, FileDropped, Groups, Union, Disjoint, DistinctKeys;
      hide HandlesGood, Consistent, ValidHeader, Entries, Slot;
      ghost var d, before := fs.disk.Contents(), Now();
      var ok := fs.Remove(name);
      var gone, were := KeyOf(name), live;
      live := seq(|live|, i requires 0 <= i < |live| && |live| == |keys| reads this => live[i] && keys[i] != gone);
      if ok {
        RemovedView(d, fs.disk.Contents(), gone);
        RemoveKeepsAll(d, fs.disk.Contents(), gone, headers, keys, were, live);
      } else {
        NothingToRetire(d, gone, headers, keys, were);
        assert live == were;
      }
      reply := Outcome(ok);
      assert Handles() == Retired(before.handles, gone);
    }

    method Open(name: seq<byte>) returns (reply: Reply)
      requires Valid()
      modifies this
      ensures Valid() && old(files) <= files && (forall k :: 0 <= k < |files| ==> files[k] in old(files) || fresh(files[k]))
      ensures Step(old(Now()), Request.Open(name), reply, Now())
    {
      hide EntriesOf, BitMapFiles.MarksOf, DecodeHeader, Content, KeyOf, View, Groups, Union, Disjoint, DistinctKeys;
      hide HandlesGood, Consistent, ValidHeader, Entries, Slot, IsHandle;
      ghost var before := Now();
      var file := fs.Open(name);
      if file == null {
        return NoSuchFile;
      }
      ConsistentLists(fs.disk.Contents());
      OneMoreHandle(fs.disk.Contents(), headers, keys, live, file.hdr.Value(), KeyOf(name));
      reply := Opened(|files|);
      files, keys, live, headers := files + [file], keys + [KeyOf(name)], live + [true], headers + [file.hdr.Value()];
      assert Handles() == before.handles + [Handle(KeyOf(name), 0, true)];
    }

    /** The file of a live handle is listed. */
    lemma Known(h: nat)
      requires Valid()
      ensures IsLive(Now(), h) <==> h < |files| && live[h]
      ensures IsLive(Now(), h) ==> BytesOf(Now(), h) == files[h].Bytes() && |files[h].Bytes()| == files[h].hdr.numBytes
    {
      hide EntriesOf, BitMapFiles.MarksOf, DecodeHeader, Content, KeyOf, View, Groups, Union, Disjoint, DistinctKeys;
      hide Consistent, ValidHeader, Entries, Slot, IsHandle;
      if h < |files| && live[h] {
        ConsistentLists(fs.disk.Contents());
        HandleContent(fs.disk.Contents(), headers[h], keys[h]);
      }
    }

    method Close(h: nat) returns (reply: Reply)
      requires Valid()
      modifies this
      ensures Valid() && files == old(files) && Step(old(Now()), Request.Close(h), reply, Now())
    {
      hide EntriesOf, BitMapFiles.MarksOf, DecodeHeader, Content, KeyOf, View, Groups, Union, Disjoint, DistinctKeys;
      hide Consistent, ValidHeader, Entries, Slot, IsHandle;
      Known(h);
      ghost var before := Now();
      if h >= |files| || !live[h] {
        return NotLive;
      }
      live := live[h := false];
      reply := Done;
      assert Handles() == before.handles[h := before.handles[h].(live := false)];
    }

    method Seek(h: nat, position: nat) returns (reply: Reply)
      requires Valid()
      modifies files
      ensures Valid() && Step(old(Now()), Request.Seek(h, position), reply, Now())
    {
      hide EntriesOf, BitMapFiles.MarksOf, DecodeHeader, Content, KeyOf, View, Groups, Union, Disjoint, DistinctKeys;
      hide Consistent, ValidHeader, HandlesGood;
      Known(h);
      ghost var before := Now();
      if h >= |files| || !live[h] {
        return NotLive;
      }
      files[h].Seek(position);
      reply := Done;
      assert Now() == Moved(before, h, position);
    }

    method Read(h: nat, numBytes: int) returns (reply: Reply)
      requires Valid()
      modifies files
      ensures Valid() && Step(old(Now()), Request.Read(h, numBytes), reply, Now())
    {
      hide EntriesOf, BitMapFiles.MarksOf, DecodeHeader, Content, KeyOf, View, Groups, Union, Disjoint, DistinctKeys;
      hide Consistent, ValidHeader, HandlesGood;
      Known(h);
      ghost var before := Now();
      if h >= |files| || !live[h] {
        return NotLive;
      }
      var into := new byte[if numBytes > 0 then numBytes else 0];
      var n := files[h].Read(into, numBytes);
      reply := Got(into[..n]);
      assert Now() == Moved(before, h, before.handles[h].position + n);
    }

    method ReadAt(h: nat, numBytes: int, position: nat) returns (reply: Reply)
      requires Valid()
      ensures Step(Now(), Request.ReadAt(h, numBytes, position), reply, Now())
    {
      hide EntriesOf, BitMapFiles.MarksOf, DecodeHeader, Content, KeyOf, View, Groups, Union, Disjoint, DistinctKeys;
      hide Consistent, ValidHeader, HandlesGood;
      Known(h);
      if h >= |files| || !live[h] {
        return NotLive;
      }
      var into := new byte[if numBytes > 0 then numBytes else 0];
      var n := files[h].ReadAt(into, 0, numBytes, position);
      reply := Got(into[..n]);
    }

    /** What a write through a live handle does to the disk, for the users of all handles. */
    lemma WriteThrough(d: Image, h: nat)
      requires h < |files| == |headers| == |keys| == |live| && live[h]
      requires Consistent(d) && HandlesGood(d, headers, keys, live)
      requires fs.disk.Valid() && ValidHeader(headers[h]) && Rewrites(d, fs.disk.Contents(), headers[h])
      ensures Consistent(fs.disk.Contents()) && HandlesGood(fs.disk.Contents(), headers, keys, live)
      ensures View(fs.disk.Contents()) == View(d)[keys[h] := Content(fs.disk.Contents(), headers[h])]
      ensures HeaderAt(fs.disk.Contents(), FreeMapSector) == HeaderAt(d, FreeMapSector)
      ensures HeaderAt(fs.disk.Contents(), DirectorySector) == HeaderAt(d, DirectorySector)
    {
      hide Consistent, ValidHeader, Rewrites, View, Content, HeaderAt, IsHandle, ListedFiles;
      WriteKeepsAll(d, fs.disk.Contents(), h, headers, keys, live);
      WrittenThroughHandle(d, fs.disk.Contents(), headers[h], keys[h]);
    }

    method WriteAt(h: nat, source: seq<byte>, position: nat) returns (reply: Reply)
      requires Valid()
      modifies fs.disk.sectors
      ensures Valid() && Step(old(Now()), Request.WriteAt(h, source, position), reply, Now())
    {
      hide EntriesOf, BitMapFiles.MarksOf, DecodeHeader, Content, KeyOf, View, Groups, Union, Disjoint, DistinctKeys;
      hide Consistent, ValidHeader, HandlesGood, HeaderAt, Splice;
      Known(h);
      ghost var d, before := fs.disk.Contents(), Now();
      if h >= |files| || !live[h] {
        return NotLive;
      }
      var n := files[h].WriteAt(source, |source|, position);
      reply := Wrote(n);
      WriteThrough(d, h);
      assert Handles() == before.handles;
    }

    method Write(h: nat, source: seq<byte>) returns (reply: Reply)
      requires Valid()
      modifies fs.disk.sectors, files
      ensures Valid() && Step(old(Now()), Request.Write(h, source), reply, Now())
    {
      hide EntriesOf, BitMapFiles.MarksOf, DecodeHeader, Content, KeyOf, View, Groups, Union, Disjoint, DistinctKeys;
      hide Consistent, ValidHeader, HandlesGood, HeaderAt, Splice;
      Known(h);
      ghost var d, before := fs.disk.Contents(), Now();
      if h >= |files| || !live[h] {
        return NotLive;
      }
      var n := files[h].Write(source, |source|);
      reply := Wrote(n);
      WriteThrough(d, h);
      assert Handles() == before.handles[h := before.handles[h].(position := before.handles[h].position + n)];
    }

    method Serve(request: Request) returns (reply: Reply)
      requires Valid()
      requires request.Create? ==> request.size <= MaxFileSize
      modifies this, files, fs.disk.sectors
      ensures Valid() && (forall k :: 0 <= k < |files| ==> files[k] in old(files) || fresh(files[k]))
      ensures Step(old(Now()), request, reply, Now())
    {
      hide Step, Now, Valid;
      match request
      case Create(name, size) => reply := Create(name, size);
      case Remove(name) => reply := Remove(name);
      case Open(name) => reply := Open(name);
      case Close(h) => reply := Close(h);
      case Seek(h, position) => reply := Seek(h, position);
      case Read(h, numBytes) => reply := Read(h, numBytes);
      case Write(h, source) => reply := Write(h, source);
      case ReadAt(h, numBytes, position) => reply := ReadAt(h, numBytes, position);
      case WriteAt(h, source, position) => reply := WriteAt(h, source, position);
    }
  }

  lemma NothingToRetire(d: Image, gone: Key, headers: seq<Header>, keys: seq<Key>, live: seq<bool>)
    requires Consistent(d) && HandlesGood(d, headers, keys, live) && gone !in View(d)
    ensures forall i :: 0 <= i < |live| && live[i] ==> keys[i] != gone
  {
    hide EntriesOf, BitMapFiles.MarksOf, DecodeHeader, Content, KeyOf, View, Groups, Union, Disjoint, DistinctKeys, IsHandle;
    forall i | 0 <= i < |live| && live[i]
      ensures keys[i] in View(d)
    {
      HandleContent(d, headers[i], keys[i]);
    }
  }

  lemma OneMoreHandle(d: Image, headers: seq<Header>, keys: seq<Key>, live: seq<bool>, h: Header, key: Key)
    requires ListedFiles(d) && HandlesGood(d, headers, keys, live) && IsHandle(d, h, key)
    ensures HandlesGood(d, headers + [h], keys + [key], live + [true])
  {
    hide IsHandle, ListedFiles;
  }

  // ---------------------------------------------------------------- runs

  /** `states` is a run of the specification that answers `requests` with `replies`. */
  ghost predicate IsRun(states: seq<State>, requests: seq<Request>, replies: seq<Reply>) {
    && |states| == |requests| + 1 && |replies| == |requests|
    && forall i :: 0 <= i < |requests| ==> Step(states[i], requests[i], replies[i], states[i + 1])
  }

  lemma RunStep(states: seq<State>, requests: seq<Request>, replies: seq<Reply>, request: Request, reply: Reply, next: State)
    requires IsRun(states, requests, replies)
    requires Step(states[|requests|], request, reply, next)
    ensures IsRun(states + [next], requests + [request], replies + [reply])
  {
    hide Step;
  }

  /** In every run from no open files, the live handles stand for files that are listed. */
  lemma {:induction false} RunKeepsListed(states: seq<State>, requests: seq<Request>, replies: seq<Reply>, n: nat)
    requires IsRun(states, requests, replies) && states[0].handles == [] && n <= |requests|
    ensures LiveAreListed(states[n])
  {
    hide Step;
    if n > 0 {
      RunKeepsListed(states, requests, replies, n - 1);
      StepKeepsListed(states[n - 1], requests[n - 1], replies[n - 1], states[n]);
    }
  }

  /** Every sequence of requests, through any number of files that stay open meanwhile, is answered as the map from
      names to contents, and the positions of the handles, would. */
  method Run(session: Session, requests: seq<Request>) returns (replies: seq<Reply>, ghost states: seq<State>)
    requires session.Valid()
    requires forall i :: 0 <= i < |requests| && requests[i].Create? ==> requests[i].size <= MaxFileSize
    modifies session, session.files, session.fs.disk.sectors
    ensures session.Valid() && IsRun(states, requests, replies)
    ensures states[0] == old(session.Now()) && states[|requests|] == session.Now()
  {
    hide Step, Session.Now, Session.Valid;
    replies, states := [], [session.Now()];
    for i := 0 to |requests|
      invariant session.Valid()
      invariant forall k :: 0 <= k < |session.files| ==> session.files[k] in old(session.files) || fresh(session.files[k])
      invariant IsRun(states, requests[..i], replies)
      invariant states[0] == old(session.Now()) && states[i] == session.Now()
    {
      ghost var held := session.files;
      var reply := session.Serve(requests[i]);
      assert forall k :: 0 <= k < |session.files| && session.files[k] in held ==> session.files[k] in old(session.files) || fresh(session.files[k]);
      RunStep(states, requests[..i], replies, requests[i], reply, session.Now());
      assert requests[..i] + [requests[i]] == requests[..i + 1];
      replies, states := replies + [reply], states + [session.Now()];
    }
    assert requests[..|requests|] == requests;
  }

  /** From formatting on: the run starts with no files, all live handles always stand for files that are listed, and
      a file system that is opened again later starts from where the first one stopped. */
  method FormatRunReopen(disk: SectorDisk, requests: seq<Request>) returns (replies: seq<Reply>, reopened: FileSystem, ghost states: seq<State>)
    requires disk.Valid()
    requires forall i :: 0 <= i < |requests| && requests[i].Create? ==> requests[i].size <= MaxFileSize
    modifies disk.sectors
    ensures IsRun(states, requests, replies) && states[0] == State(map[], [])
    ensures forall i :: 0 <= i < |states| ==> LiveAreListed(states[i])
    ensures reopened.Valid() && reopened.disk == disk && View(disk.Contents()) == states[|requests|].files
  {
    hide View, Step, EntriesOf, BitMapFiles.MarksOf, DecodeHeader, Content, KeyOf, Groups, Union, Disjoint, DistinctKeys;
    hide HandlesGood;
    var fs := new FileSystem.Format(disk);
    var session := new Session(fs);
    replies, states := Run(session, requests);
    forall i | 0 <= i < |states|
      ensures LiveAreListed(states[i])
    {
      RunKeepsListed(states, requests, replies, i);
    }
    reopened := new FileSystem.Mount(disk);
  }
}
