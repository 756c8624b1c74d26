/** Copying a host file into the file system and printing it again, a few bytes at a time. */
module FsTest {
  import opened Bytes
  import opened SectorDisks
  import BitMapFiles
  import opened FileHeaders
  import opened OpenFiles
  import opened Directories
  import opened DiskLayout
  import opened DiskSteps
  import opened FileSystems
  import opened FileSystemRuns

  const TransferSize := 10

  /** A host file that is being read: fread delivers some positive number of the bytes that are left, at most as
      many as were asked for, and nothing only at the end. `chunks` decides how many each time. */
  class HostFile {
    const bytes: seq<byte>
    const chunks: nat -> nat
    var position: nat
    var calls: nat

    constructor (bytes: seq<byte>, chunks: nat -> nat)
      ensures this.bytes == bytes && this.chunks == chunks && position == 0 && calls == 0
    {
      this.bytes, this.chunks, position, calls := bytes, chunks, 0, 0;
    }

    method Read(size: nat) returns (buffer: seq<byte>)
      requires position <= |bytes| && size > 0
      modifies this
      ensures old(position) <= position <= |bytes| && buffer == bytes[old(position)..position] && |buffer| <= size
      ensures |buffer| == 0 <==> old(position) == |bytes|
    {
      var left := |bytes| - position;
      var most := if left < size then left else size;
      var n := if most == 0 then 0 else 1 + chunks(calls) % most;
      buffer := bytes[position..position + n];
      position, calls := position + n, calls + 1;
    }
  }

  /** Copies the host file into a new Nachos file; nothing is written when that file cannot be created. */
  method Copy(fs: FileSystem, from: HostFile, to: seq<byte>) returns (copied: bool)
    requires fs.Valid() && from.position == 0 && |from.bytes| <= MaxFileSize
    modifies fs.disk.sectors, from
    ensures fs.Valid()
    ensures var m, n := View(old(fs.disk.Contents())), View(fs.disk.Contents());
            && (copied <==> KeyOf(to) !in m && |m| < NumDirEntries)
            && n == if copied then m[KeyOf(to) := from.bytes] else m
  {
    hide EntriesOf, BitMapFiles.MarksOf, DecodeHeader, Content, KeyOf, View, NewFile, Groups, Union, Disjoint, DistinctKeys;
    ghost var d := fs.disk.Contents();
    copied := fs.Create(to, |from.bytes|);
    if copied {
      NewFileView(d, fs.disk.Contents(), to, |from.bytes|);
      var openFile := fs.Open(to);
      assert openFile != null;
      HandleContent(fs.disk.Contents(), openFile.hdr.Value(), KeyOf(to));
      CopyLoop(fs, from, to, openFile);
    }
  }

  /** The transfer loop of Copy: the seek position is the number of bytes moved so far. */
  method CopyLoop(fs: FileSystem, from: HostFile, to: seq<byte>, openFile: OpenFile)
    requires fs.Valid() && from.position == 0
    requires openFile.Valid() && openFile.disk == fs.disk && openFile.seekPosition == 0
    requires openFile.hdr != fs.freeMapFile.hdr && openFile.hdr != fs.directoryFile.hdr
    requires openFile != fs.freeMapFile && openFile != fs.directoryFile
    requires IsHandle(fs.disk.Contents(), openFile.hdr.Value(), KeyOf(to)) && openFile.hdr.numBytes == |from.bytes|
    modifies fs.disk.sectors, from, openFile
    ensures fs.Valid()
    ensures View(fs.disk.Contents()) == View(old(fs.disk.Contents()))[KeyOf(to) := from.bytes]
  {
    hide EntriesOf, BitMapFiles.MarksOf, DecodeHeader, Content, KeyOf, View, Groups, Union, Disjoint, DistinctKeys, ValidHeader, Sectors;
    ghost var m, key := View(fs.disk.Contents()), KeyOf(to);
    HandleContent(fs.disk.Contents(), openFile.hdr.Value(), key);
    var buffer := from.Read(TransferSize);
    while |buffer| > 0
      invariant fs.Valid() && openFile.Valid()
      invariant from.position <= |from.bytes| && openFile.hdr.numBytes == |from.bytes|
      invariant openFile.seekPosition + |buffer| == from.position
      invariant buffer == from.bytes[openFile.seekPosition..from.position]
      invariant |buffer| == 0 ==> from.position == |from.bytes|
      invariant IsHandle(fs.disk.Contents(), openFile.hdr.Value(), key)
      invariant openFile.Bytes()[..openFile.seekPosition] == from.bytes[..openFile.seekPosition]
      invariant View(fs.disk.Contents()) == m[key := openFile.Bytes()]
      decreases |from.bytes| - openFile.seekPosition
    {
      ghost var before, at := openFile.Bytes(), openFile.seekPosition;
      CopyChunk(fs, openFile, buffer, key, m);
      CopiedSoFar(before, openFile.Bytes(), from.bytes, at, buffer);
      buffer := from.Read(TransferSize);
    }
    assert openFile.Bytes() == openFile.Bytes()[..openFile.seekPosition];
    assert from.bytes == from.bytes[..openFile.seekPosition];
  }

  lemma CopiedSoFar(before: seq<byte>, after: seq<byte>, bytes: seq<byte>, at: nat, chunk: seq<byte>)
    requires |before| == |bytes| && at + |chunk| <= |bytes|
    requires before[..at] == bytes[..at] && chunk == bytes[at..at + |chunk|]
    requires after == Splice(before, at, chunk)
    ensures after[..at + |chunk|] == bytes[..at + |chunk|]
  {
    forall k: nat | k < at + |chunk|
      ensures after[k] == bytes[k]
    {
      if k < at {
        assert before[..at][k] == bytes[..at][k];
      }
    }
  }

  /** One round of the transfer loop of Copy. */
  method CopyChunk(fs: FileSystem, openFile: OpenFile, buffer: seq<byte>, ghost key: Key, ghost m: Files)
    requires fs.Valid() && openFile.Valid() && openFile.disk == fs.disk
    requires openFile.hdr != fs.freeMapFile.hdr && openFile.hdr != fs.directoryFile.hdr
    requires openFile != fs.freeMapFile && openFile != fs.directoryFile
    requires |buffer| > 0 && openFile.seekPosition + |buffer| <= openFile.hdr.numBytes
    requires IsHandle(fs.disk.Contents(), openFile.hdr.Value(), key)
    requires View(fs.disk.Contents()) == m[key := openFile.Bytes()]
    modifies fs.disk.sectors, openFile
    ensures fs.Valid() && openFile.Valid() && openFile.seekPosition == old(openFile.seekPosition) + |buffer|
    ensures IsHandle(fs.disk.Contents(), openFile.hdr.Value(), key)
    ensures openFile.Bytes() == Splice(old(openFile.Bytes()), old(openFile.seekPosition), buffer)
    ensures View(fs.disk.Contents()) == m[key := openFile.Bytes()]
  {
    hide EntriesOf, BitMapFiles.MarksOf, DecodeHeader, Content, KeyOf, View, Groups, Union, Disjoint, DistinctKeys, ValidHeader, Sectors;
    ghost var d, h := fs.disk.Contents(), openFile.hdr.Value();
    var n := openFile.Write(buffer, |buffer|);
    assert buffer[..n] == buffer;
    WrittenThroughHandle(d, fs.disk.Contents(), h, key);
  }

  /** Prints the named file, if there is one, and returns what was printed. */
  method Print(fs: FileSystem, name: seq<byte>) returns (output: seq<byte>)
    requires fs.Valid()
    ensures var m := View(fs.disk.Contents()); output == if KeyOf(name) in m then m[KeyOf(name)] else []
  {
    hide EntriesOf, BitMapFiles.MarksOf, DecodeHeader, Content, KeyOf, View, Groups, Union, Disjoint, DistinctKeys;
    output := [];
    var openFile := fs.Open(name);
    if openFile == null {
      return;
    }
    HandleContent(fs.disk.Contents(), openFile.hdr.Value(), KeyOf(name));
    output := PrintLoop(openFile);
  }

  method PrintLoop(openFile: OpenFile) returns (output: seq<byte>)
    requires openFile.Valid() && openFile.seekPosition == 0
    modifies openFile
    ensures output == openFile.Bytes()
  {
    hide Content, ValidHeader, Splice;
    output := [];
    var buffer := new byte[TransferSize];
    var amountRead: nat := ReadChunk(openFile, buffer);
    while amountRead > 0
      invariant openFile.Valid() && amountRead <= buffer.Length
      invariant openFile.seekPosition <= |openFile.Bytes()|
      invariant |output| + amountRead == openFile.seekPosition
      invariant output + buffer[..amountRead] == openFile.Bytes()[..openFile.seekPosition]
      invariant amountRead == 0 ==> openFile.seekPosition == |openFile.Bytes()|
      decreases |openFile.Bytes()| - |output|
    {
      ghost var before := output;
      for i := 0 to amountRead
        invariant output == before + buffer[..i]
      {
        output := output + [buffer[i]];
      }
      amountRead := ReadChunk(openFile, buffer);
    }
  }

  /** One call of Read in the loop of Print. */
  method ReadChunk(openFile: OpenFile, buffer: array<byte>) returns (amountRead: nat)
    requires openFile.Valid() && openFile.seekPosition <= openFile.hdr.numBytes && buffer.Length == TransferSize
    modifies openFile, buffer
    ensures openFile.Valid() && openFile.Bytes() == old(openFile.Bytes())
    ensures openFile.seekPosition == old(openFile.seekPosition) + amountRead <= |openFile.Bytes()|
    ensures amountRead <= TransferSize
    ensures buffer[..amountRead] == openFile.Bytes()[old(openFile.seekPosition)..openFile.seekPosition]
    ensures amountRead == 0 ==> openFile.seekPosition == |openFile.Bytes()|
  {
    hide Content, ValidHeader;
    amountRead := openFile.Read(buffer, TransferSize);
  }

  /** What is copied is what is printed, for every file that fits and every way the host delivers it. */
  method CopyThenPrint(fs: FileSystem, from: HostFile, to: seq<byte>) returns (copied: bool, output: seq<byte>)
    requires fs.Valid() && from.position == 0 && |from.bytes| <= MaxFileSize
    modifies fs.disk.sectors, from
    ensures copied <==> KeyOf(to) !in View(old(fs.disk.Contents())) && |View(old(fs.disk.Contents()))| < NumDirEntries
    ensures copied ==> output == from.bytes
  {
    copied := Copy(fs, from, to);
    output := Print(fs, to);
  }
}
