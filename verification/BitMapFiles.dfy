/** The bitmap as the contents of a file: BitMap::FetchFrom and BitMap::WriteBack. */
module BitMapFiles {
  import opened Bits
  import opened Bytes
  import opened SectorDisks
  import opened BitMaps
  import opened FileHeaders
  import opened OpenFiles

  function WordsOf(s: seq<byte>): (words: seq<Word>)
    ensures |words| == |s| / 4
  {
    seq(|s| / 4, i requires 0 <= i < |s| / 4 => FromBytes(s, 4 * i))
  }

  lemma WordsOfBytes(words: seq<Word>)
    ensures WordsOf(WordsToBytes(words)) == words
  {
    forall i: nat | i < |words|
      ensures FromBytes(WordsToBytes(words), 4 * i) == words[i]
    {
      WordsRoundTrip(words, i);
    }
  }

  /** The sectors that the bytes of a bitmap file mark. */
  function MarksOf(s: seq<byte>): (marks: set<nat>)
    ensures forall i :: i in marks ==> i < 8 * |s|
  {
    Marks(WordsOf(s), BitsInWord * (|s| / 4))
  }

  /** Sector `i` is marked by bit i % 8 of byte i / 8 of the file. */
  lemma MarkedByBit(s: seq<byte>, i: nat)
    requires |s| % 4 == 0 && i < 8 * |s|
    ensures i in MarksOf(s) <==> TestBit(s[i / 8], i % 8)
  {
    hide TestBit;
    var at, k := i / 32 * 4, i % 32;
    assert BitsInWord * (|s| / 4) == 8 * |s|;
    assert WordsOf(s)[i / 32] == FromBytes(s, at);
    assert i / 8 == at + k / 8 && i % 8 == k % 8;
    BitOfByte(s[at], s[at + 1], s[at + 2], s[at + 3], k);
  }

  lemma BitOfByte(b0: byte, b1: byte, b2: byte, b3: byte, k: nat)
    requires k < 32
    ensures TestBit(JoinBytes(b0, b1, b2, b3), k) <==> TestBit([b0, b1, b2, b3][k / 8], k % 8)
  {
    hide TestBit;
    assert Pow2(8) == 256;
    hide Pow2;
    var w1, w2 := b1 + 256 * (b2 + 256 * b3), b2 + 256 * b3;
    assert JoinBytes(b0, b1, b2, b3) == w1 * 256 + b0;
    BitsOfParts(w1, b0, 8, k);
    if k >= 8 {
      BitsOfParts(w2, b1, 8, k - 8);
      if k >= 16 {
        BitsOfParts(b3, b2, 8, k - 16);
      }
    }
  }

  method FetchFrom(freeMap: BitMap, file: OpenFile)
    requires freeMap.Valid() && file.Valid()
    requires file.hdr.numBytes == 4 * freeMap.numWords && freeMap.numBits == BitsInWord * freeMap.numWords
    modifies freeMap.words
    ensures freeMap.Marked() == MarksOf(old(file.Bytes()))
  {
    var raw := file.ReadWhole(4 * freeMap.numWords);
    ghost var words := WordsOf(raw);
    for i := 0 to freeMap.numWords
      invariant freeMap.words[..i] == words[..i]
    {
      freeMap.words[i] := FromBytes(raw, 4 * i);
    }
    assert freeMap.words[..] == freeMap.words[..freeMap.numWords] == words;
  }

  method WriteBack(freeMap: BitMap, file: OpenFile)
    requires freeMap.Valid() && file.Valid()
    requires file.hdr.numBytes == 4 * freeMap.numWords && freeMap.numBits == BitsInWord * freeMap.numWords
    modifies file.disk.sectors
    ensures MarksOf(file.Bytes()) == freeMap.Marked()
    ensures forall s :: 0 <= s < NumSectors && s !in DataSectors(file.hdr.Value()) ==>
              file.disk.Contents()[s] == old(file.disk.Contents())[s]
  {
    var bytes := WordsToBytes(freeMap.words[..]);
    WordsOfBytes(freeMap.words[..]);
    var n := file.WriteAt(bytes, 4 * freeMap.numWords, 0);
    assert bytes[..n] == bytes;
    assert file.Bytes() == bytes;
  }
}
