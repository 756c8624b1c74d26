/** Machine bytes and 32-bit words as they sit on the simulated disk: little-endian, four bytes a word. */
module Bytes {

  type byte = b: int | 0 <= b < 256

  /** The bit pattern of a 32-bit int, read as an unsigned number. */
  type Word = w: int | 0 <= w < 0x1_0000_0000

  function ToBytes(w: Word): (s: seq<byte>)
    ensures |s| == 4
  {
    [w % 256, w / 256 % 256, w / 65536 % 256, w / 16777216]
  }

  function JoinBytes(b0: int, b1: int, b2: int, b3: int): int {
    b0 + 256 * b1 + 65536 * b2 + 16777216 * b3
  }

  function FromBytes(s: seq<byte>, at: nat): Word
    requires at + 4 <= |s|
  {
    JoinBytes(s[at], s[at + 1], s[at + 2], s[at + 3])
  }

  lemma SplitWord(w: Word)
    ensures JoinBytes(w % 256, w / 256 % 256, w / 65536 % 256, w / 16777216) == w
  {
    assert w / 65536 == (w / 256) / 256;
    assert w / 16777216 == (w / 65536) / 256;
  }

  lemma WordRoundTrip(w: Word)
    ensures FromBytes(ToBytes(w), 0) == w
  {
    SplitWord(w);
  }

  /** Four bytes make one word only. */
  lemma BytesRoundTrip(b0: byte, b1: byte, b2: byte, b3: byte)
    ensures 0 <= JoinBytes(b0, b1, b2, b3) < 0x1_0000_0000
    ensures ToBytes(JoinBytes(b0, b1, b2, b3)) == [b0, b1, b2, b3]
  {
    var w := JoinBytes(b0, b1, b2, b3);
    LastByte(w, b1 + 256 * b2 + 65536 * b3, b0);
    LastByte(w / 256, b2 + 256 * b3, b1);
    LastByte(w / 256 / 256, b3, b2);
    assert w / 65536 == w / 256 / 256;
    assert w / 16777216 == w / 65536 / 256;
  }

  lemma LastByte(w: int, high: int, low: byte)
    requires w == 256 * high + low
    ensures w / 256 == high && w % 256 == low
  {
  }

  /** A table of words as it lies in memory and on disk. */
  function WordsToBytes(words: seq<Word>): (s: seq<byte>)
    ensures |s| == 4 * |words|
  {
    seq(4 * |words|, i requires 0 <= i < 4 * |words| => ToBytes(words[i / 4])[i % 4])
  }

  lemma WordsRoundTrip(words: seq<Word>, k: nat)
    requires k < |words|
    ensures FromBytes(WordsToBytes(words), 4 * k) == words[k]
  {
    var s := WordsToBytes(words);
    assert s[4 * k] == ToBytes(words[k])[0];
    assert s[4 * k + 1] == ToBytes(words[k])[1];
    assert s[4 * k + 2] == ToBytes(words[k])[2];
    assert s[4 * k + 3] == ToBytes(words[k])[3];
    WordRoundTrip(words[k]);
  }

  /** `s` with the stretch that starts at `at` overwritten by `patch`. */
  function Splice<T>(s: seq<T>, at: nat, patch: seq<T>): (r: seq<T>)
    requires at + |patch| <= |s|
    ensures |r| == |s|
    ensures forall i :: 0 <= i < |s| ==> r[i] == if at <= i < at + |patch| then patch[i - at] else s[i]
  {
    s[..at] + patch + s[at + |patch|..]
  }

  /** The C library's bcopy: `source` goes into `target` from index `at` on. */
  method Bcopy(source: seq<byte>, target: array<byte>, at: nat)
    requires at + |source| <= target.Length
    modifies target
    ensures target[..] == Splice(old(target[..]), at, source)
  {
    ghost var before := target[..];
    for k := 0 to |source|
      invariant target[..] == Splice(before, at, source[..k])
    {
      target[at + k] := source[k];
    }
    assert source[..|source|] == source;
  }

  // ---------------------------------------------------------------- bits of a word

  function Pow2(n: nat): (p: int)
    ensures p > 0
  {
    if n == 0 then 1 else 2 * Pow2(n - 1)
  }

  /** `w & (1 << k)` is not zero. */
  predicate TestBit(w: nat, k: nat) {
    if k == 0 then w % 2 == 1 else TestBit(w / 2, k - 1)
  }

  /** `w | (1 << k)` */
  function SetBit(w: nat, k: nat): nat {
    if TestBit(w, k) then w else w + Pow2(k)
  }

  /** `w & ~(1 << k)` */
  function ClearBit(w: nat, k: nat): nat
  {
    BitFits(w, k);
    if TestBit(w, k) then w - Pow2(k) else w
  }

  lemma {:induction false} BitFits(w: nat, k: nat)
    ensures TestBit(w, k) ==> w >= Pow2(k)
  {
    if k > 0 {
      BitFits(w / 2, k - 1);
    }
  }

  /** Setting a bit of a word sets that bit and no other. */
  lemma {:induction false} SetBitSpec(w: nat, i: nat, j: nat)
    ensures TestBit(SetBit(w, i), j) <==> i == j || TestBit(w, j)
  {
    if i > 0 {
      assert SetBit(w, i) == 2 * SetBit(w / 2, i - 1) + w % 2;
      if j > 0 {
        SetBitSpec(w / 2, i - 1, j - 1);
        assert SetBit(w, i) / 2 == SetBit(w / 2, i - 1);
      }
    } else if j > 0 {
      assert SetBit(w, 0) / 2 == w / 2;
    }
  }

  /** Clearing a bit of a word clears that bit and no other. */
  lemma {:induction false} ClearBitSpec(w: nat, i: nat, j: nat)
    ensures TestBit(ClearBit(w, i), j) <==> i != j && TestBit(w, j)
  {
    BitFits(w, i);
    if i > 0 {
      BitFits(w / 2, i - 1);
      assert ClearBit(w, i) == 2 * ClearBit(w / 2, i - 1) + w % 2;
      if j > 0 {
        ClearBitSpec(w / 2, i - 1, j - 1);
        assert ClearBit(w, i) / 2 == ClearBit(w / 2, i - 1);
      }
    } else if j > 0 {
      assert ClearBit(w, 0) / 2 == w / 2;
    }
  }

  /** A word of `n` bits keeps its width when a bit below `n` is set. */
  lemma {:induction false} SetBitWidth(w: nat, k: nat, n: nat)
    requires w < Pow2(n) && k < n
    ensures SetBit(w, k) < Pow2(n)
  {
    if k > 0 {
      SetBitWidth(w / 2, k - 1, n - 1);
      assert SetBit(w, k) == 2 * SetBit(w / 2, k - 1) + w % 2;
    }
  }

  lemma SetBitInWord(w: Word, k: nat)
    requires k < 32
    ensures 0 <= SetBit(w, k) < 0x1_0000_0000
  {
    WordWidth();
    SetBitWidth(w, k, 32);
  }

  /** A word has 32 bits. */
  lemma WordWidth()
    ensures Pow2(32) == 0x1_0000_0000 && Pow2(31) == 0x8000_0000
  {
    assert Pow2(4) == 16;
    assert Pow2(8) == 256 by { Pow2Sum(4, 4); }
    assert Pow2(16) == 65536 by { Pow2Sum(8, 8); }
    assert Pow2(32) == 0x1_0000_0000 by { Pow2Sum(16, 16); }
    assert Pow2(32) == 2 * Pow2(31);
  }

  lemma {:induction false} Pow2Sum(m: nat, n: nat)
    ensures Pow2(m + n) == Pow2(m) * Pow2(n)
  {
    if m > 0 {
      Pow2Sum(m - 1, n);
    }
  }
}
