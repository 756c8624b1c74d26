/** The bitmap of free sectors, held as an array of 32-bit words. */
module BitMaps {
  import opened Bytes

  const BitsInWord := 32

  /** The numbers below `n` whose bit is set. */
  function Marks(words: seq<Word>, n: nat): (marks: set<nat>)
    requires n <= BitsInWord * |words|
    ensures forall i :: i in marks ==> i < n
  {
    set i: nat | i < n && TestBit(words[i / BitsInWord], i % BitsInWord)
  }

  lemma MarksAfter(words: seq<Word>, changed: seq<Word>, n: nat, which: nat, w: Word, marks: set<nat>)
    requires which < n <= BitsInWord * |words|
    requires changed == words[which / BitsInWord := w]
    requires forall k :: 0 <= k < BitsInWord && k != which % BitsInWord ==>
                           (TestBit(w, k) <==> TestBit(words[which / BitsInWord], k))
    requires marks == Marks(words, n)
    ensures Marks(changed, n) == if TestBit(w, which % BitsInWord) then marks + {which} else marks - {which}
  {
    forall i: nat | i < n && i != which
      ensures i in Marks(changed, n) <==> i in marks
    {
      if i / BitsInWord == which / BitsInWord {
        assert i % BitsInWord != which % BitsInWord;
      }
    }
    assert which in Marks(changed, n) <==> TestBit(w, which % BitsInWord);
  }

  lemma MarkSpec(words: seq<Word>, changed: seq<Word>, n: nat, which: nat)
    requires which < n <= BitsInWord * |words|
    requires var w := which / BitsInWord;
             SetBit(words[w], which % BitsInWord) < 0x1_0000_0000 &&
             changed == words[w := SetBit(words[w], which % BitsInWord)]
    ensures Marks(changed, n) == Marks(words, n) + {which}
  {
    var w, b := words[which / BitsInWord], which % BitsInWord;
    forall k | 0 <= k < BitsInWord
      ensures TestBit(SetBit(w, b), k) <==> k == b || TestBit(w, k)
    {
      SetBitSpec(w, b, k);
    }
    MarksAfter(words, changed, n, which, SetBit(w, b), Marks(words, n));
  }

  lemma ClearSpec(words: seq<Word>, changed: seq<Word>, n: nat, which: nat)
    requires which < n <= BitsInWord * |words|
    requires var w := which / BitsInWord;
             changed == words[w := ClearBit(words[w], which % BitsInWord)]
    ensures Marks(changed, n) == Marks(words, n) - {which}
  {
    var w, b := words[which / BitsInWord], which % BitsInWord;
    forall k | 0 <= k < BitsInWord
      ensures TestBit(ClearBit(w, b), k) <==> k != b && TestBit(w, k)
    {
      ClearBitSpec(w, b, k);
    }
    MarksAfter(words, changed, n, which, ClearBit(w, b), Marks(words, n));
  }

  /** A set of numbers below `n` has at most `n` of them, and `n` exactly when it has them all. */
  lemma {:induction false} AllMarked(marks: set<nat>, n: nat)
    requires forall i :: i in marks ==> i < n
    ensures |marks| <= n
    ensures |marks| == n <==> forall i :: 0 <= i < n ==> i in marks
  {
    if n > 0 {
      var rest := marks - {n - 1};
      AllMarked(rest, n - 1);
      if n - 1 in marks {
        assert marks == rest + {n - 1};
      } else {
        assert marks == rest;
      }
    }
  }

  class BitMap {
    const numBits: nat
    const numWords: nat
    const words: array<Word>

    ghost predicate Valid()
      reads this
    {
      words.Length == numWords && numBits <= BitsInWord * numWords
    }

    ghost function Marked(): (marks: set<nat>)
      requires Valid()
      reads this, words
      ensures forall i :: i in marks ==> i < numBits
    {
      Marks(words[..], numBits)
    }

    constructor (nitems: nat)
      ensures Valid() && fresh(words) && numBits == nitems
      ensures numWords == (nitems + BitsInWord - 1) / BitsInWord
      ensures Marked() == {}
    {
      numBits := nitems;
      numWords := nitems / BitsInWord + (if nitems % BitsInWord > 0 then 1 else 0);
      words := new Word[nitems / BitsInWord + (if nitems % BitsInWord > 0 then 1 else 0)];
      new;
      for i := 0 to numBits
        invariant forall k :: 0 <= k < i ==> k !in Marked()
      {
        Clear(i);
      }
    }

    method Mark(which: nat)
      requires Valid() && which < numBits
      modifies words
      ensures Marked() == old(Marked()) + {which}
    {
      ghost var before := words[..];
      SetBitInWord(words[which / BitsInWord], which % BitsInWord);
      words[which / BitsInWord] := SetBit(words[which / BitsInWord], which % BitsInWord);
      MarkSpec(before, words[..], numBits, which);
    }

    method Clear(which: nat)
      requires Valid() && which < numBits
      modifies words
      ensures Marked() == old(Marked()) - {which}
    {
      ghost var before := words[..];
      words[which / BitsInWord] := ClearBit(words[which / BitsInWord], which % BitsInWord);
      ClearSpec(before, words[..], numBits, which);
    }

    method Test(which: nat) returns (isSet: bool)
      requires Valid() && which < numBits
      ensures isSet <==> which in Marked()
    {
      isSet := TestBit(words[which / BitsInWord], which % BitsInWord);
    }

    /** Marks and returns the least clear bit, or returns -1 when every bit is set. */
    method Find() returns (found: int)
      requires Valid()
      modifies words
      ensures found == -1 ==> |old(Marked())| == numBits && Marked() == old(Marked())
      ensures found != -1 ==>
                && 0 <= found < numBits && found !in old(Marked())
                && (forall k :: 0 <= k < found ==> k in old(Marked()))
                && Marked() == old(Marked()) + {found}
    {
      for i := 0 to numBits
        invariant words[..] == old(words[..])
        invariant forall k :: 0 <= k < i ==> k in old(Marked())
      {
        var isSet := Test(i);
        if !isSet {
          Mark(i);
          return i;
        }
      }
      AllMarked(Marked(), numBits);
      return -1;
    }

    method NumClear() returns (count: nat)
      requires Valid()
      ensures count + |Marked()| == numBits
    {
      count := 0;
      ghost var seen: set<nat> := {};
      for i := 0 to numBits
        invariant seen == set k: nat | k < i && k in Marked()
        invariant count + |seen| == i
      {
        var isSet := Test(i);
        if isSet {
          seen := seen + {i};
        } else {
          count := count + 1;
        }
      }
      assert seen == Marked();
    }
  }
}
