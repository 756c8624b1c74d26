/** Words bit by bit: the bitwise operators, and where shifting moves each bit. */
module Bits {
  import opened Bytes

  // ---------------------------------------------------------------- bits of sums and quotients

  lemma {:induction false} ZeroHasNoBits(k: nat)
    ensures !TestBit(0, k)
  {
    if k > 0 {
      ZeroHasNoBits(k - 1);
    }
  }

  /** The bits of a number made of a high and a low part are those of the parts. */
  lemma {:induction false} BitsOfParts(high: nat, low: nat, n: nat, k: nat)
    requires low < Pow2(n)
    ensures 0 <= high * Pow2(n) + low
    ensures TestBit(high * Pow2(n) + low, k) <==> if k < n then TestBit(low, k) else TestBit(high, k - n)
    decreases n
  {
    if n > 0 {
      var half := Pow2(n - 1);
      DoubledPart(high, half);
      var w := high * Pow2(n) + low;
      assert w == 2 * (high * half + low / 2) + low % 2;
      if k > 0 {
        BitsOfParts(high, low / 2, n - 1, k - 1);
        assert w / 2 == high * half + low / 2;
      }
    }
  }

  lemma DoubledPart(high: nat, half: nat)
    ensures high * (2 * half) == 2 * (high * half) && high * half >= 0
  {
  }

  /** Quotient and remainder by a power of two are a high and a low part. */
  lemma Parts(w: nat, n: nat)
    ensures 0 <= w / Pow2(n) && w == w / Pow2(n) * Pow2(n) + w % Pow2(n) && 0 <= w % Pow2(n) < Pow2(n)
  {
    var p := Pow2(n);
    PartsBy(w, p);
  }

  lemma PartsBy(w: nat, p: nat)
    requires p > 0
    ensures 0 <= w / p && w == w / p * p + w % p && 0 <= w % p < p
  {
  }

  lemma BitOfQuotient(w: nat, n: nat, k: nat)
    ensures 0 <= w / Pow2(n)
    ensures TestBit(w / Pow2(n), k) <==> TestBit(w, k + n)
  {
    hide TestBit, Pow2;
    Parts(w, n);
    BitsOfParts(w / Pow2(n), w % Pow2(n), n, k + n);
  }

  /** Bit `k` is what is left of division by 2^k, modulo 2. */
  lemma BitIsDigit(w: nat, k: nat)
    ensures TestBit(w, k) <==> w / Pow2(k) % 2 == 1
  {
    BitOfQuotient(w, k, 0);
  }

  lemma BitOfRemainder(w: nat, n: nat, k: nat)
    ensures 0 <= w % Pow2(n)
    ensures TestBit(w % Pow2(n), k) <==> k < n && TestBit(w, k)
  {
    hide TestBit, Pow2;
    Parts(w, n);
    var low := w % Pow2(n);
    BitsOfParts(w / Pow2(n), low, n, k);
    BitsOfParts(0, low, n, k);
    if k >= n {
      ZeroHasNoBits(k - n);
    }
  }

  lemma BitOfMultiple(w: nat, n: nat, k: nat)
    ensures 0 <= w * Pow2(n)
    ensures TestBit(w * Pow2(n), k) <==> k >= n && TestBit(w, k - n)
  {
    hide TestBit, Pow2;
    BitsOfParts(w, 0, n, k);
    ZeroHasNoBits(k);
  }

  lemma {:induction false} AllOnes(n: nat, k: nat)
    ensures TestBit(Pow2(n) - 1, k) <==> k < n
  {
    if n == 0 {
      ZeroHasNoBits(k);
    } else if k > 0 {
      AllOnes(n - 1, k - 1);
      assert (Pow2(n) - 1) / 2 == Pow2(n - 1) - 1;
    }
  }

  lemma {:induction false} ComplementBits(w: nat, n: nat, k: nat)
    requires w < Pow2(n) && k < n
    ensures 0 <= Pow2(n) - 1 - w && (TestBit(Pow2(n) - 1 - w, k) <==> !TestBit(w, k))
  {
    var c := Pow2(n) - 1 - w;
    assert c / 2 == Pow2(n - 1) - 1 - w / 2 && c % 2 == 1 - w % 2;
    if k > 0 {
      ComplementBits(w / 2, n - 1, k - 1);
    }
  }

  lemma TopBit(w: Word)
    ensures TestBit(w, 31) <==> w >= 0x8000_0000
  {
    WordWidth();
    hide Pow2;
    BitOfQuotient(w, 31, 0);
    assert w / 0x8000_0000 == if w >= 0x8000_0000 then 1 else 0;
  }

  /** A number below a power of two is determined by its bits. */
  lemma {:induction false} SameBits(v: nat, w: nat, n: nat)
    requires v < Pow2(n) && w < Pow2(n)
    requires forall k :: 0 <= k < n ==> (TestBit(v, k) <==> TestBit(w, k))
    ensures v == w
  {
    if n > 0 {
      assert TestBit(v, 0) <==> TestBit(w, 0);
      forall k | 0 <= k < n - 1
        ensures TestBit(v / 2, k) <==> TestBit(w / 2, k)
      {
        assert TestBit(v, k + 1) <==> TestBit(w, k + 1);
      }
      SameBits(v / 2, w / 2, n - 1);
    }
  }

  // ---------------------------------------------------------------- bitwise operators

  datatype BitOp = AndOp | OrOp | XorOp

  predicate Apply(op: BitOp, x: bool, y: bool) {
    match op
    case AndOp => x && y
    case OrOp => x || y
    case XorOp => x != y
  }

  /** The operator on the low `n` bits. */
  function Bitwise(op: BitOp, v: nat, w: nat, n: nat): (r: nat)
    ensures r < Pow2(n)
  {
    if n == 0 then 0
    else 2 * Bitwise(op, v / 2, w / 2, n - 1) + if Apply(op, v % 2 == 1, w % 2 == 1) then 1 else 0
  }

  lemma {:induction false} BitwiseBits(op: BitOp, v: nat, w: nat, n: nat, k: nat)
    requires k < n
    ensures TestBit(Bitwise(op, v, w, n), k) <==> Apply(op, TestBit(v, k), TestBit(w, k))
  {
    hide Apply;
    var r := Bitwise(op, v, w, n);
    assert r / 2 == Bitwise(op, v / 2, w / 2, n - 1);
    if k > 0 {
      BitwiseBits(op, v / 2, w / 2, n - 1, k - 1);
    }
  }

  function WordOp(op: BitOp, v: Word, w: Word): Word {
    WordWidth();
    Bitwise(op, v, w, 32)
  }
}
