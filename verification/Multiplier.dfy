/** The multiply unit: shift and add on words of any width; the simulated machine has 32 bits. */
module Multiplier {
  import opened Bytes

  // ---------------------------------------------------------------- words as ints

  /** `x` is the value of a signed word of `w` bits. */
  predicate IsSigned(w: nat, x: int)
    requires w > 0
  {
    -Pow2(w - 1) <= x < Pow2(w - 1)
  }

  /** The cast of a signed word to unsigned. */
  function Unsigned(w: nat, x: int): (u: nat)
    requires w > 0 && IsSigned(w, x)
    ensures u < Pow2(w)
  {
    if x < 0 then x + Pow2(w) else x
  }

  /** The cast of an unsigned word to signed. */
  function Signed(w: nat, u: nat): (x: int)
    requires w > 0 && u < Pow2(w)
    ensures IsSigned(w, x) && Unsigned(w, x) == u
  {
    if u < Pow2(w - 1) then u else u - Pow2(w)
  }

  /** Negation of a signed word; the most negative word is its own negative. */
  function Negated(w: nat, x: int): (y: int)
    requires w > 0 && IsSigned(w, x)
    ensures IsSigned(w, y)
    ensures x < 0 ==> Unsigned(w, y) == -x
  {
    if x == -Pow2(w - 1) then x else -x
  }

  /** The number that two unsigned words make together. */
  function Double(w: nat, hi: int, lo: int): int {
    hi * Pow2(w) + lo
  }

  // ---------------------------------------------------------------- double-word arithmetic

  lemma TimesMonotone(m: nat, p: int, q: int)
    requires p <= q
    ensures m * p <= m * q
  {
  }

  lemma HighWordFits(m: nat, hi: int, lo: nat)
    requires hi * m + lo < m * m
    ensures hi < m
  {
    if hi >= m {
      TimesMonotone(m, m, hi);
    }
  }

  /** Adding low words with a carry into the high words adds the double words, when the sum fits. */
  lemma AddWithCarry(m: nat, hi: nat, lo: nat, bHi: nat, bLo: nat)
    requires lo < m && bLo < m && (hi * m + lo) + (bHi * m + bLo) < m * m
    ensures var l := (lo + bLo) % m;
            var c := if l < bLo then 1 else 0;
            l == lo + bLo - c * m && hi + c + bHi < m && (hi + c + bHi) * m + l == (hi * m + lo) + (bHi * m + bLo)
  {
    var l := (lo + bLo) % m;
    var c := if lo + bLo >= m then 1 else 0;
    SmallMod(lo + bLo, m);
    assert (hi + c + bHi) * m + l == (hi * m + lo) + (bHi * m + bLo);
    HighWordFits(m, hi + c + bHi, l);
  }

  lemma SmallMod(x: nat, m: nat)
    requires m > 0 && x < 2 * m
    ensures x % m == if x < m then x else x - m
  {
    var q := x / m;
    assert x == m * q + x % m;
    if q >= 2 {
      TimesMonotone(m, 2, q);
    } else if q <= -1 {
      TimesMonotone(m, q, -1);
    }
  }

  /** Shifting both words left by one, the top bit of the low one moving over, doubles the double word. */
  lemma ShiftDouble(m: nat, half: nat, bHi: nat, bLo: nat)
    requires m == 2 * half && bLo < m && 2 * (bHi * m + bLo) < m * m
    ensures var c := if bLo >= half then 1 else 0;
            (2 * bLo) % m == 2 * bLo - c * m && 2 * bHi + c < m && (2 * bHi + c) * m + (2 * bLo) % m == 2 * (bHi * m + bLo)
  {
    var c := if bLo >= half then 1 else 0;
    SmallMod(2 * bLo, m);
    assert (2 * bHi + c) * m + (2 * bLo) % m == 2 * (bHi * m + bLo);
    HighWordFits(m, 2 * bHi + c, (2 * bLo) % m);
  }

  /** Complementing both words and adding one, with a carry, negates the double word modulo its width. */
  lemma NegateDouble(m: nat, hi: nat, lo: nat)
    requires hi < m && lo < m && m > 0
    ensures var l := (m - 1 - lo + 1) % m;
            var h := if l == 0 then (m - 1 - hi + 1) % m else m - 1 - hi;
            (h * m + l) + (hi * m + lo) == (if hi == 0 && lo == 0 then 0 else m * m)
  {
    if lo == 0 {
      SmallMod(m, m);
      SmallMod(m - hi, m);
      assert (m - hi) * m + hi * m == m * m;
    } else {
      SmallMod(m - lo, m);
      assert (m - 1 - hi) * m + hi * m == m * m - m;
    }
  }

  /** Where the loop of Mult stands after `i` rounds: `rest` is what is left of the magnitude `u` of the first
      operand, `a` the word that is shifted, bHi:bLo the shifted second operand and hi:lo the sum so far. */
  ghost predicate Multiplying(w: nat, i: nat, u: nat, negative: bool, b: nat, rest: int, a: int, bHi: int, bLo: int, hi: int, lo: int) {
    && i <= w && 0 <= rest < Pow2(w - i)
    && a == (if negative then rest - Pow2(w - i) else rest)
    && 0 <= bHi < Pow2(w) && 0 <= bLo < Pow2(w) && 0 <= hi < Pow2(w) && 0 <= lo < Pow2(w)
    && Double(w, bHi, bLo) == Pow2(i) * b
    && Double(w, hi, lo) + rest * Double(w, bHi, bLo) == u * b
  }

  /** The sum after the addition of a round, which takes place when the low bit of `a` is set. */
  lemma AddStep(w: nat, i: nat, u: nat, negative: bool, b: nat, rest: int, a: int, bHi: int, bLo: int, hi: int, lo: int)
    requires w > 0 && i < w && u < Pow2(w) && b < Pow2(w)
    requires Multiplying(w, i, u, negative, b, rest, a, bHi, bLo, hi, lo)
    requires a % 2 == 1
    ensures var l := (lo + bLo) % Pow2(w);
            var h := (if l < bLo then hi + 1 else hi) + bHi;
            0 <= l < Pow2(w) && 0 <= h < Pow2(w) && Double(w, h, l) + (rest - 1) * Double(w, bHi, bLo) == u * b
    ensures a == 1 ==> rest == 1
  {
    var s := Double(w, bHi, bLo);
    ParityOf(w - i, negative, rest, a);
    OneMore(rest, s);
    ProductFits(Pow2(w), u, b);
    AddWithCarry(Pow2(w), hi, lo, bHi, bLo);
  }

  /** The shift at the end of a round. */
  lemma ShiftStep(w: nat, i: nat, u: nat, negative: bool, b: nat, rest: int, a: int, bHi: int, bLo: int, hi: int, lo: int)
    requires w > 0 && i < w && u < Pow2(w) && b < Pow2(w)
    requires 0 <= rest < Pow2(w - i) && a == (if negative then rest - Pow2(w - i) else rest)
    requires 0 <= bHi < Pow2(w) && 0 <= bLo < Pow2(w) && 0 <= hi < Pow2(w) && 0 <= lo < Pow2(w)
    requires Double(w, bHi, bLo) == Pow2(i) * b
    requires Double(w, hi, lo) + (rest - rest % 2) * Double(w, bHi, bLo) == u * b
    ensures Multiplying(w, i + 1, u, negative, b, rest / 2, a / 2,
                        if bLo >= Pow2(w - 1) then 2 * bHi + 1 else 2 * bHi, (2 * bLo) % Pow2(w), hi, lo)
  {
    hide Pow2;
    Pow2Step(w);
    ParityOf(w - i, negative, rest, a);
    DoubledFits(w, i, b);
    ShiftDouble(Pow2(w), Pow2(w - 1), bHi, bLo);
    var c, l := if bLo >= Pow2(w - 1) then 1 else 0, (2 * bLo) % Pow2(w);
    ShiftedTerm(rest, Double(w, bHi, bLo), Double(w, 2 * bHi + c, l));
  }

  lemma Started(w: nat, a: int, b: nat)
    requires w > 0 && IsSigned(w, a) && b < Pow2(w)
    ensures Multiplying(w, 0, Unsigned(w, a), a < 0, b, Unsigned(w, a), a, 0, b, 0, 0)
  {
    hide Pow2, Double;
    DoubleLow(w, b);
    DoubleLow(w, 0);
  }

  lemma DoubleLow(w: nat, b: nat)
    ensures Double(w, 0, b) == b && Pow2(0) == 1
  {
  }

  lemma Finished(w: nat, u: nat, negative: bool, b: nat, rest: int, a: int, bHi: int, bLo: int, hi: int, lo: int)
    requires Multiplying(w, w, u, negative, b, rest, a, bHi, bLo, hi, lo)
    ensures Double(w, hi, lo) == u * b
  {
  }

  /** The loop of Mult, on magnitudes: `a` is shifted as a signed word, so a set top bit keeps coming in. */
  method MultiplyMagnitudes(w: nat, a0: int, b: nat) returns (hi: nat, lo: nat)
    requires w > 0 && IsSigned(w, a0) && b < Pow2(w)
    ensures hi < Pow2(w) && lo < Pow2(w)
    ensures Double(w, hi, lo) == Unsigned(w, a0) * b
  {
    hide Pow2, Double;
    var a, bLo, bHi := a0, b, 0;
    lo, hi := 0, 0;
    ghost var u := Unsigned(w, a0);
    ghost var rest := u;
    Started(w, a0, b);
    for i := 0 to w
      invariant Multiplying(w, i, u, a0 < 0, b, rest, a, bHi, bLo, hi, lo)
    {
      if a % 2 == 1 {
        AddStep(w, i, u, a0 < 0, b, rest, a, bHi, bLo, hi, lo);
        lo := (lo + bLo) % Pow2(w);
        if lo < bLo {
          SmallMod(hi + 1, Pow2(w));
          hi := (hi + 1) % Pow2(w);
        }
        SmallMod(hi + bHi, Pow2(w));
        hi := (hi + bHi) % Pow2(w);
        if a == 0 || a == 1 {
          assert Double(w, hi, lo) == u * b;
          return;
        }
      }
      ParityOf(w - i, a0 < 0, rest, a);
      ShiftStep(w, i, u, a0 < 0, b, rest, a, bHi, bLo, hi, lo);
      SmallMod(2 * bHi, Pow2(w));
      bHi := (2 * bHi) % Pow2(w);
      if bLo >= Pow2(w - 1) {
        bHi := bHi + 1;
      }
      bLo := (2 * bLo) % Pow2(w);
      a := a / 2;
      rest := rest / 2;
    }
    Finished(w, u, a0 < 0, b, rest, a, bHi, bLo, hi, lo);
  }

  lemma ProductFits(m: nat, a: nat, b: nat)
    requires a < m && b < m
    ensures a * b < m * m
  {
  }

  /** The bit that is looked at is the next bit of the magnitude, and a negative word never runs out. */
  lemma ParityOf(n: nat, negative: bool, rest: nat, a: int)
    requires n > 0 && rest < Pow2(n)
    requires a == if negative then rest - Pow2(n) else rest
    ensures a % 2 == rest % 2
    ensures a == 1 ==> rest == 1
    ensures rest / 2 < Pow2(n - 1)
    ensures a / 2 == if negative then rest / 2 - Pow2(n - 1) else rest / 2
  {
  }

  lemma OneMore(rest: nat, s: nat)
    requires rest % 2 == 1
    ensures rest * s == s + (rest - 1) * s && (rest - 1) * s >= 0
  {
  }

  lemma HalfLeft(rest: nat, s: int)
    ensures (rest - rest % 2) * s == rest / 2 * (2 * s)
  {
    assert rest - rest % 2 == 2 * (rest / 2);
  }

  lemma ShiftedTerm(rest: nat, s: int, doubled: int)
    requires doubled == 2 * s
    ensures (rest - rest % 2) * s == rest / 2 * doubled
  {
    HalfLeft(rest, s);
  }

  lemma Pow2Step(w: nat)
    requires w > 0
    ensures Pow2(w) == 2 * Pow2(w - 1)
  {
  }

  lemma DoubledFits(w: nat, i: nat, b: nat)
    requires i < w && b < Pow2(w)
    ensures 2 * (Pow2(i) * b) == Pow2(i + 1) * b < Pow2(w) * Pow2(w)
  {
    Pow2Grows(i + 1, w);
    Reassociate(Pow2(i), b);
    BothBelow(Pow2(i + 1), b, Pow2(w));
  }

  lemma Reassociate(p: int, b: int)
    ensures 2 * (p * b) == (2 * p) * b
  {
  }

  lemma BothBelow(p: nat, b: nat, m: nat)
    requires p <= m && b < m
    ensures p * b < m * m
  {
    TimesMonotone(b, p, m);
    assert m * b < m * m;
  }

  lemma {:induction false} Pow2Grows(i: nat, w: nat)
    requires i <= w
    ensures Pow2(i) <= Pow2(w)
  {
    if i < w {
      Pow2Grows(i, w - 1);
    }
  }

  // ---------------------------------------------------------------- the whole instruction

  lemma MagnitudeBound(w: nat, a: int)
    requires w > 0 && IsSigned(w, a)
    ensures 0 <= Magnitude(a) <= Pow2(w - 1)
  {
  }

  function Magnitude(a: int): nat {
    if a < 0 then -a else a
  }

  lemma SignOfProduct(a: int, b: int)
    ensures Magnitude(a) * Magnitude(b) == if (a < 0) != (b < 0) then -(a * b) else a * b
  {
  }

  lemma SmallProduct(h: nat, x: nat, y: nat)
    requires x <= h && y <= h
    ensures x * y <= h * h
  {
    TimesMonotone(y, x, h);
    TimesMonotone(h, y, h);
  }

  /** A product of magnitudes of signed words leaves the top bit of the high word clear. */
  lemma TopBitClear(h: nat, hi: nat, lo: nat)
    requires h > 0 && hi * (2 * h) + lo <= h * h
    ensures hi < h
  {
    assert (2 * h) * h == 2 * (h * h);
    if hi >= h {
      TimesMonotone(2 * h, h, hi);
    }
  }

  /** The two's complement of such a product has it set. */
  lemma TopBitSet(h: nat, hi: nat, lo: nat, t: nat)
    requires h > 0 && lo < 2 * h && t <= h * h
    requires hi * (2 * h) + lo == (2 * h) * (2 * h) - t
    ensures hi >= h
  {
    assert (2 * h) * (h - 1) == 2 * (h * h) - 2 * h;
    assert (2 * h) * (2 * h) == 4 * (h * h);
    if hi < h {
      TimesMonotone(2 * h, hi, h - 1);
    }
  }

  lemma SignedResult(w: nat, negative: bool, t: int, hi: nat, lo: nat)
    requires w > 0 && hi < Pow2(w) && lo < Pow2(w)
    requires 0 <= t <= Pow2(w - 1) * Pow2(w - 1)
    requires Double(w, hi, lo) == if negative && t > 0 then Pow2(w) * Pow2(w) - t else t
    ensures Double(w, Signed(w, hi), lo) == if negative then -t else t
  {
    var h := Pow2(w - 1);
    if negative && t > 0 {
      TopBitSet(h, hi, lo, t);
      assert (hi - Pow2(w)) * Pow2(w) == hi * Pow2(w) - Pow2(w) * Pow2(w);
    } else {
      TopBitClear(h, hi, lo);
    }
  }

  lemma SignedProduct(w: nat, a0: int, b0: int, negative: bool, t: int, hi: nat, lo: nat)
    requires w > 0 && IsSigned(w, a0) && IsSigned(w, b0) && hi < Pow2(w) && lo < Pow2(w)
    requires negative == ((a0 < 0) != (b0 < 0)) && t == Magnitude(a0) * Magnitude(b0)
    requires Double(w, hi, lo) == if negative && t > 0 then Pow2(w) * Pow2(w) - t else t
    ensures Double(w, Signed(w, hi), lo) == a0 * b0
  {
    hide Pow2, Double;
    MagnitudeBound(w, a0);
    MagnitudeBound(w, b0);
    SignOfProduct(a0, b0);
    SmallProduct(Pow2(w - 1), Magnitude(a0), Magnitude(b0));
    SignedResult(w, negative, t, hi, lo);
  }

  /** Multiplies two words of `w` bits: hi:lo is their product, exactly, as unsigned numbers or as two's complement ones. */
  method Mult(w: nat, a0: int, b0: int, signedArith: bool) returns (hiPtr: int, loPtr: int)
    requires w > 0 && IsSigned(w, a0) && IsSigned(w, b0)
    ensures IsSigned(w, hiPtr) && IsSigned(w, loPtr)
    ensures signedArith ==> Double(w, hiPtr, Unsigned(w, loPtr)) == a0 * b0
    ensures !signedArith ==> Double(w, Unsigned(w, hiPtr), Unsigned(w, loPtr)) == Unsigned(w, a0) * Unsigned(w, b0)
  {
    if a0 == 0 || b0 == 0 {
      return 0, 0;
    }
    hide Pow2, Double;
    var negative, a, b := false, a0, b0;
    if signedArith {
      if a < 0 {
        negative := !negative;
        a := Negated(w, a);
      }
      if b < 0 {
        negative := !negative;
        b := Negated(w, b);
      }
    }
    var hi: nat, lo: nat := MultiplyMagnitudes(w, a, Unsigned(w, b));
    ghost var t := Double(w, hi, lo);
    if negative {
      hi, lo := Complement(w, hi, lo);
    }
    if signedArith {
      SignedProduct(w, a0, b0, negative, t, hi, lo);
    }
    hiPtr, loPtr := Signed(w, hi), Signed(w, lo);
  }

  /** The two's complement of a double word. */
  method Complement(w: nat, hi0: nat, lo0: nat) returns (hi: nat, lo: nat)
    requires w > 0 && hi0 < Pow2(w) && lo0 < Pow2(w)
    ensures hi < Pow2(w) && lo < Pow2(w)
    ensures Double(w, hi, lo) == if Double(w, hi0, lo0) > 0 then Pow2(w) * Pow2(w) - Double(w, hi0, lo0) else 0
  {
    NegateDouble(Pow2(w), hi0, lo0);
    hi := Pow2(w) - 1 - hi0;
    lo := Pow2(w) - 1 - lo0;
    lo := (lo + 1) % Pow2(w);
    if lo == 0 {
      hi := (hi + 1) % Pow2(w);
    }
    PositiveDouble(Pow2(w), hi0, lo0);
  }

  lemma PositiveDouble(m: nat, hi: nat, lo: nat)
    requires m > 0
    ensures hi * m + lo > 0 <==> hi > 0 || lo > 0
  {
  }
}
