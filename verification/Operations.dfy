/** What the instructions compute, as statements about the numbers and the bits of their operands. */
module Operations {
  import opened Bits
  import opened Bytes
  import opened Instructions

  /** The same 32 bits. */
  predicate Congruent(x: int, y: int) {
    (x - y) % WordRange == 0
  }

  ghost predicate ShiftedLeft(v: Word, b: Word, n: nat) {
    forall k :: 0 <= k < 32 ==> (TestBit(v, k) <==> k >= n && TestBit(b, k - n))
  }

  ghost predicate ShiftedRight(v: Word, b: Word, n: nat) {
    forall k :: 0 <= k < 32 ==> (TestBit(v, k) <==> k + n < 32 && TestBit(b, k + n))
  }

  /** The sign bit moves into the bits that become free. */
  ghost predicate ShiftedRightSigned(v: Word, b: Word, n: nat) {
    forall k :: 0 <= k < 32 ==> (TestBit(v, k) <==> TestBit(b, if k + n < 32 then k + n else 31))
  }

  predicate IsTruth(v: Word, c: bool) {
    v == if c then 1 else 0
  }

  /** `v` is what the instruction `op` computes from registers with contents `a` and `b`. */
  ghost predicate RdMeans(op: OpCode, a: Word, b: Word, shamt: Word, hi: Word, lo: Word, v: Word) {
    match op
    case ADD => ToInt(v) == ToInt(a) + ToInt(b)
    case ADDU => Congruent(v, a + b)
    case SUB => ToInt(v) == ToInt(a) - ToInt(b)
    case SUBU => Congruent(v, a - b)
    case AND => forall k :: 0 <= k < 32 ==> (TestBit(v, k) <==> TestBit(a, k) && TestBit(b, k))
    case OR => forall k :: 0 <= k < 32 ==> (TestBit(v, k) <==> TestBit(a, k) || TestBit(b, k))
    case XOR => forall k :: 0 <= k < 32 ==> (TestBit(v, k) <==> TestBit(a, k) != TestBit(b, k))
    case NOR => forall k :: 0 <= k < 32 ==> (TestBit(v, k) <==> !TestBit(a, k) && !TestBit(b, k))
    case SLT => IsTruth(v, ToInt(a) < ToInt(b))
    case SLTU => IsTruth(v, a < b)
    case SLL => ShiftedLeft(v, b, shamt)
    case SLLV => ShiftedLeft(v, b, a % 32)
    case SRL => ShiftedRight(v, b, shamt)
    case SRLV => ShiftedRight(v, b, a % 32)
    case SRA => ShiftedRightSigned(v, b, shamt)
    case SRAV => ShiftedRightSigned(v, b, a % 32)
    case MFHI => v == hi
    case MFLO => v == lo
    case _ => false
  }

  /** `v` is what the instruction `op` computes from a register and an immediate, of which the logical
      instructions use 16 bits. */
  ghost predicate RtMeans(op: OpCode, a: Word, extra: Word, v: Word) {
    match op
    case ADDI => ToInt(v) == ToInt(a) + ToInt(extra)
    case ADDIU => Congruent(v, a + extra)
    case ANDI => forall k :: 0 <= k < 32 ==> (TestBit(v, k) <==> TestBit(a, k) && k < 16 && TestBit(extra, k))
    case ORI => forall k :: 0 <= k < 32 ==> (TestBit(v, k) <==> TestBit(a, k) || (k < 16 && TestBit(extra, k)))
    case XORI => forall k :: 0 <= k < 32 ==> (TestBit(v, k) <==> TestBit(a, k) != (k < 16 && TestBit(extra, k)))
    case LUI => ShiftedLeft(v, extra, 16)
    case SLTI => IsTruth(v, ToInt(a) < ToInt(extra))
    case SLTIU => IsTruth(v, a < extra)
    case _ => false
  }

  /** What is left in the double register. A divisor of zero leaves zeros; the most negative word divided by -1
      wraps. */
  ghost predicate HiLoMeans(op: OpCode, a: Word, b: Word, hi: Word, lo: Word, newHi: Word, newLo: Word) {
    match op
    case MULT => ToInt(newHi) * WordRange + newLo == ToInt(a) * ToInt(b)
    case MULTU => newHi * WordRange + newLo == a * b
    case DIV =>
      if b == 0 then newHi == 0 && newLo == 0
      else if ToInt(a) == -SignBit && ToInt(b) == -1 then newHi == 0 && newLo == a
      else
        && ToInt(newLo) * ToInt(b) + ToInt(newHi) == ToInt(a)
        && Magnitude(ToInt(newHi)) < Magnitude(ToInt(b))
        && (ToInt(newHi) == 0 || (ToInt(newHi) < 0 <==> ToInt(a) < 0))
    case DIVU =>
      if b == 0 then newHi == 0 && newLo == 0
      else newLo * b + newHi == a && newHi < b
    case MTHI => newHi == a && newLo == lo
    case MTLO => newHi == hi && newLo == a
    case _ => false
  }

  function Magnitude(x: int): nat {
    if x < 0 then -x else x
  }

  /** The condition under which a branch is taken. */
  predicate BranchCondition(op: OpCode, a: Word, b: Word) {
    match op
    case BEQ => ToInt(a) == ToInt(b)
    case BNE => ToInt(a) != ToInt(b)
    case BGEZ => ToInt(a) >= 0
    case BGEZAL => ToInt(a) >= 0
    case BLTZ => ToInt(a) < 0
    case BLTZAL => ToInt(a) < 0
    case BGTZ => ToInt(a) > 0
    case BLEZ => ToInt(a) <= 0
    case _ => false
  }

  // ---------------------------------------------------------------- logic

  lemma WordOpBits(op: BitOp, a: Word, b: Word)
    ensures forall k :: 0 <= k < 32 ==> (TestBit(WordOp(op, a, b), k) <==> Apply(op, TestBit(a, k), TestBit(b, k)))
  {
    hide TestBit, Apply, Bitwise;
    forall k: nat | k < 32
      ensures TestBit(WordOp(op, a, b), k) <==> Apply(op, TestBit(a, k), TestBit(b, k))
    {
      BitwiseBits(op, a, b, 32, k);
    }
  }

  lemma NotBits(a: Word)
    ensures forall k :: 0 <= k < 32 ==> (TestBit(Not(a), k) <==> !TestBit(a, k))
  {
    WordWidth();
    hide TestBit, Pow2;
    forall k: nat | k < 32
      ensures TestBit(Not(a), k) <==> !TestBit(a, k)
    {
      ComplementBits(a, 32, k);
    }
  }

  lemma LowHalfBits(extra: Word)
    ensures forall k :: 0 <= k < 32 ==> (TestBit(extra % 0x1_0000, k) <==> k < 16 && TestBit(extra, k))
  {
    hide TestBit;
    assert Pow2(16) == 0x1_0000 by { assert Pow2(8) == 256; Pow2Sum(8, 8); }
    hide Pow2;
    forall k: nat | k < 32
      ensures TestBit(extra % 0x1_0000, k) <==> k < 16 && TestBit(extra, k)
    {
      BitOfRemainder(extra, 16, k);
    }
  }

  lemma LogicMeans(op: OpCode, a: Word, b: Word, shamt: Word, hi: Word, lo: Word)
    requires op == AND || op == OR || op == XOR || op == NOR
    ensures RdMeans(op, a, b, shamt, hi, lo, ResultRd(op, a, b, shamt, hi, lo))
  {
    hide TestBit, WordOp, Not;
    WordOpBits(AndOp, a, b);
    WordOpBits(OrOp, a, b);
    WordOpBits(XorOp, a, b);
    NotBits(Or(a, b));
  }

  lemma LogicImmediateMeans(op: OpCode, a: Word, extra: Word)
    requires op == ANDI || op == ORI || op == XORI
    ensures RtMeans(op, a, extra, ResultRt(op, a, extra))
  {
    hide TestBit, WordOp;
    WordOpBits(AndOp, a, extra % 0x1_0000);
    WordOpBits(OrOp, a, extra % 0x1_0000);
    WordOpBits(XorOp, a, extra % 0x1_0000);
    LowHalfBits(extra);
  }

  // ---------------------------------------------------------------- shifts

  lemma LeftMeans(b: Word, n: nat)
    requires n < 32
    ensures ShiftedLeft(ShiftLeft(b, n), b, n)
  {
    WordWidth();
    hide TestBit, Pow2;
    forall k: nat | k < 32
      ensures TestBit(ShiftLeft(b, n), k) <==> k >= n && TestBit(b, k - n)
    {
      BitOfMultiple(b, n, k);
      BitOfRemainder(b * Pow2(n), 32, k);
    }
  }

  lemma BitsBelow(b: Word, k: nat)
    requires k >= 32
    ensures !TestBit(b, k)
  {
    WordWidth();
    hide TestBit, Pow2;
    BitOfRemainder(b, 32, k);
  }

  lemma RightMeans(b: Word, n: nat)
    ensures ShiftedRight(ShiftRight(b, n), b, n)
  {
    hide TestBit, Pow2;
    forall k: nat | k < 32
      ensures TestBit(ShiftRight(b, n), k) <==> k + n < 32 && TestBit(b, k + n)
    {
      BitOfQuotient(b, n, k);
      if k + n >= 32 {
        BitsBelow(b, k + n);
      }
    }
  }

  /** A negative number keeps its quotient, and gets ones above it. */
  lemma NegativeShift(b: Word, n: nat)
    requires b >= SignBit && n < 32
    ensures 0 <= b / Pow2(n) < Pow2(32 - n)
    ensures ShiftRightSigned(b, n) == (Pow2(n) - 1) * Pow2(32 - n) + b / Pow2(n)
  {
    WordWidth();
    Pow2Sum(n, 32 - n);
    hide Pow2;
    var p, q := Pow2(n), Pow2(32 - n);
    ShiftedBy(b, p, q);
  }

  lemma ShiftedBy(b: Word, p: int, q: int)
    requires p > 0 && q > 0 && p * q == WordRange
    ensures 0 <= b / p < q
    ensures ((b - WordRange) / p) % WordRange == (p - 1) * q + b / p
  {
    QuotientBelow(b, p, q);
    assert (b - WordRange) / p == b / p - q by { ShiftQuotient(b, p, q); }
    assert (p - 1) * q + b / p == WordRange - q + b / p by { OneLess(p, q); }
    OneLess(p, q);
    assert q <= WordRange by { FactorBound(p, q); }
  }

  lemma QuotientBelow(b: nat, p: int, q: int)
    requires p > 0 && q > 0 && b < p * q
    ensures 0 <= b / p < q
  {
    PartsBy(b, p);
    if b / p >= q {
      ProductGrows(q, b / p, p);
    }
  }

  lemma ProductGrows(x: int, y: int, p: int)
    requires x <= y && p > 0
    ensures p * x <= y * p
  {
  }

  lemma ShiftQuotient(b: int, p: int, q: int)
    requires p > 0
    ensures (b - p * q) / p == b / p - q
  {
    var d, r := b / p, b % p;
    assert b == p * d + r && 0 <= r < p;
    UniqueQuotient(b - p * q, p, d - q, r);
  }

  lemma UniqueQuotient(x: int, p: int, d: int, r: int)
    requires p > 0 && 0 <= r < p && x == p * (d) + r
    ensures x / p == d
  {
    var e, s := x / p, x % p;
    assert x == p * e + s && 0 <= s < p;
    if e > d {
      ProductGrows(d + 1, e, p);
    } else if e < d {
      ProductGrows(e + 1, d, p);
    }
  }

  lemma OneLess(p: int, q: int)
    ensures (p - 1) * q == p * q - q
  {
  }

  lemma FactorBound(p: int, q: int)
    requires p > 0 && q > 0
    ensures q <= p * q
  {
  }

  lemma RightSignedMeans(b: Word, n: nat)
    requires n < 32
    ensures ShiftedRightSigned(ShiftRightSigned(b, n), b, n)
  {
    hide TestBit, Pow2, ShiftRightSigned;
    TopBit(b);
    forall k: nat | k < 32
      ensures TestBit(ShiftRightSigned(b, n), k) <==> TestBit(b, if k + n < 32 then k + n else 31)
    {
      BitOfQuotient(b, n, k);
      if b >= SignBit {
        NegativeShift(b, n);
        BitsOfParts(Pow2(n) - 1, b / Pow2(n), 32 - n, k);
        if k + n >= 32 {
          AllOnes(n, k - (32 - n));
        }
      } else {
        PositiveShift(b, n);
        if k + n >= 32 {
          BitsBelow(b, k + n);
        }
      }
    }
  }

  lemma PositiveShift(b: Word, n: nat)
    requires b < SignBit
    ensures ShiftRightSigned(b, n) == b / Pow2(n)
  {
    ShiftBound(b, n);
  }

  // ---------------------------------------------------------------- the results

  lemma ShiftMeans(op: OpCode, a: Word, b: Word, shamt: Word, hi: Word, lo: Word)
    requires shamt < 32 && op in {SLL, SLLV, SRL, SRLV, SRA, SRAV}
    ensures RdMeans(op, a, b, shamt, hi, lo, ResultRd(op, a, b, shamt, hi, lo))
  {
    hide ShiftLeft, ShiftRight, ShiftRightSigned, ShiftedLeft, ShiftedRight, ShiftedRightSigned;
    var n: nat := if op in {SLL, SRL, SRA} then shamt else a % 32;
    LeftMeans(b, n);
    RightMeans(b, n);
    RightSignedMeans(b, n);
  }

  lemma ArithmeticMeans(op: OpCode, a: Word, b: Word, shamt: Word, hi: Word, lo: Word)
    requires !Overflows(op, a, b) && op in {ADD, ADDU, SUB, SUBU, SLT, SLTU, MFHI, MFLO}
    ensures RdMeans(op, a, b, shamt, hi, lo, ResultRd(op, a, b, shamt, hi, lo))
  {
    hide TestBit, WordOp, Not, ShiftLeft, ShiftRight, ShiftRightSigned, ShiftedLeft, ShiftedRight, ShiftedRightSigned;
    hide Plus, Minus, Overflows, ToInt, Congruent;
    PlusMeans(a, b);
    MinusMeans(a, b);
  }

  lemma PlusMeans(a: Word, b: Word)
    ensures Congruent(Plus(a, b), a + b)
    ensures !Overflows(ADD, a, b) ==> ToInt(Plus(a, b)) == ToInt(a) + ToInt(b)
    ensures Overflows(ADDI, a, b) == Overflows(ADD, a, b)
  {
  }

  lemma MinusMeans(a: Word, b: Word)
    ensures Congruent(Minus(a, b), a - b)
    ensures !Overflows(SUB, a, b) ==> ToInt(Minus(a, b)) == ToInt(a) - ToInt(b)
  {
  }

  /** What the instructions that write `rd` compute, when they do not overflow. */
  lemma ResultRdMeans(op: OpCode, a: Word, b: Word, shamt: Word, hi: Word, lo: Word)
    requires shamt < 32 && !Overflows(op, a, b)
    requires op in {ADD, ADDU, SUB, SUBU, AND, OR, XOR, NOR, SLT, SLTU, SLL, SLLV, SRL, SRLV, SRA, SRAV, MFHI, MFLO}
    ensures RdMeans(op, a, b, shamt, hi, lo, ResultRd(op, a, b, shamt, hi, lo))
  {
    hide RdMeans, ResultRd, Overflows;
    if op in {AND, OR, XOR, NOR} {
      LogicMeans(op, a, b, shamt, hi, lo);
    } else if op in {ADD, ADDU, SUB, SUBU, SLT, SLTU, MFHI, MFLO} {
      ArithmeticMeans(op, a, b, shamt, hi, lo);
    } else {
      ShiftMeans(op, a, b, shamt, hi, lo);
    }
  }

  lemma LuiMeans(a: Word, extra: Word)
    ensures RtMeans(LUI, a, extra, ResultRt(LUI, a, extra))
  {
    hide TestBit, WordOp, ShiftLeft, ShiftedLeft;
    LeftMeans(extra, 16);
    LuiIsShift(extra);
  }

  lemma LuiIsShift(extra: Word)
    ensures ShiftLeft(extra, 16) == (extra * 0x1_0000) % WordRange
  {
    assert Pow2(16) == 0x1_0000 by { assert Pow2(8) == 256; Pow2Sum(8, 8); }
  }

  lemma ArithmeticImmediateMeans(op: OpCode, a: Word, extra: Word)
    requires op in {ADDI, ADDIU, SLTI, SLTIU} && !Overflows(op, a, extra)
    ensures RtMeans(op, a, extra, ResultRt(op, a, extra))
  {
    hide TestBit, WordOp, ShiftedLeft, Plus, Overflows, ToInt, Congruent;
    PlusMeans(a, extra);
  }

  /** What the instructions that write `rt` compute, when they do not overflow. */
  lemma ResultRtMeans(op: OpCode, a: Word, extra: Word)
    requires op in {ADDI, ADDIU, ANDI, ORI, XORI, LUI, SLTI, SLTIU} && !Overflows(op, a, extra)
    ensures RtMeans(op, a, extra, ResultRt(op, a, extra))
  {
    hide RtMeans, ResultRt, Overflows;
    if op in {ANDI, ORI, XORI} {
      LogicImmediateMeans(op, a, extra);
    } else if op == LUI {
      LuiMeans(a, extra);
    } else {
      ArithmeticImmediateMeans(op, a, extra);
    }
  }

  // ---------------------------------------------------------------- multiplication and division

  lemma DivisionMeans(a: Word, b: Word, hi: Word, lo: Word)
    ensures HiLoMeans(DIV, a, b, hi, lo, ResultHiLo(DIV, a, b, hi, lo).0, ResultHiLo(DIV, a, b, hi, lo).1)
  {
    hide Quotient, Remainder;
    var x, y := ToInt(a), ToInt(b);
    if b != 0 {
      DivisionTruncates(x, y);
      if x == -SignBit && y == -1 {
        WrappedQuotient();
      } else {
        QuotientFits(x, y);
        WordValue(Quotient(x, y));
        WordValue(Remainder(x, y));
      }
    }
  }

  lemma WrappedQuotient()
    ensures Quotient(-SignBit, -1) == SignBit && Remainder(-SignBit, -1) == 0
  {
  }

  lemma WordValue(x: int)
    requires -SignBit <= x < SignBit
    ensures ToInt(ToWord(x)) == x
  {
  }

  lemma QuotientFits(x: int, y: int)
    requires -SignBit <= x < SignBit && -SignBit <= y < SignBit && y != 0 && !(x == -SignBit && y == -1)
    ensures -SignBit <= Quotient(x, y) < SignBit
  {
    var q, r := Quotient(x, y), Remainder(x, y);
    DivisionTruncates(x, y);
    hide Quotient, Remainder;
    if q >= SignBit || q < -SignBit {
      ProductBeyond(q, y);
    }
  }

  lemma ProductBeyond(q: int, y: int)
    requires y != 0
    ensures y != 1 && y != -1 ==> (q >= SignBit || q < -SignBit ==> q * y >= 2 * SignBit || q * y <= -2 * SignBit)
    ensures y == 1 ==> q * y == q
    ensures y == -1 ==> q * y == -q
  {
    if y >= 2 {
      Scale(q, y);
    } else if y <= -2 {
      Scale(-q, -y);
      assert (-q) * (-y) == q * y;
    }
  }

  lemma Scale(q: int, y: int)
    requires y >= 2
    ensures q >= 0 ==> q * y >= 2 * q
    ensures q <= 0 ==> q * y <= 2 * q
  {
  }

  lemma UnsignedDivisionMeans(a: Word, b: Word, hi: Word, lo: Word)
    ensures HiLoMeans(DIVU, a, b, hi, lo, ResultHiLo(DIVU, a, b, hi, lo).0, ResultHiLo(DIVU, a, b, hi, lo).1)
  {
  }

  lemma ProductMeans(op: OpCode, a: Word, b: Word, hi: Word, lo: Word)
    requires op == MULT || op == MULTU
    ensures HiLoMeans(op, a, b, hi, lo, ResultHiLo(op, a, b, hi, lo).0, ResultHiLo(op, a, b, hi, lo).1)
  {
    if op == MULT {
      SignedProductFits(ToInt(a), ToInt(b));
      SignedHalves(ToInt(a) * ToInt(b));
    } else {
      UnsignedProductFits(a, b);
      UnsignedHalves(a * b);
    }
  }

  lemma SignedProductFits(x: int, y: int)
    requires -SignBit <= x < SignBit && -SignBit <= y < SignBit
    ensures -SignBit * WordRange <= x * y < SignBit * WordRange
  {
    BoundedProduct(Magnitude(x), Magnitude(y), SignBit, SignBit);
    assert x * y == Magnitude(x) * Magnitude(y) || x * y == -(Magnitude(x) * Magnitude(y));
  }

  lemma UnsignedProductFits(x: Word, y: Word)
    ensures 0 <= x * y < WordRange * WordRange
  {
    BoundedProduct(x, y, WordRange - 1, WordRange - 1);
  }

  lemma BoundedProduct(x: nat, y: nat, m: nat, n: nat)
    requires x <= m && y <= n
    ensures 0 <= x * y <= m * n
  {
    assert x * y <= x * n;
    assert x * n <= m * n;
  }

  lemma SignedHalves(p: int)
    requires -SignBit * WordRange <= p < SignBit * WordRange
    ensures ToInt(p / WordRange % WordRange) * WordRange + p % WordRange == p
  {
    assert p == p / WordRange * WordRange + p % WordRange;
    assert -SignBit <= p / WordRange < SignBit;
  }

  lemma UnsignedHalves(p: int)
    requires 0 <= p < WordRange * WordRange
    ensures p / WordRange % WordRange * WordRange + p % WordRange == p
  {
    assert p == p / WordRange * WordRange + p % WordRange;
    assert 0 <= p / WordRange < WordRange;
  }

  lemma ResultHiLoMeans(op: OpCode, a: Word, b: Word, hi: Word, lo: Word)
    requires op in {MULT, MULTU, DIV, DIVU, MTHI, MTLO}
    ensures HiLoMeans(op, a, b, hi, lo, ResultHiLo(op, a, b, hi, lo).0, ResultHiLo(op, a, b, hi, lo).1)
  {
    if op == MTHI || op == MTLO {
    } else {
      hide HiLoMeans, ResultHiLo;
      ResultHiLoParts(op, a, b, hi, lo);
    }
  }

  lemma ResultHiLoParts(op: OpCode, a: Word, b: Word, hi: Word, lo: Word)
    requires op in {MULT, MULTU, DIV, DIVU}
    ensures HiLoMeans(op, a, b, hi, lo, ResultHiLo(op, a, b, hi, lo).0, ResultHiLo(op, a, b, hi, lo).1)
  {
    hide HiLoMeans, ResultHiLo;
    if op == DIV {
      DivisionMeans(a, b, hi, lo);
    } else if op == DIVU {
      UnsignedDivisionMeans(a, b, hi, lo);
    } else {
      ProductMeans(op, a, b, hi, lo);
    }
  }

  // ---------------------------------------------------------------- branches and jumps

  lemma TakenMeans(op: OpCode, a: Word, b: Word)
    ensures Taken(op, a, b) <==> BranchCondition(op, a, b)
  {
  }

  lemma FourOnes(k: nat)
    requires k < 4
    ensures TestBit(15, k)
  {
    AllOnes(4, k);
    assert Pow2(4) == 16;
  }

  /** The target of a jump has the top four bits of the address after the jump, and the others from the field. */
  lemma JumpTargetMeans(pcAfter: Word, target: Word)
    requires target < 0x400_0000
    ensures JumpTarget(pcAfter, target) == pcAfter / 0x1000_0000 * 0x1000_0000 + 4 * target
  {
    var high, low := pcAfter / 0x1000_0000, 4 * target;
    assert ByteOffset(target) == low;
    assert Pow2(28) == 0x1000_0000 by { assert Pow2(7) == 128; Pow2Sum(7, 7); Pow2Sum(14, 14); }
    WordWidth();
    hide Pow2, TestBit, WordOp;
    var v, w := JumpTarget(pcAfter, target), high * 0x1000_0000 + low;
    WordOpBits(OrOp, And(pcAfter, 0xf000_0000), low);
    WordOpBits(AndOp, pcAfter, 0xf000_0000);
    forall k: nat | k < 32
      ensures TestBit(v, k) <==> TestBit(w, k)
    {
      BitsOfParts(high, low, 28, k);
      BitsOfParts(15, 0, 28, k);
      ZeroHasNoBits(k);
      if k >= 28 {
        BitOfQuotient(pcAfter, 28, k - 28);
        BitsOfParts(0, low, 28, k);
        ZeroHasNoBits(k - 28);
        FourOnes(k - 28);
      }
    }
    SameBits(v, w, 32);
  }
}
