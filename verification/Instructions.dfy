/** The instruction set: decoding, and what every instruction computes from its operands. */
module Instructions {
  import opened Bits
  import opened Bytes

  // ---------------------------------------------------------------- words

  const WordRange := 0x1_0000_0000
  const SignBit := 0x8000_0000

  function ToInt(w: Word): (x: int)
    ensures -SignBit <= x < SignBit
    ensures x % WordRange == w
  {
    if w < SignBit then w else w - WordRange
  }

  function ToWord(x: int): (w: Word) {
    x % WordRange
  }

  function Plus(a: Word, b: Word): Word {
    (a + b) % WordRange
  }

  function Minus(a: Word, b: Word): Word {
    (a - b) % WordRange
  }

  function And(a: Word, b: Word): Word {
    WordOp(AndOp, a, b)
  }

  function Or(a: Word, b: Word): Word {
    WordOp(OrOp, a, b)
  }

  function Xor(a: Word, b: Word): Word {
    WordOp(XorOp, a, b)
  }

  function Not(a: Word): Word {
    WordRange - 1 - a
  }

  function ShiftLeft(a: Word, n: nat): Word {
    (a * Pow2(n)) % WordRange
  }

  function ShiftRight(a: Word, n: nat): (r: Word) {
    ShiftBound(a, n);
    a / Pow2(n)
  }

  lemma ShiftBound(a: Word, n: nat)
    ensures 0 <= a / Pow2(n) <= a
  {
    QuotientBound(a, Pow2(n));
  }

  /** The arithmetic shift: the sign is shifted in. */
  function ShiftRightSigned(a: Word, n: nat): Word {
    (ToInt(a) / Pow2(n)) % WordRange
  }

  /** C's division, which truncates toward zero. */
  function Quotient(x: int, y: int): int
    requires y != 0
  {
    if x >= 0 then x / y else -(-x / y)
  }

  function Remainder(x: int, y: int): int
    requires y != 0
  {
    x - Quotient(x, y) * y
  }

  /** The remainder is smaller than the divisor and has the sign of the dividend: that is truncation toward zero. */
  lemma DivisionTruncates(x: int, y: int)
    requires y != 0
    ensures x == Quotient(x, y) * y + Remainder(x, y)
    ensures -(if y < 0 then -y else y) < Remainder(x, y) < (if y < 0 then -y else y)
    ensures (x >= 0 ==> Remainder(x, y) >= 0) && (x <= 0 ==> Remainder(x, y) <= 0)
  {
    if x >= 0 {
      EuclideanDivision(x, y);
    } else {
      EuclideanDivision(-x, y);
      NegatedQuotient(x, y);
    }
  }

  lemma EuclideanDivision(x: int, y: int)
    requires y != 0
    ensures x == x / y * y + x % y && 0 <= x % y < (if y < 0 then -y else y)
  {
  }

  lemma NegatedQuotient(x: int, y: int)
    requires y != 0
    ensures (-(-x / y)) * y == -(-x / y * y)
  {
  }

  // ---------------------------------------------------------------- decoding

  datatype OpCode =
    | ADD | ADDI | ADDIU | ADDU | AND | ANDI | BEQ | BGEZ | BGEZAL | BGTZ | BLEZ | BLTZ | BLTZAL | BNE
    | DIV | DIVU | J | JAL | JALR | JR | LB | LBU | LH | LHU | LUI | LW | LWL | LWR
    | MFHI | MFLO | MTHI | MTLO | MULT | MULTU | NOR | OR | ORI | RFE | SB | SH | SLL | SLLV
    | SLT | SLTI | SLTIU | SLTU | SRA | SRAV | SRL | SRLV | SUB | SUBU | SW | SWL | SWR | XOR | XORI
    | SYSCALL | UNIMP | RES

  datatype Format = IFMT | JFMT | RFMT

  /** An entry of the opcode table: an instruction, or a sign that other bits tell which one it is. */
  datatype OpInfo = Plain(op: OpCode, format: Format) | Special | Bcond

  const opTable: seq<OpInfo> :=
    [Special, Bcond, Plain(J, JFMT), Plain(JAL, JFMT), Plain(BEQ, IFMT), Plain(BNE, IFMT), Plain(BLEZ, IFMT), Plain(BGTZ, IFMT)] +
    [Plain(ADDI, IFMT), Plain(ADDIU, IFMT), Plain(SLTI, IFMT), Plain(SLTIU, IFMT), Plain(ANDI, IFMT), Plain(ORI, IFMT), Plain(XORI, IFMT), Plain(LUI, IFMT)] +
    [Plain(UNIMP, IFMT), Plain(UNIMP, IFMT), Plain(UNIMP, IFMT), Plain(UNIMP, IFMT), Plain(RES, IFMT), Plain(RES, IFMT), Plain(RES, IFMT), Plain(RES, IFMT)] +
    [Plain(RES, IFMT), Plain(RES, IFMT), Plain(RES, IFMT), Plain(RES, IFMT), Plain(RES, IFMT), Plain(RES, IFMT), Plain(RES, IFMT), Plain(RES, IFMT)] +
    [Plain(LB, IFMT), Plain(LH, IFMT), Plain(LWL, IFMT), Plain(LW, IFMT), Plain(LBU, IFMT), Plain(LHU, IFMT), Plain(LWR, IFMT), Plain(RES, IFMT)] +
    [Plain(SB, IFMT), Plain(SH, IFMT), Plain(SWL, IFMT), Plain(SW, IFMT), Plain(RES, IFMT), Plain(RES, IFMT), Plain(SWR, IFMT), Plain(RES, IFMT)] +
    [Plain(UNIMP, IFMT), Plain(UNIMP, IFMT), Plain(UNIMP, IFMT), Plain(UNIMP, IFMT), Plain(RES, IFMT), Plain(RES, IFMT), Plain(RES, IFMT), Plain(RES, IFMT)] +
    [Plain(UNIMP, IFMT), Plain(UNIMP, IFMT), Plain(UNIMP, IFMT), Plain(UNIMP, IFMT), Plain(RES, IFMT), Plain(RES, IFMT), Plain(RES, IFMT), Plain(RES, IFMT)]

  const specialTable: seq<OpCode> :=
    [SLL, RES, SRL, SRA, SLLV, RES, SRLV, SRAV] +
    [JR, JALR, RES, RES, SYSCALL, UNIMP, RES, RES] +
    [MFHI, MTHI, MFLO, MTLO, RES, RES, RES, RES] +
    [MULT, MULTU, DIV, DIVU, RES, RES, RES, RES] +
    [ADD, ADDU, SUB, SUBU, AND, OR, XOR, NOR] +
    [RES, RES, SLT, SLTU, RES, RES, RES, RES] +
    [RES, RES, RES, RES, RES, RES, RES, RES] +
    [RES, RES, RES, RES, RES, RES, RES, RES]

  type RegNum = r: nat | r < 32

  datatype Instruction = Instruction(opCode: OpCode, rs: RegNum, rt: RegNum, rd: RegNum, extra: Word)

  /** Immediates are sign-extended, shift amounts and jump targets are not. */
  function Decode(value: Word): Instruction {
    var info := opTable[value / 0x400_0000];
    var rs, rt, rd := value / 0x20_0000 % 32, value / 0x1_0000 % 32, value / 0x800 % 32;
    var imm := value % 0x1_0000;
    var signed := if imm >= 0x8000 then imm + 0xffff_0000 else imm;
    match info
    case Special => Instruction(specialTable[value % 64], rs, rt, rd, value / 64 % 32)
    case Bcond =>
      var op := if rt == 0 then BLTZ else if rt == 1 then BGEZ else if rt == 16 then BLTZAL else if rt == 17 then BGEZAL else UNIMP;
      Instruction(op, rs, rt, rd, signed)
    case Plain(op, format) =>
      Instruction(op, rs, rt, rd, if format == IFMT then signed else if format == RFMT then value / 64 % 32 else value % 0x400_0000)
  }

  /** An instruction word put together from its fields, Kane's format I. */
  function ImmediateForm(op: nat, rs: RegNum, rt: RegNum, imm: nat): Word
    requires op < 64 && imm < 0x1_0000
  {
    op * 0x400_0000 + rs * 0x20_0000 + rt * 0x1_0000 + imm
  }

  /** Kane's format R. */
  function RegisterForm(rs: RegNum, rt: RegNum, rd: RegNum, shamt: nat, funct: nat): Word
    requires shamt < 32 && funct < 64
  {
    ImmediateForm(0, rs, rt, rd * 0x800 + shamt * 64 + funct)
  }

  lemma FieldsOf(op: nat, rs: RegNum, rt: RegNum, imm: nat)
    requires op < 64 && imm < 0x1_0000
    ensures var w := ImmediateForm(op, rs, rt, imm);
            w / 0x400_0000 == op && w / 0x20_0000 % 32 == rs && w / 0x1_0000 % 32 == rt && w % 0x1_0000 == imm
  {
    var w := ImmediateForm(op, rs, rt, imm);
    assert w / 0x1_0000 == op * 0x400 + rs * 0x20 + rt;
    assert w / 0x20_0000 == op * 0x20 + rs;
  }

  /** Decode takes an immediate instruction apart into the fields it was put together from, and extends the sign. */
  lemma DecodeImmediate(op: nat, rs: RegNum, rt: RegNum, imm: nat)
    requires op < 64 && imm < 0x1_0000 && opTable[op].Plain? && opTable[op].format == IFMT
    ensures var i := Decode(ImmediateForm(op, rs, rt, imm));
            && i.opCode == opTable[op].op && i.rs == rs && i.rt == rt
            && ToInt(i.extra) == if imm < 0x8000 then imm else imm - 0x1_0000
  {
    hide ImmediateForm;
    FieldsOf(op, rs, rt, imm);
  }

  lemma DecodeRegister(rs: RegNum, rt: RegNum, rd: RegNum, shamt: nat, funct: nat)
    requires shamt < 32 && funct < 64
    ensures Decode(RegisterForm(rs, rt, rd, shamt, funct)) == Instruction(specialTable[funct], rs, rt, rd, shamt)
  {
    hide ImmediateForm;
    var imm := rd * 0x800 + shamt * 64 + funct;
    FieldsOf(0, rs, rt, imm);
    LowFields(RegisterForm(rs, rt, rd, shamt, funct), rd, shamt, funct);
    assert opTable[0] == Special;
  }

  lemma LowFields(w: Word, rd: RegNum, shamt: nat, funct: nat)
    requires shamt < 32 && funct < 64 && w % 0x1_0000 == rd * 0x800 + shamt * 64 + funct
    ensures w / 0x800 % 32 == rd && w / 64 % 32 == shamt && w % 64 == funct
  {
    var high := w / 0x1_0000;
    LastSix(w, high * 0x400 + rd * 0x20 + shamt, funct);
    LastFive(w / 64, high * 0x20 + rd, shamt);
    LastFive(w / 64 / 32, high, rd);
    assert w / 0x800 == w / 64 / 32;
  }

  lemma LastSix(w: nat, high: nat, low: nat)
    requires low < 64 && w == high * 64 + low
    ensures w / 64 == high && w % 64 == low
  {
  }

  lemma LastFive(w: nat, high: nat, low: nat)
    requires low < 32 && w == high * 32 + low
    ensures w / 32 == high && w % 32 == low
  {
  }

  function JumpForm(op: nat, target: nat): (w: Word)
    requires op < 64 && target < 0x400_0000
    ensures w / 0x400_0000 == op && w % 0x400_0000 == target
  {
    op * 0x400_0000 + target
  }

  lemma DecodeJump(op: nat, target: nat)
    requires op < 64 && target < 0x400_0000 && opTable[op].Plain? && opTable[op].format == JFMT
    ensures var i := Decode(JumpForm(op, target)); i.opCode == opTable[op].op && i.extra == target
  {
    hide JumpForm;
    assert JumpForm(op, target) / 0x400_0000 == op;
  }

  // ---------------------------------------------------------------- results

  /** The result for the register `rd` of the instructions that compute one from two registers. */
  function ResultRd(op: OpCode, a: Word, b: Word, shamt: Word, hi: Word, lo: Word): Word {
    match op
    case ADD => Plus(a, b)
    case ADDU => Plus(a, b)
    case SUB => Minus(a, b)
    case SUBU => Minus(a, b)
    case AND => And(a, b)
    case OR => Or(a, b)
    case XOR => Xor(a, b)
    case NOR => Not(Or(a, b))
    case SLT => if ToInt(a) < ToInt(b) then 1 else 0
    case SLTU => if a < b then 1 else 0
    case SLL => ShiftLeft(b, shamt)
    case SLLV => ShiftLeft(b, a % 32)
    case SRA => ShiftRightSigned(b, shamt)
    case SRAV => ShiftRightSigned(b, a % 32)
    case SRL => ShiftRight(b, shamt)
    case SRLV => ShiftRight(b, a % 32)
    case MFHI => hi
    case MFLO => lo
    case _ => 0
  }

  /** The result for the register `rt` of the instructions that compute one from a register and an immediate. */
  function ResultRt(op: OpCode, a: Word, extra: Word): Word {
    match op
    case ADDI => Plus(a, extra)
    case ADDIU => Plus(a, extra)
    case ANDI => And(a, extra % 0x1_0000)
    case ORI => Or(a, extra % 0x1_0000)
    case XORI => Xor(a, extra % 0x1_0000)
    case LUI => (extra * 0x1_0000) % WordRange
    case SLTI => if ToInt(a) < ToInt(extra) then 1 else 0
    case SLTIU => if a < extra then 1 else 0
    case _ => 0
  }

  predicate Negative(a: Word) {
    a >= SignBit
  }

  /** The overflow tests of ADD, ADDI and SUB, as the sign bits of operands and result. */
  predicate Overflows(op: OpCode, a: Word, b: Word) {
    match op
    case ADD => Negative(a) == Negative(b) && Negative(a) != Negative(Plus(a, b))
    case ADDI => Negative(a) == Negative(b) && Negative(b) != Negative(Plus(a, b))
    case SUB => Negative(a) != Negative(b) && Negative(a) != Negative(Minus(a, b))
    case _ => false
  }

  /** They hold exactly when the mathematical result does not fit in a word. */
  lemma OverflowIsExact(a: Word, b: Word)
    ensures Overflows(ADD, a, b) <==> !(-SignBit <= ToInt(a) + ToInt(b) < SignBit)
    ensures Overflows(ADDI, a, b) <==> !(-SignBit <= ToInt(a) + ToInt(b) < SignBit)
    ensures Overflows(SUB, a, b) <==> !(-SignBit <= ToInt(a) - ToInt(b) < SignBit)
  {
  }

  /** What the instructions on the double register leave in it, as (hi, lo). */
  function ResultHiLo(op: OpCode, a: Word, b: Word, hi: Word, lo: Word): (Word, Word) {
    match op
    case MULT => var p := ToInt(a) * ToInt(b); (p / WordRange % WordRange, p % WordRange)
    case MULTU => var p := a * b; (p / WordRange % WordRange, p % WordRange)
    case DIV => if b == 0 then (0, 0) else (ToWord(Remainder(ToInt(a), ToInt(b))), ToWord(Quotient(ToInt(a), ToInt(b))))
    case DIVU => if b == 0 then (0, 0) else (a % b, UnsignedQuotient(a, b))
    case MTHI => (a, lo)
    case MTLO => (hi, a)
    case _ => (hi, lo)
  }

  function UnsignedQuotient(a: Word, b: Word): (q: Word)
    requires b != 0
  {
    QuotientBound(a, b);
    a / b
  }

  lemma QuotientBound(a: nat, b: nat)
    requires b > 0
    ensures 0 <= a / b <= a
  {
    var q := a / b;
    assert a == b * q + a % b;
    if q > 0 {
      Times(b, q);
    }
  }

  lemma Times(b: nat, q: nat)
    requires b > 0
    ensures b * q >= q
  {
  }

  /** The branch conditions. */
  predicate Taken(op: OpCode, a: Word, b: Word) {
    match op
    case BEQ => a == b
    case BNE => a != b
    case BGEZ => !Negative(a)
    case BGEZAL => !Negative(a)
    case BLTZ => Negative(a)
    case BLTZAL => Negative(a)
    case BGTZ => ToInt(a) > 0
    case BLEZ => ToInt(a) <= 0
    case _ => false
  }

  function ByteOffset(extra: Word): Word {
    (extra * 4) % WordRange
  }

  function JumpTarget(pcAfter: Word, extra: Word): Word {
    Or(And(pcAfter, 0xf000_0000), ByteOffset(extra))
  }

  // ---------------------------------------------------------------- loads and stores of parts of a word

  /** What LB, LBU, LH, LHU and LW deliver for the value that ReadMem returned. */
  function Loaded(op: OpCode, value: Word): Word {
    match op
    case LB => if value % 256 >= 0x80 then value % 256 + 0xffff_ff00 else value % 256
    case LBU => value % 256
    case LH => if value % 0x1_0000 >= 0x8000 then value % 0x1_0000 + 0xffff_0000 else value % 0x1_0000
    case LHU => value % 0x1_0000
    case _ => value
  }

  /** LWR and LWL merge a word from memory into the old contents of the register, as their tables say. */
  function Merged(op: OpCode, before: Word, value: Word, k: nat): Word {
    match (op, k)
    case (LWR, 0) => value
    case (LWR, 1) => before - before % 0x100_0000 + value / 0x100
    case (LWR, 2) => before - before % 0x1_0000 + value / 0x1_0000
    case (LWR, 3) => before - before % 0x100 + value / 0x100_0000
    case (LWL, 0) => before % 0x100 + value % 0x100_0000 * 0x100
    case (LWL, 1) => before % 0x1_0000 + value % 0x1_0000 * 0x1_0000
    case (LWL, 2) => before % 0x100_0000 + value % 0x100 * 0x100_0000
    case _ => value
  }

  /** SWR and SWL merge a register into a word of memory. */
  function StoredPart(op: OpCode, value: Word, reg: Word, k: nat): Word {
    match (op, k)
    case (SWR, 0) => reg
    case (SWR, 1) => value % 0x100 + reg % 0x100_0000 * 0x100
    case (SWR, 2) => value % 0x1_0000 + reg % 0x1_0000 * 0x1_0000
    case (SWR, 3) => value % 0x100_0000 + reg % 0x100 * 0x100_0000
    case (SWL, 0) => value - value % 0x100 + reg / 0x100_0000
    case (SWL, 1) => value - value % 0x1_0000 + reg / 0x1_0000
    case (SWL, 2) => value - value % 0x100_0000 + reg / 0x100
    case _ => reg
  }

  lemma Digits(w: Word)
    ensures var b := ToBytes(w);
            && w % 0x100 == b[0] && w % 0x1_0000 == JoinBytes(b[0], b[1], 0, 0) && w % 0x100_0000 == JoinBytes(b[0], b[1], b[2], 0)
            && w / 0x100 == JoinBytes(b[1], b[2], b[3], 0) && w / 0x1_0000 == JoinBytes(b[2], b[3], 0, 0) && w / 0x100_0000 == b[3]
            && w == JoinBytes(b[0], b[1], b[2], b[3])
  {
    SplitWord(w);
    assert w / 0x1_0000 == w / 0x100 / 0x100;
    assert w / 0x100_0000 == w / 0x1_0000 / 0x100;
  }

  /** SWR at offset `k` replaces the bytes from `k` on by the low bytes of the register. */
  lemma SwrBytes(value: Word, reg: Word, k: nat)
    requires k < 4
    ensures forall i :: 0 <= i < 4 ==> ToBytes(StoredPart(SWR, value, reg, k))[i] == if i < k then ToBytes(value)[i] else ToBytes(reg)[i - k]
  {
    hide ToBytes;
    Digits(value);
    Digits(reg);
    var v, r := ToBytes(value), ToBytes(reg);
    if k == 1 {
      BytesRoundTrip(v[0], r[0], r[1], r[2]);
    } else if k == 2 {
      BytesRoundTrip(v[0], v[1], r[0], r[1]);
    } else if k == 3 {
      BytesRoundTrip(v[0], v[1], v[2], r[0]);
    }
  }

  /** SWL at offset `k` replaces the bytes up to `k` by the high bytes of the register. */
  lemma SwlBytes(value: Word, reg: Word, k: nat)
    requires k < 4
    ensures forall i :: 0 <= i < 4 ==> ToBytes(StoredPart(SWL, value, reg, k))[i] == if i <= k then ToBytes(reg)[i + 3 - k] else ToBytes(value)[i]
  {
    hide ToBytes, StoredPart, JoinBytes;
    var v, r := ToBytes(value), ToBytes(reg);
    SwlWord(value, reg, k);
    if k == 0 {
      BytesRoundTrip(r[3], v[1], v[2], v[3]);
    } else if k == 1 {
      BytesRoundTrip(r[2], r[3], v[2], v[3]);
    } else if k == 2 {
      BytesRoundTrip(r[1], r[2], r[3], v[3]);
    }
  }

  lemma SwlWord(value: Word, reg: Word, k: nat)
    requires k < 4
    ensures var v, r := ToBytes(value), ToBytes(reg);
            StoredPart(SWL, value, reg, k) ==
            (if k == 0 then JoinBytes(r[3], v[1], v[2], v[3])
             else if k == 1 then JoinBytes(r[2], r[3], v[2], v[3])
             else if k == 2 then JoinBytes(r[1], r[2], r[3], v[3])
             else reg)
  {
    hide ToBytes;
    Digits(value);
    Digits(reg);
  }
}
