/** The numbers of the instructions, as the MIPS architecture assigns them: what Decode makes of each word. */
module Encodings {
  import opened Bytes
  import opened Instructions

  /** Where an instruction word says which instruction it is: in its top six bits alone, in its low six bits under
      major number 0, or in its `rt` field under major number 1. */
  datatype Code = Major(n: nat) | Funct(n: nat) | Regimm(n: nat) | NoCode

  function CodeOf(op: OpCode): Code {
    match op
    case J => Major(2)
    case JAL => Major(3)
    case BEQ => Major(4)
    case BNE => Major(5)
    case BLEZ => Major(6)
    case BGTZ => Major(7)
    case ADDI => Major(8)
    case ADDIU => Major(9)
    case SLTI => Major(10)
    case SLTIU => Major(11)
    case ANDI => Major(12)
    case ORI => Major(13)
    case XORI => Major(14)
    case LUI => Major(15)
    case LB => Major(32)
    case LH => Major(33)
    case LWL => Major(34)
    case LW => Major(35)
    case LBU => Major(36)
    case LHU => Major(37)
    case LWR => Major(38)
    case SB => Major(40)
    case SH => Major(41)
    case SWL => Major(42)
    case SW => Major(43)
    case SWR => Major(46)
    case SLL => Funct(0)
    case SRL => Funct(2)
    case SRA => Funct(3)
    case SLLV => Funct(4)
    case SRLV => Funct(6)
    case SRAV => Funct(7)
    case JR => Funct(8)
    case JALR => Funct(9)
    case SYSCALL => Funct(12)
    case MFHI => Funct(16)
    case MTHI => Funct(17)
    case MFLO => Funct(18)
    case MTLO => Funct(19)
    case MULT => Funct(24)
    case MULTU => Funct(25)
    case DIV => Funct(26)
    case DIVU => Funct(27)
    case ADD => Funct(32)
    case ADDU => Funct(33)
    case SUB => Funct(34)
    case SUBU => Funct(35)
    case AND => Funct(36)
    case OR => Funct(37)
    case XOR => Funct(38)
    case NOR => Funct(39)
    case SLT => Funct(42)
    case SLTU => Funct(43)
    case BLTZ => Regimm(0)
    case BGEZ => Regimm(1)
    case BLTZAL => Regimm(16)
    case BGEZAL => Regimm(17)
    case RFE | UNIMP | RES => NoCode
  }

  predicate HasCode(w: Word, code: Code) {
    match code
    case Major(n) => w / 0x400_0000 == n
    case Funct(n) => w / 0x400_0000 == 0 && w % 64 == n
    case Regimm(n) => w / 0x400_0000 == 1 && w / 0x1_0000 % 32 == n
    case NoCode => false
  }

  /** Jumps have a field of 26 bits, the others signed immediates or shift amounts. */
  predicate IsJump(op: OpCode) {
    op == J || op == JAL
  }

  /** The tables have the instruction where its code says. */
  predicate InTables(op: OpCode) {
    match CodeOf(op)
    case Major(n) => n < 64 && opTable[n].Plain? && opTable[n].op == op
    case Funct(n) => n < 64 && specialTable[n] == op
    case Regimm(n) => n == 0 || n == 1 || n == 16 || n == 17
    case NoCode => op == RFE || op == UNIMP || op == RES
  }

  // ---------------------------------------------------------------- the tables, entry by entry

  predicate GoodMajor(e: OpInfo, n: nat) {
    match e
    case Special => n == 0
    case Bcond => n == 1
    case Plain(op, format) =>
      && n > 1 && op != RFE && (op == UNIMP || op == RES || CodeOf(op) == Major(n))
      && format == (if IsJump(op) then JFMT else IFMT)
  }

  predicate GoodFunct(op: OpCode, n: nat) {
    op != RFE && (op == UNIMP || op == RES || CodeOf(op) == Funct(n))
  }

  lemma MajorRow0(n: nat)
    requires 0 <= n < 8
    ensures GoodMajor(opTable[n], n)
  {
    match n
    case 0 => assert opTable[0] == Special;
    case 1 => assert opTable[1] == Bcond;
    case 2 => assert opTable[2] == Plain(J, JFMT);
    case 3 => assert opTable[3] == Plain(JAL, JFMT);
    case 4 => assert opTable[4] == Plain(BEQ, IFMT);
    case 5 => assert opTable[5] == Plain(BNE, IFMT);
    case 6 => assert opTable[6] == Plain(BLEZ, IFMT);
    case 7 => assert opTable[7] == Plain(BGTZ, IFMT);
  }

  lemma MajorRow1(n: nat)
    requires 8 <= n < 16
    ensures GoodMajor(opTable[n], n)
  {
    match n
    case 8 => assert opTable[8] == Plain(ADDI, IFMT);
    case 9 => assert opTable[9] == Plain(ADDIU, IFMT);
    case 10 => assert opTable[10] == Plain(SLTI, IFMT);
    case 11 => assert opTable[11] == Plain(SLTIU, IFMT);
    case 12 => assert opTable[12] == Plain(ANDI, IFMT);
    case 13 => assert opTable[13] == Plain(ORI, IFMT);
    case 14 => assert opTable[14] == Plain(XORI, IFMT);
    case 15 => assert opTable[15] == Plain(LUI, IFMT);
  }

  lemma MajorRow2(n: nat)
    requires 16 <= n < 24
    ensures GoodMajor(opTable[n], n)
  {
    match n
    case 16 => assert opTable[16] == Plain(UNIMP, IFMT);
    case 17 => assert opTable[17] == Plain(UNIMP, IFMT);
    case 18 => assert opTable[18] == Plain(UNIMP, IFMT);
    case 19 => assert opTable[19] == Plain(UNIMP, IFMT);
    case 20 => assert opTable[20] == Plain(RES, IFMT);
    case 21 => assert opTable[21] == Plain(RES, IFMT);
    case 22 => assert opTable[22] == Plain(RES, IFMT);
    case 23 => assert opTable[23] == Plain(RES, IFMT);
  }

  lemma MajorRow3(n: nat)
    requires 24 <= n < 32
    ensures GoodMajor(opTable[n], n)
  {
    match n
    case 24 => assert opTable[24] == Plain(RES, IFMT);
    case 25 => assert opTable[25] == Plain(RES, IFMT);
    case 26 => assert opTable[26] == Plain(RES, IFMT);
    case 27 => assert opTable[27] == Plain(RES, IFMT);
    case 28 => assert opTable[28] == Plain(RES, IFMT);
    case 29 => assert opTable[29] == Plain(RES, IFMT);
    case 30 => assert opTable[30] == Plain(RES, IFMT);
    case 31 => assert opTable[31] == Plain(RES, IFMT);
  }

  lemma MajorRow4(n: nat)
    requires 32 <= n < 40
    ensures GoodMajor(opTable[n], n)
  {
    match n
    case 32 => assert opTable[32] == Plain(LB, IFMT);
    case 33 => assert opTable[33] == Plain(LH, IFMT);
    case 34 => assert opTable[34] == Plain(LWL, IFMT);
    case 35 => assert opTable[35] == Plain(LW, IFMT);
    case 36 => assert opTable[36] == Plain(LBU, IFMT);
    case 37 => assert opTable[37] == Plain(LHU, IFMT);
    case 38 => assert opTable[38] == Plain(LWR, IFMT);
    case 39 => assert opTable[39] == Plain(RES, IFMT);
  }

  lemma MajorRow5(n: nat)
    requires 40 <= n < 48
    ensures GoodMajor(opTable[n], n)
  {
    match n
    case 40 => assert opTable[40] == Plain(SB, IFMT);
    case 41 => assert opTable[41] == Plain(SH, IFMT);
    case 42 => assert opTable[42] == Plain(SWL, IFMT);
    case 43 => assert opTable[43] == Plain(SW, IFMT);
    case 44 => assert opTable[44] == Plain(RES, IFMT);
    case 45 => assert opTable[45] == Plain(RES, IFMT);
    case 46 => assert opTable[46] == Plain(SWR, IFMT);
    case 47 => assert opTable[47] == Plain(RES, IFMT);
  }

  lemma MajorRow6(n: nat)
    requires 48 <= n < 56
    ensures GoodMajor(opTable[n], n)
  {
    match n
    case 48 => assert opTable[48] == Plain(UNIMP, IFMT);
    case 49 => assert opTable[49] == Plain(UNIMP, IFMT);
    case 50 => assert opTable[50] == Plain(UNIMP, IFMT);
    case 51 => assert opTable[51] == Plain(UNIMP, IFMT);
    case 52 => assert opTable[52] == Plain(RES, IFMT);
    case 53 => assert opTable[53] == Plain(RES, IFMT);
    case 54 => assert opTable[54] == Plain(RES, IFMT);
    case 55 => assert opTable[55] == Plain(RES, IFMT);
  }

  lemma MajorRow7(n: nat)
    requires 56 <= n < 64
    ensures GoodMajor(opTable[n], n)
  {
    match n
    case 56 => assert opTable[56] == Plain(UNIMP, IFMT);
    case 57 => assert opTable[57] == Plain(UNIMP, IFMT);
    case 58 => assert opTable[58] == Plain(UNIMP, IFMT);
    case 59 => assert opTable[59] == Plain(UNIMP, IFMT);
    case 60 => assert opTable[60] == Plain(RES, IFMT);
    case 61 => assert opTable[61] == Plain(RES, IFMT);
    case 62 => assert opTable[62] == Plain(RES, IFMT);
    case 63 => assert opTable[63] == Plain(RES, IFMT);
  }

  lemma FunctRow0(n: nat)
    requires 0 <= n < 8
    ensures GoodFunct(specialTable[n], n)
  {
    match n
    case 0 => assert specialTable[0] == SLL;
    case 1 => assert specialTable[1] == RES;
    case 2 => assert specialTable[2] == SRL;
    case 3 => assert specialTable[3] == SRA;
    case 4 => assert specialTable[4] == SLLV;
    case 5 => assert specialTable[5] == RES;
    case 6 => assert specialTable[6] == SRLV;
    case 7 => assert specialTable[7] == SRAV;
  }

  lemma FunctRow1(n: nat)
    requires 8 <= n < 16
    ensures GoodFunct(specialTable[n], n)
  {
    match n
    case 8 => assert specialTable[8] == JR;
    case 9 => assert specialTable[9] == JALR;
    case 10 => assert specialTable[10] == RES;
    case 11 => assert specialTable[11] == RES;
    case 12 => assert specialTable[12] == SYSCALL;
    case 13 => assert specialTable[13] == UNIMP;
    case 14 => assert specialTable[14] == RES;
    case 15 => assert specialTable[15] == RES;
  }

  lemma FunctRow2(n: nat)
    requires 16 <= n < 24
    ensures GoodFunct(specialTable[n], n)
  {
    match n
    case 16 => assert specialTable[16] == MFHI;
    case 17 => assert specialTable[17] == MTHI;
    case 18 => assert specialTable[18] == MFLO;
    case 19 => assert specialTable[19] == MTLO;
    case 20 => assert specialTable[20] == RES;
    case 21 => assert specialTable[21] == RES;
    case 22 => assert specialTable[22] == RES;
    case 23 => assert specialTable[23] == RES;
  }

  lemma FunctRow3(n: nat)
    requires 24 <= n < 32
    ensures GoodFunct(specialTable[n], n)
  {
    match n
    case 24 => assert specialTable[24] == MULT;
    case 25 => assert specialTable[25] == MULTU;
    case 26 => assert specialTable[26] == DIV;
    case 27 => assert specialTable[27] == DIVU;
    case 28 => assert specialTable[28] == RES;
    case 29 => assert specialTable[29] == RES;
    case 30 => assert specialTable[30] == RES;
    case 31 => assert specialTable[31] == RES;
  }

  lemma FunctRow4(n: nat)
    requires 32 <= n < 40
    ensures GoodFunct(specialTable[n], n)
  {
    match n
    case 32 => assert specialTable[32] == ADD;
    case 33 => assert specialTable[33] == ADDU;
    case 34 => assert specialTable[34] == SUB;
    case 35 => assert specialTable[35] == SUBU;
    case 36 => assert specialTable[36] == AND;
    case 37 => assert specialTable[37] == OR;
    case 38 => assert specialTable[38] == XOR;
    case 39 => assert specialTable[39] == NOR;
  }

  lemma FunctRow5(n: nat)
    requires 40 <= n < 48
    ensures GoodFunct(specialTable[n], n)
  {
    match n
    case 40 => assert specialTable[40] == RES;
    case 41 => assert specialTable[41] == RES;
    case 42 => assert specialTable[42] == SLT;
    case 43 => assert specialTable[43] == SLTU;
    case 44 => assert specialTable[44] == RES;
    case 45 => assert specialTable[45] == RES;
    case 46 => assert specialTable[46] == RES;
    case 47 => assert specialTable[47] == RES;
  }

  lemma FunctRow6(n: nat)
    requires 48 <= n < 56
    ensures GoodFunct(specialTable[n], n)
  {
    match n
    case 48 => assert specialTable[48] == RES;
    case 49 => assert specialTable[49] == RES;
    case 50 => assert specialTable[50] == RES;
    case 51 => assert specialTable[51] == RES;
    case 52 => assert specialTable[52] == RES;
    case 53 => assert specialTable[53] == RES;
    case 54 => assert specialTable[54] == RES;
    case 55 => assert specialTable[55] == RES;
  }

  lemma FunctRow7(n: nat)
    requires 56 <= n < 64
    ensures GoodFunct(specialTable[n], n)
  {
    match n
    case 56 => assert specialTable[56] == RES;
    case 57 => assert specialTable[57] == RES;
    case 58 => assert specialTable[58] == RES;
    case 59 => assert specialTable[59] == RES;
    case 60 => assert specialTable[60] == RES;
    case 61 => assert specialTable[61] == RES;
    case 62 => assert specialTable[62] == RES;
    case 63 => assert specialTable[63] == RES;
  }

  lemma Listed0(op: OpCode)
    requires op in {J, JAL, BEQ, BNE, BLEZ, BGTZ, ADDI, ADDIU, SLTI}
    ensures InTables(op)
  {
    match op
    case J => assert opTable[2] == Plain(J, JFMT);
    case JAL => assert opTable[3] == Plain(JAL, JFMT);
    case BEQ => assert opTable[4] == Plain(BEQ, IFMT);
    case BNE => assert opTable[5] == Plain(BNE, IFMT);
    case BLEZ => assert opTable[6] == Plain(BLEZ, IFMT);
    case BGTZ => assert opTable[7] == Plain(BGTZ, IFMT);
    case ADDI => assert opTable[8] == Plain(ADDI, IFMT);
    case ADDIU => assert opTable[9] == Plain(ADDIU, IFMT);
    case SLTI => assert opTable[10] == Plain(SLTI, IFMT);
  }

  lemma Listed1(op: OpCode)
    requires op in {SLTIU, ANDI, ORI, XORI, LUI, LB, LH, LWL, LW}
    ensures InTables(op)
  {
    match op
    case SLTIU => assert opTable[11] == Plain(SLTIU, IFMT);
    case ANDI => assert opTable[12] == Plain(ANDI, IFMT);
    case ORI => assert opTable[13] == Plain(ORI, IFMT);
    case XORI => assert opTable[14] == Plain(XORI, IFMT);
    case LUI => assert opTable[15] == Plain(LUI, IFMT);
    case LB => assert opTable[32] == Plain(LB, IFMT);
    case LH => assert opTable[33] == Plain(LH, IFMT);
    case LWL => assert opTable[34] == Plain(LWL, IFMT);
    case LW => assert opTable[35] == Plain(LW, IFMT);
  }

  lemma Listed2(op: OpCode)
    requires op in {LBU, LHU, LWR, SB, SH, SWL, SW, SWR, SLL}
    ensures InTables(op)
  {
    match op
    case LBU => assert opTable[36] == Plain(LBU, IFMT);
    case LHU => assert opTable[37] == Plain(LHU, IFMT);
    case LWR => assert opTable[38] == Plain(LWR, IFMT);
    case SB => assert opTable[40] == Plain(SB, IFMT);
    case SH => assert opTable[41] == Plain(SH, IFMT);
    case SWL => assert opTable[42] == Plain(SWL, IFMT);
    case SW => assert opTable[43] == Plain(SW, IFMT);
    case SWR => assert opTable[46] == Plain(SWR, IFMT);
    case SLL => assert specialTable[0] == SLL;
  }

  lemma Listed3(op: OpCode)
    requires op in {SRL, SRA, SLLV, SRLV, SRAV, JR, JALR, SYSCALL, MFHI}
    ensures InTables(op)
  {
    match op
    case SRL => assert specialTable[2] == SRL;
    case SRA => assert specialTable[3] == SRA;
    case SLLV => assert specialTable[4] == SLLV;
    case SRLV => assert specialTable[6] == SRLV;
    case SRAV => assert specialTable[7] == SRAV;
    case JR => assert specialTable[8] == JR;
    case JALR => assert specialTable[9] == JALR;
    case SYSCALL => assert specialTable[12] == SYSCALL;
    case MFHI => assert specialTable[16] == MFHI;
  }

  lemma Listed4(op: OpCode)
    requires op in {MTHI, MFLO, MTLO, MULT, MULTU, DIV, DIVU, ADD, ADDU}
    ensures InTables(op)
  {
    match op
    case MTHI => assert specialTable[17] == MTHI;
    case MFLO => assert specialTable[18] == MFLO;
    case MTLO => assert specialTable[19] == MTLO;
    case MULT => assert specialTable[24] == MULT;
    case MULTU => assert specialTable[25] == MULTU;
    case DIV => assert specialTable[26] == DIV;
    case DIVU => assert specialTable[27] == DIVU;
    case ADD => assert specialTable[32] == ADD;
    case ADDU => assert specialTable[33] == ADDU;
  }

  lemma Listed5(op: OpCode)
    requires op in {SUB, SUBU, AND, OR, XOR, NOR, SLT, SLTU}
    ensures InTables(op)
  {
    match op
    case SUB => assert specialTable[34] == SUB;
    case SUBU => assert specialTable[35] == SUBU;
    case AND => assert specialTable[36] == AND;
    case OR => assert specialTable[37] == OR;
    case XOR => assert specialTable[38] == XOR;
    case NOR => assert specialTable[39] == NOR;
    case SLT => assert specialTable[42] == SLT;
    case SLTU => assert specialTable[43] == SLTU;
  }

  lemma EveryMajor(n: nat)
    requires n < 64
    ensures GoodMajor(opTable[n], n)
  {
    hide GoodMajor;
    match n / 8
    case 0 => MajorRow0(n);
    case 1 => MajorRow1(n);
    case 2 => MajorRow2(n);
    case 3 => MajorRow3(n);
    case 4 => MajorRow4(n);
    case 5 => MajorRow5(n);
    case 6 => MajorRow6(n);
    case 7 => MajorRow7(n);
  }

  lemma EveryFunct(n: nat)
    requires n < 64
    ensures GoodFunct(specialTable[n], n)
  {
    hide GoodFunct;
    match n / 8
    case 0 => FunctRow0(n);
    case 1 => FunctRow1(n);
    case 2 => FunctRow2(n);
    case 3 => FunctRow3(n);
    case 4 => FunctRow4(n);
    case 5 => FunctRow5(n);
    case 6 => FunctRow6(n);
    case 7 => FunctRow7(n);
  }

  lemma EveryCode(op: OpCode)
    ensures InTables(op)
  {
    if op in {J, JAL, BEQ, BNE, BLEZ, BGTZ, ADDI, ADDIU, SLTI} {
      Listed0(op);
    } else if op in {SLTIU, ANDI, ORI, XORI, LUI, LB, LH, LWL, LW} {
      Listed1(op);
    } else if op in {LBU, LHU, LWR, SB, SH, SWL, SW, SWR, SLL} {
      Listed2(op);
    } else if op in {SRL, SRA, SLLV, SRLV, SRAV, JR, JALR, SYSCALL, MFHI} {
      Listed3(op);
    } else if op in {MTHI, MFLO, MTLO, MULT, MULTU, DIV, DIVU, ADD, ADDU} {
      Listed4(op);
    } else if op in {SUB, SUBU, AND, OR, XOR, NOR, SLT, SLTU} {
      Listed5(op);
    }
  }

  // ---------------------------------------------------------------- decoding by number

  /** A word that decodes to an instruction has its number. */
  lemma DecodedHasCode(w: Word, op: OpCode)
    requires Decode(w).opCode == op && op != UNIMP && op != RES
    ensures HasCode(w, CodeOf(op)) && op != RFE
  {
    hide CodeOf, opTable, specialTable;
    EveryMajor(w / 0x400_0000);
    EveryFunct(w % 64);
    RegimmCodes();
  }

  /** A word with the number of an instruction decodes to it. */
  lemma CodeIsDecoded(w: Word, op: OpCode)
    requires HasCode(w, CodeOf(op))
    ensures Decode(w).opCode == op
  {
    hide CodeOf, opTable, specialTable;
    EveryMajor(w / 0x400_0000);
    EveryCode(op);
    assert CodeOf(op).Regimm? ==> op in {BLTZ, BGEZ, BLTZAL, BGEZAL} by { RegimmOnly(op); }
    RegimmCodes();
    FirstEntries();
  }

  lemma FirstEntries()
    ensures opTable[0] == Special && opTable[1] == Bcond
  {
  }

  /** Decode recognises exactly the words with the number of the instruction, for every instruction there is; all
      other words are illegal instructions, and none is the one that the processor does not have a case for. */
  lemma DecodeByNumber(w: Word, op: OpCode)
    ensures CodeOf(op) != NoCode ==> (Decode(w).opCode == op <==> HasCode(w, CodeOf(op)))
    ensures Decode(w).opCode != RFE
  {
    hide CodeOf, Decode, HasCode;
    RegimmCodes();
    if Decode(w).opCode == op && op != UNIMP && op != RES {
      DecodedHasCode(w, op);
    }
    if Decode(w).opCode == RFE {
      DecodedHasCode(w, RFE);
    }
    if CodeOf(op) != NoCode && HasCode(w, CodeOf(op)) {
      CodeIsDecoded(w, op);
    }
  }

  lemma RegimmCodes()
    ensures CodeOf(BLTZ) == Regimm(0) && CodeOf(BGEZ) == Regimm(1) && CodeOf(BLTZAL) == Regimm(16) && CodeOf(BGEZAL) == Regimm(17)
    ensures CodeOf(UNIMP) == NoCode && CodeOf(RES) == NoCode && CodeOf(RFE) == NoCode
  {
    hide CodeOf;
    NoCodes();
    BranchCodes();
  }

  lemma NoCodes()
    ensures CodeOf(UNIMP) == NoCode && CodeOf(RES) == NoCode && CodeOf(RFE) == NoCode
  {
  }

  lemma BranchCodes()
    ensures CodeOf(BLTZ) == Regimm(0) && CodeOf(BGEZ) == Regimm(1) && CodeOf(BLTZAL) == Regimm(16) && CodeOf(BGEZAL) == Regimm(17)
  {
  }

  lemma RegimmOnly(op: OpCode)
    ensures CodeOf(op).Regimm? ==> op in {BLTZ, BGEZ, BLTZAL, BGEZAL}
  {
  }

  /** The fields, for every word: registers, and the immediate with its sign, the shift amount, or the jump target. */
  lemma DecodeFields(w: Word)
    ensures var i := Decode(w);
            && i.rs == w / 0x20_0000 % 32 && i.rt == w / 0x1_0000 % 32 && i.rd == w / 0x800 % 32
            && match CodeOf(i.opCode)
               case Funct(_) => i.extra == w / 64 % 32
               case Regimm(_) => ToInt(i.extra) == (if w % 0x1_0000 < 0x8000 then w % 0x1_0000 else w % 0x1_0000 - 0x1_0000)
               case Major(_) =>
                 if IsJump(i.opCode) then i.extra == w % 0x400_0000
                 else ToInt(i.extra) == (if w % 0x1_0000 < 0x8000 then w % 0x1_0000 else w % 0x1_0000 - 0x1_0000)
               case NoCode => true
  {
    hide CodeOf;
    EveryMajor(w / 0x400_0000);
    EveryFunct(w % 64);
    RegimmCodes();
  }
}
