/** What one instruction does to registers and memory, said without reference to how it is computed, and when it
    traps. Words are read as signed numbers, bits, and the bytes that the program sees. */
module Meanings {
  import opened AccessRules
  import opened Bits
  import opened Bytes
  import opened Cpu
  import opened DelayedLoads
  import opened Encodings
  import opened Instructions
  import opened Operations
  import opened StorePairs
  import opened Translation

  // ---------------------------------------------------------------- registers

  /** Every general register but `dest` is as before, register 0 is zero, and the load in progress is done. */
  predicate Kept(before: Registers, after: Registers, dest: nat) {
    forall r :: 0 <= r < NumGPRegs ==>
      if r == 0 then after[r] == 0
      else if r == before[LoadReg] then after[r] == before[LoadValueReg]
      else r != dest ==> after[r] == before[r]
  }

  /** What an instruction writes into `dest` can be seen after it. */
  predicate Shows(before: Registers, dest: nat) {
    dest != 0 && dest != before[LoadReg]
  }

  /** The processor is at the next instruction, and the one after it is at `target`. */
  predicate GoesOn(before: Registers, after: Registers, target: int) {
    && after[PrevPCReg] == before[PCReg] && after[PCReg] == before[NextPCReg]
    && Congruent(after[NextPCReg], target) && after[BadVAddrReg] == before[BadVAddrReg]
  }

  predicate KeepsHiLo(before: Registers, after: Registers) {
    after[HiReg] == before[HiReg] && after[LoReg] == before[LoReg]
  }

  predicate LoadsNothing(after: Registers) {
    after[LoadReg] == 0 && after[LoadValueReg] == 0
  }

  // ---------------------------------------------------------------- memory

  /** The address of a load or store. */
  function AddressOf(before: Registers, i: Instruction): Word {
    (before[i.rs] + i.extra) % WordRange
  }

  ghost predicate LoadMeans(op: OpCode, m: Memory, addr: Word, v: Word) {
    var b := VirtualByte(m, addr);
    match op
    case LB => ToInt(v) == if b < 0x80 then b else b - 0x100
    case LBU => v == b
    case LH => addr % 2 == 0 && var h := b + 0x100 * VirtualByte(m, addr + 1); ToInt(v) == if h < 0x8000 then h else h - 0x1_0000
    case LHU => addr % 2 == 0 && v == b + 0x100 * VirtualByte(m, addr + 1)
    case LW =>
      addr % 4 == 0
      && v == b + 0x100 * VirtualByte(m, addr + 1) + 0x1_0000 * VirtualByte(m, addr + 2) + 0x100_0000 * VirtualByte(m, addr + 3)
    case _ => false
  }

  /** The merge of LWR and LWL, byte by byte, as the two tables have it. */
  ghost predicate LoadPartMeans(op: OpCode, m: Memory, addr: Word, base: Word, v: Word) {
    var word, k := addr - addr % 4, addr % 4;
    var kept := (k + 1) % 4;
    match op
    case LWR => forall j :: 0 <= j < 4 ==> ToBytes(v)[j] == if j + k < 4 then VirtualByte(m, word + j + k) else ToBytes(base)[j]
    case LWL => forall j :: 0 <= j < 4 ==> ToBytes(v)[j] == if j < kept then ToBytes(base)[j] else VirtualByte(m, word + j - kept)
    case _ => false
  }

  /** A store of `size` bytes changes those bytes of what the program sees and no others. */
  ghost predicate StoreMeans(m: Memory, n: Memory, addr: Word, size: nat, value: Word) {
    size <= 4 && (DistinctFrames(m.tables) ==>
      forall b: Word :: VirtualByte(n, b) == if addr <= b < addr + size then ToBytes(value)[b - addr] else VirtualByte(m, b))
  }

  ghost predicate StorePartMeans(op: OpCode, m: Memory, n: Memory, addr: Word, value: Word) {
    var word, k := addr - addr % 4, addr % 4;
    DistinctFrames(m.tables) ==>
      forall b: Word ::
        VirtualByte(n, b) ==
        if op == SWR && word + k <= b < word + 4 then ToBytes(value)[b - word - k]
        else if op == SWL && word <= b <= word + k then ToBytes(value)[b - word + 3 - k]
        else VirtualByte(m, b)
  }

  /** Nothing that a program sees has changed. */
  ghost predicate KeepsMemory(m: Memory, n: Memory) {
    n.bytes == m.bytes && forall b: Word :: VirtualByte(n, b) == VirtualByte(m, b)
  }

  // ---------------------------------------------------------------- the instructions

  ghost predicate Stores(before: Registers, m: Memory, i: Instruction, size: nat, after: Registers, n: Memory) {
    var next: int := before[NextPCReg];
    && Kept(before, after, 0) && KeepsHiLo(before, after) && LoadsNothing(after)
    && GoesOn(before, after, next + 4)
    && StoreMeans(m, n, AddressOf(before, i), size, before[i.rt])
  }

  /** `i` takes registers and memory from `before` and `m` to `after` and `n`. */
  ghost predicate Means(before: Registers, m: Memory, i: Instruction, after: Registers, n: Memory) {
    var op, a, b, next := i.opCode, before[i.rs], before[i.rt], before[NextPCReg];
    var link := (next + 4) % WordRange;
    match op
    case ADD | ADDU | SUB | SUBU | AND | OR | XOR | NOR | SLT | SLTU | SLL | SLLV | SRL | SRLV | SRA | SRAV | MFHI | MFLO =>
      && Kept(before, after, i.rd) && KeepsHiLo(before, after) && LoadsNothing(after) && n == m
      && GoesOn(before, after, next + 4)
      && (Shows(before, i.rd) ==> RdMeans(op, a, b, i.extra, before[HiReg], before[LoReg], after[i.rd]))
    case ADDI | ADDIU | ANDI | ORI | XORI | LUI | SLTI | SLTIU =>
      && Kept(before, after, i.rt) && KeepsHiLo(before, after) && LoadsNothing(after) && n == m
      && GoesOn(before, after, next + 4)
      && (Shows(before, i.rt) ==> RtMeans(op, a, i.extra, after[i.rt]))
    case MULT | MULTU | DIV | DIVU | MTHI | MTLO =>
      && Kept(before, after, 0) && LoadsNothing(after) && n == m
      && GoesOn(before, after, next + 4)
      && HiLoMeans(op, a, b, before[HiReg], before[LoReg], after[HiReg], after[LoReg])
    case BEQ | BNE | BGEZ | BGTZ | BLEZ | BLTZ =>
      && Kept(before, after, 0) && KeepsHiLo(before, after) && LoadsNothing(after) && n == m
      && GoesOn(before, after, if BranchCondition(op, a, b) then next + 4 * ToInt(i.extra) else next + 4)
    case BGEZAL | BLTZAL =>
      && Kept(before, after, 31) && KeepsHiLo(before, after) && LoadsNothing(after) && n == m
      && (Shows(before, 31) ==> after[31] == link)
      && GoesOn(before, after, if BranchCondition(op, if i.rs == 31 then link else a, b) then next + 4 * ToInt(i.extra) else next + 4)
    case J =>
      && Kept(before, after, 0) && KeepsHiLo(before, after) && LoadsNothing(after) && n == m
      && GoesOn(before, after, link / 0x1000_0000 * 0x1000_0000 + 4 * i.extra)
    case JAL =>
      && Kept(before, after, 31) && KeepsHiLo(before, after) && LoadsNothing(after) && n == m
      && (Shows(before, 31) ==> after[31] == link)
      && GoesOn(before, after, link / 0x1000_0000 * 0x1000_0000 + 4 * i.extra)
    case JR =>
      && Kept(before, after, 0) && KeepsHiLo(before, after) && LoadsNothing(after) && n == m
      && GoesOn(before, after, a)
    case JALR =>
      && Kept(before, after, i.rd) && KeepsHiLo(before, after) && LoadsNothing(after) && n == m
      && (Shows(before, i.rd) ==> after[i.rd] == link)
      && GoesOn(before, after, if i.rs == i.rd then link else a)
    case LB | LBU | LH | LHU | LW =>
      && Kept(before, after, 0) && KeepsHiLo(before, after) && KeepsMemory(m, n)
      && GoesOn(before, after, next + 4)
      && after[LoadReg] == i.rt && LoadMeans(op, m, AddressOf(before, i), after[LoadValueReg])
    case LWL | LWR =>
      && Kept(before, after, 0) && KeepsHiLo(before, after) && KeepsMemory(m, n)
      && GoesOn(before, after, next + 4)
      && after[LoadReg] == i.rt
      && LoadPartMeans(op, m, AddressOf(before, i), if i.rt == before[LoadReg] then before[LoadValueReg] else b, after[LoadValueReg])
    case SB => Stores(before, m, i, 1, after, n)
    case SH => Stores(before, m, i, 2, after, n)
    case SW => Stores(before, m, i, 4, after, n)
    case SWL | SWR =>
      && Kept(before, after, 0) && KeepsHiLo(before, after) && LoadsNothing(after)
      && GoesOn(before, after, next + 4)
      && StorePartMeans(op, m, n, AddressOf(before, i), b)
    case SYSCALL | RFE | UNIMP | RES => false
  }

  predicate Fits(x: int) {
    -SignBit <= x < SignBit
  }

  /** `i` raises the exception `which`, with `bad` as the address to blame. */
  ghost predicate Raises(before: Registers, m: Memory, i: Instruction, which: ExceptionType, bad: Word) {
    var op, a, b, addr := i.opCode, before[i.rs], before[i.rt], AddressOf(before, i);
    var word := addr - addr % 4;
    match op
    case ADD => which == OverflowException && bad == 0 && !Fits(ToInt(a) + ToInt(b))
    case ADDI => which == OverflowException && bad == 0 && !Fits(ToInt(a) + ToInt(i.extra))
    case SUB => which == OverflowException && bad == 0 && !Fits(ToInt(a) - ToInt(b))
    case LB | LBU => bad == addr && AccessTraps(m.tables, addr, 1, false, which)
    case LH | LHU => bad == addr && AccessTraps(m.tables, addr, 2, false, which)
    case LW => bad == addr && AccessTraps(m.tables, addr, 4, false, which)
    case LWL | LWR => bad == word && AccessTraps(m.tables, word, 4, false, which)
    case SB => bad == addr && AccessTraps(m.tables, addr, 1, true, which)
    case SH => bad == addr && AccessTraps(m.tables, addr, 2, true, which)
    case SW => bad == addr && AccessTraps(m.tables, addr, 4, true, which)
    case SWL | SWR =>
      bad == word && (AccessTraps(m.tables, word, 4, false, which)
                      || ((forall w :: !AccessTraps(m.tables, word, 4, false, w)) && AccessTraps(m.tables, word, 4, true, which)))
    case SYSCALL => which == SyscallException && bad == 0
    case RFE | UNIMP | RES => which == IllegalInstrException && bad == 0
    case _ => false
  }

  /** What Decode guarantees of the fields. */
  predicate InRange(i: Instruction) {
    && (i.opCode in {SLL, SRL, SRA} ==> i.extra < 32)
    && (IsJump(i.opCode) ==> i.extra < 0x400_0000)
  }

  lemma DecodedInRange(w: Word)
    ensures InRange(Decode(w)) && Decode(w).opCode != RFE
  {
    hide CodeOf, Decode;
    DecodeFields(w);
    DecodeByNumber(w, SLL);
    SomeCodes();
  }

  lemma SomeCodes()
    ensures CodeOf(SLL) == Funct(0) && CodeOf(SRL) == Funct(2) && CodeOf(SRA) == Funct(3) && CodeOf(J) == Major(2) && CodeOf(JAL) == Major(3)
  {
  }

  // ---------------------------------------------------------------- the end of an instruction

  /** The state after an instruction that did not trap. */
  function Ends(e: Effect): Registers
    requires e.Continue?
  {
    Advance(DelayedLoad(e.regs, e.nextLoadReg, e.nextLoadValue), e.pcAfter)
  }

  /** Writing `dest`, then completing the load in progress, then moving on. */
  lemma EndsWith(before: Registers, dest: RegNum, v: Word, m: Memory, r: RegNum, lv: Word, pcAfter: Word)
    ensures var after := Ends(Continue(before[dest := v], m, r, lv, pcAfter));
            && Kept(before, after, dest) && KeepsHiLo(before, after) && GoesOn(before, after, pcAfter)
            && (Shows(before, dest) ==> after[dest] == v)
            && after[LoadReg] == r && after[LoadValueReg] == lv
  {
  }

  lemma EndsPlainly(before: Registers, m: Memory, r: RegNum, lv: Word, pcAfter: Word)
    ensures var after := Ends(Continue(before, m, r, lv, pcAfter));
            && Kept(before, after, 0) && KeepsHiLo(before, after) && GoesOn(before, after, pcAfter)
            && after[LoadReg] == r && after[LoadValueReg] == lv
  {
  }

  lemma NextMeans(next: Word)
    ensures Plus(next, 4) == (next + 4) % WordRange && Congruent(Plus(next, 4), next + 4)
  {
  }

  lemma CongruentTarget(before: Registers, after: Registers, t: Word, target: int)
    requires GoesOn(before, after, t) && Congruent(t, target)
    ensures GoesOn(before, after, target)
  {
  }

  // ---------------------------------------------------------------- group by group

  lemma ComputesMean(regs: Registers, m: Memory, i: Instruction)
    requires KindOf(i.opCode) == ToRd || KindOf(i.opCode) == ToRt
    requires InRange(i) && Execute(regs, m, i).Continue?
    ensures Means(regs, m, i, Ends(Execute(regs, m, i)), Execute(regs, m, i).memory)
  {
    hide RdMeans, RtMeans, ResultRd, ResultRt, Overflows, Kept, GoesOn, KeepsHiLo, Shows, DelayedLoad, Advance, Plus, Congruent, CodeOf;
    var op, a, b := i.opCode, regs[i.rs], regs[i.rt];
    var v := if KindOf(op) == ToRd then ResultRd(op, a, b, i.extra, regs[HiReg], regs[LoReg]) else ResultRt(op, a, i.extra);
    EndsWith(regs, if KindOf(op) == ToRd then i.rd else i.rt, v, m, 0, 0, PlainNext(regs));
    var next: int := regs[NextPCReg];
    NextMeans(next);
    CongruentTarget(regs, Ends(Execute(regs, m, i)), PlainNext(regs), next + 4);
    if KindOf(op) == ToRd {
      RdShown(regs, i);
    } else {
      ResultRtMeans(op, a, i.extra);
    }
  }

  lemma RdShown(regs: Registers, i: Instruction)
    requires KindOf(i.opCode) == ToRd && InRange(i) && !Overflows(i.opCode, regs[i.rs], regs[i.rt])
    ensures var op, a, b := i.opCode, regs[i.rs], regs[i.rt];
            RdMeans(op, a, b, i.extra, regs[HiReg], regs[LoReg], ResultRd(op, a, b, i.extra, regs[HiReg], regs[LoReg]))
  {
    hide RdMeans, ResultRd, Overflows;
    var op, a, b := i.opCode, regs[i.rs], regs[i.rt];
    if op in {SLL, SRL, SRA} {
      ResultRdMeans(op, a, b, i.extra, regs[HiReg], regs[LoReg]);
    } else {
      ShamtUnused(op, a, b, i.extra, regs[HiReg], regs[LoReg]);
      ResultRdMeans(op, a, b, 0, regs[HiReg], regs[LoReg]);
    }
  }

  lemma ShamtUnused(op: OpCode, a: Word, b: Word, shamt: Word, hi: Word, lo: Word)
    requires op !in {SLL, SRL, SRA}
    ensures ResultRd(op, a, b, shamt, hi, lo) == ResultRd(op, a, b, 0, hi, lo)
    ensures forall v :: RdMeans(op, a, b, shamt, hi, lo, v) <==> RdMeans(op, a, b, 0, hi, lo, v)
  {
    hide Plus, Minus, WordOp, Not, ShiftLeft, ShiftRight, ShiftRightSigned, TestBit, ToInt, ShiftedLeft, ShiftedRight, ShiftedRightSigned;
  }

  lemma HiLoMean(regs: Registers, m: Memory, i: Instruction)
    requires KindOf(i.opCode) == ToHiLo
    ensures Execute(regs, m, i).Continue? && Means(regs, m, i, Ends(Execute(regs, m, i)), Execute(regs, m, i).memory)
  {
    hide HiLoMeans, ResultHiLo, Plus, Congruent, CodeOf;
    var op, a, b := i.opCode, regs[i.rs], regs[i.rt];
    ResultHiLoMeans(op, a, b, regs[HiReg], regs[LoReg]);
    NextMeans(regs[NextPCReg]);
  }

  lemma BranchesMean(regs: Registers, m: Memory, i: Instruction)
    requires KindOf(i.opCode) == Branch || KindOf(i.opCode) == Link
    ensures Execute(regs, m, i).Continue? && Means(regs, m, i, Ends(Execute(regs, m, i)), Execute(regs, m, i).memory)
  {
    hide Taken, BranchCondition, Kept, GoesOn, KeepsHiLo, Shows, DelayedLoad, Advance, Plus, Congruent, ByteOffset, ToInt, CodeOf;
    var op, next := i.opCode, regs[NextPCReg];
    var e := Execute(regs, m, i);
    var link := Plus(next, 4);
    NextMeans(next);
    BranchTarget(next, i.extra);
    if KindOf(op) == Branch {
      TakenMeans(op, regs[i.rs], regs[i.rt]);
      EndsPlainly(regs, m, 0, 0, e.pcAfter);
      CongruentTarget(regs, Ends(e), e.pcAfter, if BranchCondition(op, regs[i.rs], regs[i.rt]) then next + 4 * ToInt(i.extra) else next + 4);
    } else {
      var a := if i.rs == 31 then link else regs[i.rs];
      TakenMeans(op, a, regs[i.rt]);
      EndsWith(regs, R31, link, m, 0, 0, e.pcAfter);
      CongruentTarget(regs, Ends(e), e.pcAfter, if BranchCondition(op, a, regs[i.rt]) then next + 4 * ToInt(i.extra) else next + 4);
    }
  }

  lemma BranchTarget(next: Word, extra: Word)
    ensures Congruent(Plus(next, ByteOffset(extra)), next + 4 * ToInt(extra))
  {
  }

  lemma JumpMeans(regs: Registers, m: Memory, i: Instruction)
    requires i.opCode == J && InRange(i)
    ensures Execute(regs, m, i).Continue? && Means(regs, m, i, Ends(Execute(regs, m, i)), Execute(regs, m, i).memory)
  {
    hide JumpTarget, Kept, GoesOn, KeepsHiLo, Shows, DelayedLoad, Advance, Plus, Congruent, CodeOf;
    var e, link := Execute(regs, m, i), Plus(regs[NextPCReg], 4);
    NextMeans(regs[NextPCReg]);
    JumpTargetMeans(link, i.extra);
    Reflexive(e.pcAfter);
    EndsPlainly(regs, m, 0, 0, e.pcAfter);
  }

  lemma JumpAndLinkMeans(regs: Registers, m: Memory, i: Instruction)
    requires i.opCode == JAL && InRange(i)
    ensures Execute(regs, m, i).Continue? && Means(regs, m, i, Ends(Execute(regs, m, i)), Execute(regs, m, i).memory)
  {
    hide JumpTarget, Kept, GoesOn, KeepsHiLo, Shows, DelayedLoad, Advance, Plus, Congruent, CodeOf;
    var e, link := Execute(regs, m, i), Plus(regs[NextPCReg], 4);
    NextMeans(regs[NextPCReg]);
    JumpTargetMeans(link, i.extra);
    Reflexive(e.pcAfter);
    EndsWith(regs, R31, link, m, 0, 0, e.pcAfter);
  }

  lemma JumpToRegisterMeans(regs: Registers, m: Memory, i: Instruction)
    requires i.opCode == JR
    ensures Execute(regs, m, i).Continue? && Means(regs, m, i, Ends(Execute(regs, m, i)), Execute(regs, m, i).memory)
  {
    hide JumpTarget, Kept, GoesOn, KeepsHiLo, Shows, DelayedLoad, Advance, Plus, Congruent, CodeOf;
    var e, link := Execute(regs, m, i), Plus(regs[NextPCReg], 4);
    NextMeans(regs[NextPCReg]);
    Reflexive(e.pcAfter);
    EndsPlainly(regs, m, 0, 0, e.pcAfter);
  }

  lemma JumpToRegisterAndLinkMeans(regs: Registers, m: Memory, i: Instruction)
    requires i.opCode == JALR
    ensures Execute(regs, m, i).Continue? && Means(regs, m, i, Ends(Execute(regs, m, i)), Execute(regs, m, i).memory)
  {
    hide JumpTarget, Kept, GoesOn, KeepsHiLo, Shows, DelayedLoad, Advance, Plus, Congruent, CodeOf;
    var e, link := Execute(regs, m, i), Plus(regs[NextPCReg], 4);
    NextMeans(regs[NextPCReg]);
    Reflexive(e.pcAfter);
    EndsWith(regs, i.rd, link, m, 0, 0, e.pcAfter);
  }

  lemma Reflexive(x: int)
    ensures Congruent(x, x)
  {
  }

  // ---------------------------------------------------------------- loads and stores

  /** An access that is allowed sees the bytes at its address, and leaves everything that a program sees. */
  lemma ReadSees(m: Memory, addr: Word, size: nat, k: nat)
    requires (size == 1 || size == 2 || size == 4) && k < size && ReadMem(m, addr, size).Value?
    ensures addr + k < WordRange && !Misaligned(addr, size)
    ensures var p := Translate(m.tables, addr, size, false).physAddr;
            p + size <= MemorySize && VirtualByte(m, addr + k) == m.bytes[p + k]
  {
    hide TlbSlotFrom, FindEntry;
    AccessFitsFrame(m.tables, addr, size, false);
    SamePageAs(addr, k);
  }

  lemma SamePageAs(addr: Word, k: nat)
    requires addr % PageSize + k < PageSize
    ensures addr + k < WordRange && (addr + k) / PageSize == addr / PageSize && (addr + k) % PageSize == addr % PageSize + k
  {
    assert addr % PageSize == addr - addr / PageSize * PageSize;
  }

  lemma ReadKeepsMemory(m: Memory, addr: Word, size: nat)
    requires (size == 1 || size == 2 || size == 4) && ReadMem(m, addr, size).Value?
    ensures KeepsMemory(m, ReadMem(m, addr, size).memory)
  {
    hide TlbSlotFrom, FindEntry, VirtualByte;
    forall b: Word
      ensures VirtualByte(ReadMem(m, addr, size).memory, b) == VirtualByte(m, b)
    {
      ReadKeepsByte(m, addr, size, b);
    }
  }

  lemma ReadKeepsByte(m: Memory, addr: Word, size: nat, b: Word)
    requires (size == 1 || size == 2 || size == 4) && ReadMem(m, addr, size).Value?
    ensures VirtualByte(ReadMem(m, addr, size).memory, b) == VirtualByte(m, b)
  {
    hide TlbSlotFrom, FindEntry;
    TranslateKeepsTranslations(m.tables, addr, size, false, b, 1, false);
  }

  /** The bytes that a load finds, and what it makes of them. */
  ghost predicate BytesMean(op: OpCode, s: seq<int>, v: Word) {
    match op
    case LB => |s| == 1 && ToInt(v) == if s[0] < 0x80 then s[0] else s[0] - 0x100
    case LBU => |s| == 1 && v == s[0]
    case LH => |s| == 2 && var h := s[0] + 0x100 * s[1]; ToInt(v) == if h < 0x8000 then h else h - 0x1_0000
    case LHU => |s| == 2 && v == s[0] + 0x100 * s[1]
    case LW => |s| == 4 && v == s[0] + 0x100 * s[1] + 0x1_0000 * s[2] + 0x100_0000 * s[3]
    case _ => false
  }

  lemma LoadedBytes(op: OpCode, s: seq<byte>)
    requires KindOf(op) == Load && |s| == AccessSize(op)
    ensures BytesMean(op, s, Loaded(op, Widened(s)))
  {
  }

  lemma LoadedMeans(op: OpCode, m: Memory, addr: Word)
    requires KindOf(op) == Load && ReadMem(m, addr, AccessSize(op)).Value?
    ensures LoadMeans(op, m, addr, Loaded(op, ReadMem(m, addr, AccessSize(op)).value))
  {
    hide VirtualByte, Translate, Widened, Loaded, ToInt;
    var size := AccessSize(op);
    var p := Translate(m.tables, addr, size, false).physAddr;
    ReadSees(m, addr, size, 0);
    ReadSees(m, addr, size, size - 1);
    if size == 4 {
      ReadSees(m, addr, 4, 1);
      ReadSees(m, addr, 4, 2);
    }
    var s := m.bytes[p..p + size];
    assert forall j :: 0 <= j < size ==> s[j] == m.bytes[p + j];
    LoadedBytes(op, s);
  }

  lemma LoadsMean(regs: Registers, m: Memory, i: Instruction)
    requires KindOf(i.opCode) == Load && Execute(regs, m, i).Continue?
    ensures Means(regs, m, i, Ends(Execute(regs, m, i)), Execute(regs, m, i).memory)
  {
    hide LoadMeans, Loaded, ReadMem, KeepsMemory, Kept, GoesOn, KeepsHiLo, DelayedLoad, Advance, Plus, Congruent, CodeOf;
    var e, next: int := Execute(regs, m, i), regs[NextPCReg];
    var addr := Plus(regs[i.rs], i.extra);
    SameAddress(regs, i);
    LoadedMeans(i.opCode, m, addr);
    ReadKeepsMemory(m, addr, AccessSize(i.opCode));
    EndsPlainly(regs, e.memory, e.nextLoadReg, e.nextLoadValue, e.pcAfter);
    NextMeans(next);
    CongruentTarget(regs, Ends(e), e.pcAfter, next + 4);
  }

  lemma SameAddress(regs: Registers, i: Instruction)
    ensures AddressOf(regs, i) == Plus(regs[i.rs], i.extra)
  {
  }

  /** The merge of the two tables, byte by byte. */
  lemma MergedBytes(op: OpCode, base: Word, value: Word, k: nat, j: nat)
    requires (op == LWR || op == LWL) && k < 4 && j < 4
    ensures var kept := (k + 1) % 4;
            ToBytes(Merged(op, base, value, k))[j] ==
            if op == LWR then (if j + k < 4 then ToBytes(value)[j + k] else ToBytes(base)[j])
            else if j < kept then ToBytes(base)[j] else ToBytes(value)[j - kept]
  {
    if op == LWR {
      LwrBytes(base, value, k);
    } else {
      LwlBytes(base, value, k);
    }
  }

  lemma LwrWord(base: Word, value: Word, k: nat)
    requires k < 4
    ensures var b, v := ToBytes(base), ToBytes(value);
            Merged(LWR, base, value, k) ==
            (if k == 0 then value
             else if k == 1 then JoinBytes(v[1], v[2], v[3], b[3])
             else if k == 2 then JoinBytes(v[2], v[3], b[2], b[3])
             else JoinBytes(v[3], b[1], b[2], b[3]))
  {
    hide ToBytes;
    Digits(base);
    Digits(value);
  }

  lemma LwrBytes(base: Word, value: Word, k: nat)
    requires k < 4
    ensures forall j :: 0 <= j < 4 ==>
              ToBytes(Merged(LWR, base, value, k))[j] == if j + k < 4 then ToBytes(value)[j + k] else ToBytes(base)[j]
  {
    hide ToBytes, Merged, JoinBytes;
    LwrWord(base, value, k);
    var b, v := ToBytes(base), ToBytes(value);
    if k == 1 {
      BytesRoundTrip(v[1], v[2], v[3], b[3]);
    } else if k == 2 {
      BytesRoundTrip(v[2], v[3], b[2], b[3]);
    } else if k == 3 {
      BytesRoundTrip(v[3], b[1], b[2], b[3]);
    }
  }

  lemma LwlWord(base: Word, value: Word, k: nat)
    requires k < 4
    ensures var b, v := ToBytes(base), ToBytes(value);
            Merged(LWL, base, value, k) ==
            (if k == 0 then JoinBytes(b[0], v[0], v[1], v[2])
             else if k == 1 then JoinBytes(b[0], b[1], v[0], v[1])
             else if k == 2 then JoinBytes(b[0], b[1], b[2], v[0])
             else value)
  {
    hide ToBytes;
    Digits(base);
    Digits(value);
  }

  lemma LwlBytes(base: Word, value: Word, k: nat)
    requires k < 4
    ensures var kept := (k + 1) % 4;
            forall j :: 0 <= j < 4 ==>
              ToBytes(Merged(LWL, base, value, k))[j] == if j < kept then ToBytes(base)[j] else ToBytes(value)[j - kept]
  {
    hide ToBytes, Merged, JoinBytes;
    LwlWord(base, value, k);
    var b, v := ToBytes(base), ToBytes(value);
    if k == 0 {
      BytesRoundTrip(b[0], v[0], v[1], v[2]);
    } else if k == 1 {
      BytesRoundTrip(b[0], b[1], v[0], v[1]);
    } else if k == 2 {
      BytesRoundTrip(b[0], b[1], b[2], v[0]);
    }
  }

  lemma LoadPartsMean(regs: Registers, m: Memory, i: Instruction)
    requires KindOf(i.opCode) == LoadPart && Execute(regs, m, i).Continue?
    ensures Means(regs, m, i, Ends(Execute(regs, m, i)), Execute(regs, m, i).memory)
  {
    hide LoadPartMeans, Merged, ReadMem, KeepsMemory, Kept, GoesOn, KeepsHiLo, DelayedLoad, Advance, Plus, Congruent, CodeOf;
    var e, next: int := Execute(regs, m, i), regs[NextPCReg];
    var addr := Plus(regs[i.rs], i.extra);
    SameAddress(regs, i);
    MergeMeans(i.opCode, m, addr, MergeBase(regs, i.rt));
    ReadKeepsMemory(m, addr - addr % 4, 4);
    EndsPlainly(regs, e.memory, e.nextLoadReg, e.nextLoadValue, e.pcAfter);
    NextMeans(next);
    CongruentTarget(regs, Ends(e), e.pcAfter, next + 4);
  }

  lemma MergeMeans(op: OpCode, m: Memory, addr: Word, base: Word)
    requires (op == LWR || op == LWL) && ReadMem(m, addr - addr % 4, 4).Value?
    ensures LoadPartMeans(op, m, addr, base, Merged(op, base, ReadMem(m, addr - addr % 4, 4).value, addr % 4))
  {
    hide VirtualByte, Translate, ToBytes, Merged, ReadMem;
    var word, k := addr - addr % 4, addr % 4;
    var value := ReadMem(m, word, 4).value;
    WordSeen(m, word);
    forall j: nat | j < 4
      ensures ToBytes(Merged(op, base, value, k))[j] ==
              if op == LWR then (if j + k < 4 then VirtualByte(m, word + j + k) else ToBytes(base)[j])
              else if j < (k + 1) % 4 then ToBytes(base)[j] else VirtualByte(m, word + j - (k + 1) % 4)
    {
      MergedBytes(op, base, value, k, j);
    }
  }

  lemma WordSeen(m: Memory, word: Word)
    requires word % 4 == 0 && ReadMem(m, word, 4).Value?
    ensures forall j :: 0 <= j < 4 ==> word + j < WordRange && VirtualByte(m, word + j) == ToBytes(ReadMem(m, word, 4).value)[j]
  {
    hide VirtualByte, ToBytes, ReadMem;
    forall j: nat | j < 4
      ensures word + j < WordRange && VirtualByte(m, word + j) == ToBytes(ReadMem(m, word, 4).value)[j]
    {
      ReadSees(m, word, 4, j);
      ByteOfWord(m, word, word + j);
    }
  }

  lemma StoresMean(regs: Registers, m: Memory, i: Instruction)
    requires KindOf(i.opCode) == Store && Execute(regs, m, i).Continue?
    ensures Means(regs, m, i, Ends(Execute(regs, m, i)), Execute(regs, m, i).memory)
  {
    hide StoreMeans, WriteMem, Kept, GoesOn, KeepsHiLo, DelayedLoad, Advance, Plus, Congruent, CodeOf;
    var e, next: int := Execute(regs, m, i), regs[NextPCReg];
    var addr := Plus(regs[i.rs], i.extra);
    SameAddress(regs, i);
    WriteMeans(m, addr, AccessSize(i.opCode), regs[i.rt]);
    EndsPlainly(regs, e.memory, e.nextLoadReg, e.nextLoadValue, e.pcAfter);
    NextMeans(next);
    CongruentTarget(regs, Ends(e), e.pcAfter, next + 4);
  }

  lemma WriteMeans(m: Memory, addr: Word, size: nat, value: Word)
    requires (size == 1 || size == 2 || size == 4) && WriteMem(m, addr, size, value).Written?
    ensures StoreMeans(m, WriteMem(m, addr, size, value).memory, addr, size, value)
  {
    hide VirtualByte, WriteMem, ToBytes, DistinctFrames;
    if DistinctFrames(m.tables) {
      var n := WriteMem(m, addr, size, value).memory;
      forall b: Word
        ensures VirtualByte(n, b) == if addr <= b < addr + size then ToBytes(value)[b - addr] else VirtualByte(m, b)
      {
        ByteAfterWrite(m, addr, size, value, b);
      }
    }
  }

  lemma StorePartsMean(regs: Registers, m: Memory, i: Instruction)
    requires KindOf(i.opCode) == StorePart && Execute(regs, m, i).Continue?
    ensures Means(regs, m, i, Ends(Execute(regs, m, i)), Execute(regs, m, i).memory)
  {
    hide StorePartMeans, Execute, Kept, GoesOn, KeepsHiLo, DelayedLoad, Advance, Plus, Congruent, CodeOf;
    hide ReadMem, WriteMem, StoredPart;
    var e, next: int := Execute(regs, m, i), regs[NextPCReg];
    SameAddress(regs, i);
    PartStoreIs(regs, m, i);
    PartWriteMeans(regs, m, i);
    EndsPlainly(regs, e.memory, 0, 0, e.pcAfter);
    NextMeans(next);
    CongruentTarget(regs, Ends(e), e.pcAfter, next + 4);
  }

  lemma PartWriteMeans(regs: Registers, m: Memory, i: Instruction)
    requires (i.opCode == SWR || i.opCode == SWL) && Execute(regs, m, i).Continue?
    ensures StorePartMeans(i.opCode, m, Execute(regs, m, i).memory, Plus(regs[i.rs], i.extra), regs[i.rt])
  {
    hide VirtualByte, Execute, ToBytes, DistinctFrames, Plus;
    if DistinctFrames(m.tables) {
      forall b: Word {
        PartStoreBytes(regs, m, i, b);
      }
    }
  }

  // ---------------------------------------------------------------- the theorem

  /** Every instruction that does not trap means what the architecture says. */
  lemma ExecuteMeans(regs: Registers, m: Memory, i: Instruction)
    requires InRange(i) && Execute(regs, m, i).Continue?
    ensures Means(regs, m, i, Ends(Execute(regs, m, i)), Execute(regs, m, i).memory)
  {
    hide Means, Execute, Ends, CodeOf;
    GroupOf(i.opCode);
    NeverContinues(regs, m, i);
    match KindOf(i.opCode)
    case ToRd => ComputesMean(regs, m, i);
    case ToRt => ComputesMean(regs, m, i);
    case ToHiLo => HiLoMean(regs, m, i);
    case Branch => BranchesMean(regs, m, i);
    case Link => BranchesMean(regs, m, i);
    case Jump => JumpMeans(regs, m, i);
    case JumpLink => JumpAndLinkMeans(regs, m, i);
    case JumpReg => JumpToRegisterMeans(regs, m, i);
    case JumpRegLink => JumpToRegisterAndLinkMeans(regs, m, i);
    case Load => LoadsMean(regs, m, i);
    case LoadPart => LoadPartsMean(regs, m, i);
    case Store => StoresMean(regs, m, i);
    case StorePart => StorePartsMean(regs, m, i);
    case _ =>
  }

  lemma GroupOf(op: OpCode)
    ensures KindOf(op) == Jump ==> op == J
    ensures KindOf(op) == JumpLink ==> op == JAL
    ensures KindOf(op) == JumpReg ==> op == JR
    ensures KindOf(op) == JumpRegLink ==> op == JALR
  {
  }

  lemma NeverContinues(regs: Registers, m: Memory, i: Instruction)
    ensures KindOf(i.opCode) == System || KindOf(i.opCode) == Illegal ==> Execute(regs, m, i).Raised?
  {
    hide ResultRd, ResultRt, ResultHiLo, Overflows, Plus, Taken, JumpTarget, ExecuteLoad, ExecuteLoadPart, ExecuteStore, ExecuteStorePart;
  }

  // ---------------------------------------------------------------- traps

  lemma ReadTraps(m: Memory, addr: Word, size: nat, which: ExceptionType)
    requires size == 1 || size == 2 || size == 4
    ensures ReadMem(m, addr, size) == ReadTrap(which) <==> AccessTraps(m.tables, addr, size, false, which)
  {
    hide AccessTraps, Translate;
    TranslateExactly(m.tables, addr, size, false);
  }

  lemma WriteTraps(m: Memory, addr: Word, size: nat, value: Word, which: ExceptionType)
    requires size == 1 || size == 2 || size == 4
    ensures WriteMem(m, addr, size, value) == WriteTrap(which) <==> AccessTraps(m.tables, addr, size, true, which)
  {
    hide AccessTraps, Translate;
    TranslateExactly(m.tables, addr, size, true);
  }

  /** A read that is allowed does not change which writes are. */
  lemma WriteTrapsAfterRead(m: Memory, addr: Word, value: Word, which: ExceptionType)
    requires ReadMem(m, addr, 4).Value?
    ensures WriteMem(ReadMem(m, addr, 4).memory, addr, 4, value) == WriteTrap(which) <==> AccessTraps(m.tables, addr, 4, true, which)
  {
    hide AccessTraps, Translate;
    WriteTraps(m, addr, 4, value, which);
    TranslateKeepsTranslations(m.tables, addr, 4, false, addr, 4, true);
  }

  lemma TransferTraps(regs: Registers, m: Memory, i: Instruction, which: ExceptionType, bad: Word)
    requires KindOf(i.opCode) == Load || KindOf(i.opCode) == Store || KindOf(i.opCode) == LoadPart
    ensures (var e := Execute(regs, m, i); e.Raised? && e.which == which && e.badVAddr == bad) <==> Raises(regs, m, i, which, bad)
  {
    hide AccessTraps, ReadMem, WriteMem, Plus, Loaded, Merged, CodeOf;
    var addr, word := Plus(regs[i.rs], i.extra), Plus(regs[i.rs], i.extra) - Plus(regs[i.rs], i.extra) % 4;
    SameAddress(regs, i);
    if KindOf(i.opCode) == Load {
      ReadTraps(m, addr, AccessSize(i.opCode), which);
      MisalignedTraps(m.tables, addr, AccessSize(i.opCode), which);
    } else if KindOf(i.opCode) == Store {
      WriteTraps(m, addr, AccessSize(i.opCode), regs[i.rt], which);
    } else {
      ReadTraps(m, word, 4, which);
    }
  }

  lemma MisalignedTraps(tables: Tables, addr: Word, size: nat, which: ExceptionType)
    ensures Misaligned(addr, size) ==> (AccessTraps(tables, addr, size, false, which) <==> which == AddressErrorException)
  {
  }

  lemma PartStoreTraps(regs: Registers, m: Memory, i: Instruction, which: ExceptionType, bad: Word)
    requires KindOf(i.opCode) == StorePart
    ensures (var e := Execute(regs, m, i); e.Raised? && e.which == which && e.badVAddr == bad) <==> Raises(regs, m, i, which, bad)
  {
    hide AccessTraps, ReadMem, WriteMem, Plus, StoredPart, Execute, Raises;
    PartStoreIs(regs, m, i);
    SameAddress(regs, i);
    PartRaises(regs, m, i, which, bad);
    var addr := Plus(regs[i.rs], i.extra);
    var word := addr - addr % 4;
    forall w
      ensures ReadMem(m, word, 4) == ReadTrap(w) <==> AccessTraps(m.tables, word, 4, false, w)
    {
      ReadTraps(m, word, 4, w);
    }
    var r := ReadMem(m, word, 4);
    if r.Value? {
      WriteTrapsAfterRead(m, word, StoredPart(i.opCode, r.value, regs[i.rt], addr % 4), which);
    } else {
      assert AccessTraps(m.tables, word, 4, false, r.which);
    }
  }

  lemma PartRaises(regs: Registers, m: Memory, i: Instruction, which: ExceptionType, bad: Word)
    requires KindOf(i.opCode) == StorePart
    ensures var word := AddressOf(regs, i) - AddressOf(regs, i) % 4;
            Raises(regs, m, i, which, bad) <==>
            bad == word && (AccessTraps(m.tables, word, 4, false, which)
                            || ((forall w :: !AccessTraps(m.tables, word, 4, false, w)) && AccessTraps(m.tables, word, 4, true, which)))
  {
    hide AccessTraps;
  }

  lemma OtherTraps(regs: Registers, m: Memory, i: Instruction, which: ExceptionType, bad: Word)
    requires KindOf(i.opCode) !in {Load, LoadPart, Store, StorePart}
    ensures (var e := Execute(regs, m, i); e.Raised? && e.which == which && e.badVAddr == bad) <==> Raises(regs, m, i, which, bad)
  {
    hide ResultRd, ResultRt, ResultHiLo, Plus, Taken, JumpTarget, ExecuteLoad, ExecuteLoadPart, ExecuteStore, ExecuteStorePart, Overflows, ToInt, CodeOf;
    OverflowIsExact(regs[i.rs], regs[i.rt]);
    OverflowIsExact(regs[i.rs], i.extra);
    NeverOverflows(i.opCode, regs[i.rs], regs[i.rt], i.extra);
  }

  lemma NeverOverflows(op: OpCode, a: Word, b: Word, extra: Word)
    ensures op !in {ADD, ADDI, SUB} ==> !Overflows(op, a, b) && !Overflows(op, a, extra)
  {
  }

  /** An instruction traps, with an exception and an address to blame, exactly when the architecture says so. */
  lemma ExecuteRaises(regs: Registers, m: Memory, i: Instruction, which: ExceptionType, bad: Word)
    ensures (var e := Execute(regs, m, i); e.Raised? && e.which == which && e.badVAddr == bad) <==> Raises(regs, m, i, which, bad)
  {
    hide Execute, Raises;
    match KindOf(i.opCode)
    case Load => TransferTraps(regs, m, i, which, bad);
    case LoadPart => TransferTraps(regs, m, i, which, bad);
    case Store => TransferTraps(regs, m, i, which, bad);
    case StorePart => PartStoreTraps(regs, m, i, which, bad);
    case _ => OtherTraps(regs, m, i, which, bad);
  }

  // ---------------------------------------------------------------- what an instruction has to do with a register

  /** The instructions that use the contents of register `rs`, but for jumps to a register and branches. */
  predicate TakesRs(op: OpCode) {
    op in {ADD, ADDU, SUB, SUBU, AND, OR, XOR, NOR, SLT, SLTU, SLLV, SRLV, SRAV, ADDI, ADDIU, ANDI, ORI, XORI, SLTI, SLTIU,
           MULT, MULTU, DIV, DIVU, MTHI, MTLO, LB, LBU, LH, LHU, LW, LWL, LWR, SB, SH, SW, SWL, SWR}
  }

  predicate TakesRt(op: OpCode) {
    op in {ADD, ADDU, SUB, SUBU, AND, OR, XOR, NOR, SLT, SLTU, SLL, SLLV, SRL, SRLV, SRA, SRAV, MULT, MULTU, DIV, DIVU,
           BEQ, BNE, SB, SH, SW, SWL, SWR}
  }

  predicate GivesRd(op: OpCode) {
    op in {ADD, ADDU, SUB, SUBU, AND, OR, XOR, NOR, SLT, SLTU, SLL, SLLV, SRL, SRLV, SRA, SRAV, MFHI, MFLO, JALR}
  }

  predicate GivesRt(op: OpCode) {
    op in {ADDI, ADDIU, ANDI, ORI, XORI, LUI, SLTI, SLTIU}
  }

  /** An instruction keeps out of the way of a load exactly when it does not use the register that is being loaded, nor
      write it directly; a load into the register, and the merge of LWL and LWR, are no hazard. */
  lemma HazardFreeExactly(i: Instruction, r: RegNum)
    ensures HazardFree(i, r) <==>
            r == 0
            || !((r == i.rs && (TakesRs(i.opCode) || i.opCode in {BEQ, BNE, BGEZ, BGEZAL, BLTZ, BLTZAL, BGTZ, BLEZ, JR, JALR}))
                 || (r == i.rt && (TakesRt(i.opCode) || GivesRt(i.opCode)))
                 || (r == i.rd && GivesRd(i.opCode))
                 || (r == 31 && i.opCode in {JAL, BGEZAL, BLTZAL}))
  {
  }

  // ---------------------------------------------------------------- fetch and execute

  /** A trap completes the load in progress, notes the address, and leaves the processor at the instruction. */
  predicate TrapsTo(before: Registers, after: Registers, bad: Word) {
    && Kept(before, after, 0) && KeepsHiLo(before, after) && LoadsNothing(after)
    && after[PrevPCReg] == before[PrevPCReg] && after[PCReg] == before[PCReg] && after[NextPCReg] == before[NextPCReg] && after[BadVAddrReg] == bad
  }

  /** From `s` one instruction is fetched and executed, which leads to `t`, with the exception `trap` if it traps. */
  ghost predicate InstructionMeans(s: State, trap: ExceptionType, t: State) {
    var pc := s.regs[PCReg];
    if exists which :: AccessTraps(s.memory.tables, pc, 4, false, which)
    then AccessTraps(s.memory.tables, pc, 4, false, trap) && TrapsTo(s.regs, t.regs, pc) && t.memory == s.memory
    else exists w: Word, m: Memory :: Fetches(s.memory, pc, w, m) && DecodedMeans(s.regs, m, Decode(w), trap, t)
  }

  /** The word `w` is at address `pc`; fetching it changes nothing that a program sees. */
  ghost predicate Fetches(before: Memory, pc: Word, w: Word, m: Memory) {
    LoadMeans(LW, before, pc, w) && KeepsMemory(before, m) && (DistinctFrames(before.tables) ==> DistinctFrames(m.tables))
  }

  ghost predicate DecodedMeans(regs: Registers, m: Memory, i: Instruction, trap: ExceptionType, t: State) {
    if exists which, bad :: Raises(regs, m, i, which, bad)
    then exists bad :: Raises(regs, m, i, trap, bad) && TrapsTo(regs, t.regs, bad) && t.memory.bytes == m.bytes
    else trap == NoException && Means(regs, m, i, t.regs, t.memory)
  }

  /** The state that an instruction ends in: the next one, or the one that the kernel's handler finds. */
  function StateAfter(s: State): State {
    match InstructionEffect(s)
    case Raised(which, bad, m) => State(Raise(s.regs, bad), m)
    case Continue(regs, m, r, v, pcAfter) => State(Advance(DelayedLoad(regs, r, v), pcAfter), m)
  }

  function TrapOf(s: State): ExceptionType {
    if InstructionEffect(s).Raised? then InstructionEffect(s).which else NoException
  }

  lemma RaiseTraps(regs: Registers, bad: Word)
    ensures TrapsTo(regs, Raise(regs, bad), bad)
  {
  }

  lemma FetchMeans(m: Memory, pc: Word)
    requires ReadMem(m, pc, 4).Value?
    ensures Fetches(m, pc, ReadMem(m, pc, 4).value, ReadMem(m, pc, 4).memory)
  {
    hide LoadMeans, KeepsMemory, DistinctFrames, Translate;
    LoadedMeans(LW, m, pc);
    ReadKeepsMemory(m, pc, 4);
    if DistinctFrames(m.tables) {
      AccessKeepsFrames(m.tables, pc, 4, false);
    }
  }

  lemma EffectMeans(regs: Registers, m: Memory, i: Instruction, t: State)
    requires InRange(i)
    requires match Execute(regs, m, i)
             case Raised(which, bad, n) => t == State(Raise(regs, bad), n)
             case Continue(x, n, r, v, pcAfter) => t == State(Advance(DelayedLoad(x, r, v), pcAfter), n)
    ensures DecodedMeans(regs, m, i, if Execute(regs, m, i).Raised? then Execute(regs, m, i).which else NoException, t)
  {
    hide Execute, Raises, Means, Raise, Advance, DelayedLoad, TrapsTo, CodeOf;
    forall which, bad
      ensures (var e := Execute(regs, m, i); e.Raised? && e.which == which && e.badVAddr == bad) <==> Raises(regs, m, i, which, bad)
    {
      ExecuteRaises(regs, m, i, which, bad);
    }
    var e := Execute(regs, m, i);
    if e.Raised? {
      assert Raises(regs, m, i, e.which, e.badVAddr);
      RaiseTraps(regs, e.badVAddr);
      TrapChangesNothing(regs, m, i);
    } else {
      ExecuteMeans(regs, m, i);
    }
  }

  /** Every instruction, fetched from memory and executed, does what the architecture says. */
  lemma StateAfterMeans(s: State)
    ensures InstructionMeans(s, TrapOf(s), StateAfter(s))
  {
    hide Execute, Raise, Advance, DelayedLoad, TrapsTo, AccessTraps, Fetches, DecodedMeans, ReadMem, Decode;
    var pc := s.regs[PCReg];
    forall which
      ensures ReadMem(s.memory, pc, 4) == ReadTrap(which) <==> AccessTraps(s.memory.tables, pc, 4, false, which)
    {
      ReadTraps(s.memory, pc, 4, which);
    }
    var fetch := ReadMem(s.memory, pc, 4);
    if fetch.Value? {
      FetchMeans(s.memory, pc);
      DecodedInRange(fetch.value);
      EffectMeans(s.regs, fetch.memory, Decode(fetch.value), StateAfter(s));
      assert Fetches(s.memory, pc, fetch.value, fetch.memory);
    } else {
      assert AccessTraps(s.memory.tables, pc, 4, false, fetch.which);
      RaiseTraps(s.regs, pc);
    }
  }
}
