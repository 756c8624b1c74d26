/** One instruction of the simulated processor as a function of registers and memory, with the delayed load. */
module Cpu {
  import opened Bytes
  import opened Instructions
  import opened Translation

  // ---------------------------------------------------------------- registers

  const NumGPRegs := 32
  const R31: RegNum := 31
  const HiReg := 32
  const LoReg := 33
  const PCReg := 34
  const NextPCReg := 35
  const PrevPCReg := 36
  const LoadReg := 37
  const LoadValueReg := 38
  const BadVAddrReg := 39
  const NumTotalRegs := 40

  /** Any register file whose load register is in range. */
  type Registers = r: seq<Word> | |r| == NumTotalRegs && r[LoadReg] < NumGPRegs
    witness seq<Word>(NumTotalRegs, i => 0)

  /** DelayedLoad: the load in progress reaches its register, and the next one is noted. */
  function DelayedLoad(regs: Registers, nextReg: RegNum, nextValue: Word): (r: Registers) {
    regs[regs[LoadReg] := regs[LoadValueReg]][LoadReg := nextReg][LoadValueReg := nextValue][0 := 0]
  }

  /** What a trap to the kernel does to the registers before the kernel runs. */
  function Raise(regs: Registers, badVAddr: Word): (r: Registers) {
    DelayedLoad(regs[BadVAddrReg := badVAddr], 0, 0)
  }

  function Advance(regs: Registers, pcAfter: Word): (r: Registers) {
    regs[PrevPCReg := regs[PCReg]][PCReg := regs[NextPCReg]][NextPCReg := pcAfter]
  }

  // ---------------------------------------------------------------- one instruction

  /** How an instruction ends: with a trap, or with registers, memory, a load to be done later, and the next PC. */
  datatype Effect =
    | Raised(which: ExceptionType, badVAddr: Word, memory: Memory)
    | Continue(regs: Registers, memory: Memory, nextLoadReg: RegNum, nextLoadValue: Word, pcAfter: Word)

  /** The groups of instructions that have their effects in common. */
  datatype Kind = ToRd | ToRt | ToHiLo | Branch | Link | Jump | JumpLink | JumpReg | JumpRegLink | Load | LoadPart | Store | StorePart | System | Illegal

  function KindOf(op: OpCode): Kind {
    match op
    case ADD | ADDU | SUB | SUBU | AND | OR | XOR | NOR | SLT | SLTU => ToRd
    case SLL | SLLV | SRA | SRAV | SRL | SRLV | MFHI | MFLO => ToRd
    case ADDI | ADDIU | ANDI | ORI | XORI | LUI | SLTI | SLTIU => ToRt
    case MULT | MULTU | DIV | DIVU | MTHI | MTLO => ToHiLo
    case BEQ | BNE | BGEZ | BGTZ | BLEZ | BLTZ => Branch
    case BGEZAL | BLTZAL => Link
    case J => Jump
    case JAL => JumpLink
    case JR => JumpReg
    case JALR => JumpRegLink
    case LB | LBU | LH | LHU | LW => Load
    case LWL | LWR => LoadPart
    case SB | SH | SW => Store
    case SWL | SWR => StorePart
    case SYSCALL => System
    case RFE | UNIMP | RES => Illegal
  }

  /** The size of the access of a load or store. */
  function AccessSize(op: OpCode): (n: nat)
    ensures n == 1 || n == 2 || n == 4
  {
    match op
    case LB | LBU | SB => 1
    case LH | LHU | SH => 2
    case _ => 4
  }

  function PlainNext(regs: Registers): Word {
    Plus(regs[NextPCReg], 4)
  }

  function BranchNext(regs: Registers, op: OpCode, a: Word, b: Word, extra: Word): Word {
    if Taken(op, a, b) then Plus(regs[NextPCReg], ByteOffset(extra)) else PlainNext(regs)
  }

  function ExecuteLoad(regs: Registers, memory: Memory, instr: Instruction): Effect {
    var addr := Plus(regs[instr.rs], instr.extra);
    if AccessSize(instr.opCode) > 1 && addr % AccessSize(instr.opCode) != 0 then Raised(AddressErrorException, addr, memory)
    else
      match ReadMem(memory, addr, AccessSize(instr.opCode))
      case ReadTrap(which) => Raised(which, addr, memory)
      case Value(value, m) => Continue(regs, m, instr.rt, Loaded(instr.opCode, value), PlainNext(regs))
  }

  /** The old contents that LWL and LWR merge into: those on their way to the register, if a load is in progress. */
  function MergeBase(regs: Registers, rt: RegNum): Word {
    if regs[LoadReg] == rt then regs[LoadValueReg] else regs[rt]
  }

  function ExecuteLoadPart(regs: Registers, memory: Memory, instr: Instruction): Effect {
    var addr := Plus(regs[instr.rs], instr.extra);
    match ReadMem(memory, addr - addr % 4, 4)
    case ReadTrap(which) => Raised(which, addr - addr % 4, memory)
    case Value(value, m) =>
      Continue(regs, m, instr.rt, Merged(instr.opCode, MergeBase(regs, instr.rt), value, addr % 4), PlainNext(regs))
  }

  function ExecuteStore(regs: Registers, memory: Memory, instr: Instruction): Effect {
    var addr := Plus(regs[instr.rs], instr.extra);
    match WriteMem(memory, addr, AccessSize(instr.opCode), regs[instr.rt])
    case WriteTrap(which) => Raised(which, addr, memory)
    case Written(m) => Continue(regs, m, 0, 0, PlainNext(regs))
  }

  function ExecuteStorePart(regs: Registers, memory: Memory, instr: Instruction): Effect {
    var addr := Plus(regs[instr.rs], instr.extra);
    match ReadMem(memory, addr - addr % 4, 4)
    case ReadTrap(which) => Raised(which, addr - addr % 4, memory)
    case Value(value, m) =>
      match WriteMem(m, addr - addr % 4, 4, StoredPart(instr.opCode, value, regs[instr.rt], addr % 4))
      case WriteTrap(which) => Raised(which, addr - addr % 4, m)
      case Written(m2) => Continue(regs, m2, 0, 0, PlainNext(regs))
  }

  /** The switch of OneInstruction. */
  function Execute(regs: Registers, memory: Memory, instr: Instruction): Effect {
    var op, a, b := instr.opCode, regs[instr.rs], regs[instr.rt];
    match KindOf(op)
    case ToRd =>
      if Overflows(op, a, b) then Raised(OverflowException, 0, memory)
      else Continue(regs[instr.rd := ResultRd(op, a, b, instr.extra, regs[HiReg], regs[LoReg])], memory, 0, 0, PlainNext(regs))
    case ToRt =>
      if Overflows(op, a, instr.extra) then Raised(OverflowException, 0, memory)
      else Continue(regs[instr.rt := ResultRt(op, a, instr.extra)], memory, 0, 0, PlainNext(regs))
    case ToHiLo =>
      var (hi, lo) := ResultHiLo(op, a, b, regs[HiReg], regs[LoReg]);
      Continue(regs[HiReg := hi][LoReg := lo], memory, 0, 0, PlainNext(regs))
    case Branch => Continue(regs, memory, 0, 0, BranchNext(regs, op, a, b, instr.extra))
    case Link =>
      var linked := regs[R31 := PlainNext(regs)];
      Continue(linked, memory, 0, 0, BranchNext(linked, op, linked[instr.rs], b, instr.extra))
    case Jump => Continue(regs, memory, 0, 0, JumpTarget(PlainNext(regs), instr.extra))
    case JumpLink => Continue(regs[R31 := PlainNext(regs)], memory, 0, 0, JumpTarget(PlainNext(regs), instr.extra))
    case JumpReg => Continue(regs, memory, 0, 0, a)
    case JumpRegLink =>
      var linked := regs[instr.rd := PlainNext(regs)];
      Continue(linked, memory, 0, 0, linked[instr.rs])
    case Load => ExecuteLoad(regs, memory, instr)
    case LoadPart => ExecuteLoadPart(regs, memory, instr)
    case Store => ExecuteStore(regs, memory, instr)
    case StorePart => ExecuteStorePart(regs, memory, instr)
    case System => Raised(SyscallException, 0, memory)
    case Illegal => Raised(IllegalInstrException, 0, memory)
  }

  // ---------------------------------------------------------------- what an instruction reads and writes

  predicate UsesRs(op: OpCode) {
    match op
    case SLL | SRA | SRL | MFHI | MFLO | LUI | J | JAL | SYSCALL | RFE | UNIMP | RES => false
    case _ => true
  }

  predicate UsesRt(op: OpCode) {
    match KindOf(op)
    case ToRd => op != MFHI && op != MFLO
    case ToHiLo => op != MTHI && op != MTLO
    case Branch => op == BEQ || op == BNE
    case Store => true
    case StorePart => true
    case _ => false
  }

  /** The general registers whose contents an instruction uses, not counting the merge of LWL and LWR. */
  function Reads(instr: Instruction): set<RegNum> {
    (if UsesRs(instr.opCode) then {instr.rs} else {}) + (if UsesRt(instr.opCode) then {instr.rt} else {})
  }

  /** The general registers an instruction writes at once. */
  function DirectWrites(instr: Instruction): set<RegNum> {
    match KindOf(instr.opCode)
    case ToRd => {instr.rd}
    case ToRt => {instr.rt}
    case Link => {R31}
    case JumpLink => {R31}
    case JumpRegLink => {instr.rd}
    case _ => {}
  }

  /** The instruction keeps out of the way of a load into `loaded` by the instruction before it. */
  predicate HazardFree(instr: Instruction, loaded: RegNum) {
    loaded == 0 || (loaded !in Reads(instr) && loaded !in DirectWrites(instr))
  }
}
