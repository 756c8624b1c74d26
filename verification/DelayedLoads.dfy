/** The processor with its load-delay slot does what a processor that loads at once does. */
module DelayedLoads {
  import opened Bytes
  import opened Instructions
  import opened Translation
  import opened Cpu

  // ---------------------------------------------------------------- the two machines

  datatype State = State(regs: Registers, memory: Memory)

  /** Why the kernel is entered: an exception or an interrupt. The number of the event lets a kernel that remembers
      what went before answer the same exception differently each time. */
  datatype Cause = Exception(which: ExceptionType, n: nat) | Interrupt(n: nat)

  /** Any kernel that, however it changes registers and memory, leaves no load in progress and register 0 zero. */
  type Kernel = (Cause, State) -> State

  ghost predicate Orderly(kernel: Kernel) {
    forall cause, s :: var r := kernel(cause, s).regs; r[LoadReg] == 0 && r[LoadValueReg] == 0 && r[0] == 0
  }

  /** The registers once a load in progress has been completed: what a program can see. */
  function Settled(regs: Registers): Registers {
    DelayedLoad(regs, 0, 0)
  }

  datatype Event = Instr(n: nat) | Irq(n: nat)

  /** What the fetch and the switch of OneInstruction make of the state. */
  function InstructionEffect(s: State): Effect {
    match ReadMem(s.memory, s.regs[PCReg], 4)
    case ReadTrap(which) => Raised(which, s.regs[PCReg], s.memory)
    case Value(raw, m) => Execute(s.regs, m, Decode(raw))
  }

  /** One event on the machine as it is: loads are delayed, traps and interrupts complete them. */
  function StepDelayed(s: State, event: Event, kernel: Kernel): State {
    match event
    case Irq(n) => kernel(Interrupt(n), State(Settled(s.regs), s.memory))
    case Instr(n) =>
      match InstructionEffect(s)
      case Raised(which, bad, m) => kernel(Exception(which, n), State(Raise(s.regs, bad), m))
      case Continue(regs, m, r, v, pcAfter) => State(Advance(DelayedLoad(regs, r, v), pcAfter), m)
  }

  /** One event on a machine without a delay slot: a load writes its register at once. */
  function StepAtOnce(s: State, event: Event, kernel: Kernel): State {
    match event
    case Irq(n) => kernel(Interrupt(n), s)
    case Instr(n) =>
      match InstructionEffect(s)
      case Raised(which, bad, m) => kernel(Exception(which, n), State(s.regs[BadVAddrReg := bad], m))
      case Continue(regs, m, r, v, pcAfter) => State(Advance(regs[r := v][0 := 0], pcAfter), m)
  }

  /** The register that an event loads, or 0. */
  function LoadedBy(s: State, event: Event): RegNum {
    if event.Instr? && InstructionEffect(s).Continue? then InstructionEffect(s).nextLoadReg else 0
  }

  function Fetched(s: State): Instruction
    requires ReadMem(s.memory, s.regs[PCReg], 4).Value?
  {
    Decode(ReadMem(s.memory, s.regs[PCReg], 4).value)
  }

  /** The instruction that an event executes, if any, respects a load by the event before. */
  predicate EventHazardFree(s: State, event: Event, loaded: RegNum) {
    event.Instr? && ReadMem(s.memory, s.regs[PCReg], 4).Value? ==> HazardFree(Fetched(s), loaded)
  }

  // ---------------------------------------------------------------- one instruction

  /** The effect `f` on settled registers corresponds to the effect `e` on registers with a load in progress. */
  ghost predicate Corresponds(regs: Registers, e: Effect, f: Effect) {
    match e
    case Raised(which, bad, m) => f == Raised(which, bad, m)
    case Continue(x, m, r, v, pcAfter) =>
      && f.Continue? && f.memory == m && f.nextLoadReg == r && f.pcAfter == pcAfter
      && (r != 0 ==> f.nextLoadValue == v)
      && x[LoadReg] == regs[LoadReg] && x[LoadValueReg] == regs[LoadValueReg]
      && x[PCReg] == regs[PCReg] && x[NextPCReg] == regs[NextPCReg]
      && f.regs[LoadReg] == 0 && f.regs[LoadValueReg] == 0
      && forall i :: 1 <= i < NumTotalRegs && i != LoadReg && i != LoadValueReg ==>
           f.regs[i] == if i == regs[LoadReg] then regs[LoadValueReg] else x[i]
  }

  lemma SettledRegs(regs: Registers, r: RegNum)
    requires regs[0] == 0
    ensures Settled(regs)[r] == if r == 0 then 0 else if r == regs[LoadReg] then regs[LoadValueReg] else regs[r]
    ensures Settled(regs)[HiReg] == regs[HiReg] && Settled(regs)[LoReg] == regs[LoReg]
    ensures Settled(regs)[PCReg] == regs[PCReg] && Settled(regs)[NextPCReg] == regs[NextPCReg]
  {
  }

  /** Writing one register, other than the one that a load is on its way to, commutes with that load. */
  lemma WriteCommutes(regs: Registers, dest: nat, value: Word, m: Memory, pcAfter: Word)
    requires regs[0] == 0 && dest < PCReg && (regs[LoadReg] == 0 || dest != regs[LoadReg])
    ensures Corresponds(regs, Continue(regs[dest := value], m, 0, 0, pcAfter), Continue(Settled(regs)[dest := value], m, 0, 0, pcAfter))
  {
  }

  lemma NothingCommutes(regs: Registers, m: Memory, r: RegNum, v: Word, w: Word, pcAfter: Word)
    requires regs[0] == 0 && (r != 0 ==> v == w)
    ensures Corresponds(regs, Continue(regs, m, r, v, pcAfter), Continue(Settled(regs), m, r, w, pcAfter))
  {
  }

  lemma HiLoCommutes(regs: Registers, hi: Word, lo: Word, m: Memory, pcAfter: Word)
    requires regs[0] == 0
    ensures Corresponds(regs, Continue(regs[HiReg := hi][LoReg := lo], m, 0, 0, pcAfter), Continue(Settled(regs)[HiReg := hi][LoReg := lo], m, 0, 0, pcAfter))
  {
  }

  lemma ReadsSettled(regs: Registers, instr: Instruction)
    requires regs[0] == 0 && HazardFree(instr, regs[LoadReg])
    ensures UsesRs(instr.opCode) ==> Settled(regs)[instr.rs] == regs[instr.rs]
    ensures UsesRt(instr.opCode) ==> Settled(regs)[instr.rt] == regs[instr.rt]
  {
    hide Settled;
    SettledRegs(regs, instr.rs);
    SettledRegs(regs, instr.rt);
  }

  /** An operand that an instruction does not use does not matter. */
  lemma UnusedOperands(op: OpCode, a: Word, b: Word, c: Word, d: Word, shamt: Word, hi: Word, lo: Word)
    requires UsesRs(op) ==> a == c
    requires UsesRt(op) ==> b == d
    ensures KindOf(op) == ToRd ==> ResultRd(op, a, b, shamt, hi, lo) == ResultRd(op, c, d, shamt, hi, lo)
    ensures KindOf(op) == ToRd ==> Overflows(op, a, b) == Overflows(op, c, d)
    ensures KindOf(op) == ToRt ==> ResultRt(op, a, shamt) == ResultRt(op, c, shamt)
    ensures KindOf(op) == ToRt ==> Overflows(op, a, shamt) == Overflows(op, c, shamt)
    ensures KindOf(op) == ToHiLo ==> ResultHiLo(op, a, b, hi, lo) == ResultHiLo(op, c, d, hi, lo)
    ensures KindOf(op) == Branch || KindOf(op) == Link ==> Taken(op, a, b) == Taken(op, c, d)
  {
    hide And, Or, Xor, Not, ShiftLeft, ShiftRight, ShiftRightSigned, Quotient, Remainder, UnsignedQuotient, Plus, Minus, ToInt;
  }

  /** The instructions that compute a register from registers and immediates. */
  lemma ComputeCommutes(regs: Registers, m: Memory, instr: Instruction)
    requires regs[0] == 0 && HazardFree(instr, regs[LoadReg])
    requires KindOf(instr.opCode) in {ToRd, ToRt, ToHiLo}
    ensures Corresponds(regs, Execute(regs, m, instr), Execute(Settled(regs), m, instr))
  {
    hide Settled, ResultRd, ResultRt, ResultHiLo, Overflows, Corresponds, Reads, UsesRs, UsesRt;
    var t, op := Settled(regs), instr.opCode;
    ReadsSettled(regs, instr);
    SettledRegs(regs, 0);
    UnusedOperands(op, regs[instr.rs], regs[instr.rt], t[instr.rs], t[instr.rt], instr.extra, regs[HiReg], regs[LoReg]);
    TrapsCorrespond(regs, OverflowException, 0, m);
    if KindOf(op) == ToRd {
      WriteCommutes(regs, instr.rd, ResultRd(op, regs[instr.rs], regs[instr.rt], instr.extra, regs[HiReg], regs[LoReg]), m, PlainNext(regs));
    } else if KindOf(op) == ToRt {
      WriteCommutes(regs, instr.rt, ResultRt(op, regs[instr.rs], instr.extra), m, PlainNext(regs));
    } else {
      var (hi, lo) := ResultHiLo(op, regs[instr.rs], regs[instr.rt], regs[HiReg], regs[LoReg]);
      HiLoCommutes(regs, hi, lo, m, PlainNext(regs));
    }
  }

  lemma TrapsCorrespond(regs: Registers, which: ExceptionType, bad: Word, m: Memory)
    ensures Corresponds(regs, Raised(which, bad, m), Raised(which, bad, m))
  {
  }

  /** Branches and jumps, with and without a link register. */
  lemma ControlCommutes(regs: Registers, m: Memory, instr: Instruction)
    requires regs[0] == 0 && HazardFree(instr, regs[LoadReg])
    requires KindOf(instr.opCode) in {Branch, Link, Jump, JumpLink, JumpReg, JumpRegLink}
    ensures Corresponds(regs, Execute(regs, m, instr), Execute(Settled(regs), m, instr))
  {
    hide Settled, Taken, Corresponds, JumpTarget, Plus, ByteOffset;
    var t, op, e := Settled(regs), instr.opCode, Execute(regs, m, instr);
    ReadsSettled(regs, instr);
    SettledRegs(regs, 0);
    UnusedOperands(op, regs[instr.rs], regs[instr.rt], t[instr.rs], t[instr.rt], 0, 0, 0);
    if KindOf(op) == Link {
      var linked := regs[R31 := PlainNext(regs)];
      UnusedOperands(op, linked[instr.rs], regs[instr.rt], linked[instr.rs], t[instr.rt], 0, 0, 0);
      WriteCommutes(regs, R31, PlainNext(regs), m, e.pcAfter);
    } else if KindOf(op) == JumpLink {
      WriteCommutes(regs, R31, PlainNext(regs), m, e.pcAfter);
    } else if KindOf(op) == JumpRegLink {
      WriteCommutes(regs, instr.rd, PlainNext(regs), m, e.pcAfter);
    } else {
      NothingCommutes(regs, m, 0, 0, 0, e.pcAfter);
    }
  }

  /** Loads and stores of whole units. */
  lemma TransferCommutes(regs: Registers, m: Memory, instr: Instruction)
    requires regs[0] == 0 && HazardFree(instr, regs[LoadReg])
    requires KindOf(instr.opCode) in {Load, Store, StorePart}
    ensures Corresponds(regs, Execute(regs, m, instr), Execute(Settled(regs), m, instr))
  {
    hide Settled, Corresponds, Plus, ReadMem, WriteMem, Loaded, StoredPart;
    var e := Execute(regs, m, instr);
    ReadsSettled(regs, instr);
    SettledRegs(regs, 0);
    match e
    case Raised(which, bad, n) => TrapsCorrespond(regs, which, bad, n);
    case Continue(_, n, r, v, pcAfter) => NothingCommutes(regs, n, r, v, v, pcAfter);
  }

  /** LWL and LWR find in the delay slot what the other machine has in the register already. */
  lemma MergeCommutes(regs: Registers, m: Memory, instr: Instruction)
    requires regs[0] == 0 && HazardFree(instr, regs[LoadReg])
    requires KindOf(instr.opCode) == LoadPart
    ensures Corresponds(regs, Execute(regs, m, instr), Execute(Settled(regs), m, instr))
  {
    hide Corresponds, Plus, ReadMem, Merged;
    var e, f := Execute(regs, m, instr), Execute(Settled(regs), m, instr);
    ReadsSettled(regs, instr);
    SettledRegs(regs, instr.rt);
    assert instr.rt != 0 ==> MergeBase(regs, instr.rt) == MergeBase(Settled(regs), instr.rt);
    match e
    case Raised(which, bad, n) => TrapsCorrespond(regs, which, bad, n);
    case Continue(_, n, r, v, pcAfter) => NothingCommutes(regs, n, r, v, f.nextLoadValue, pcAfter);
  }

  /** Every instruction that respects the load in progress does the same whether that load is done yet or not. */
  lemma ExecuteCommutes(regs: Registers, m: Memory, instr: Instruction)
    requires regs[0] == 0 && HazardFree(instr, regs[LoadReg])
    ensures Corresponds(regs, Execute(regs, m, instr), Execute(Settled(regs), m, instr))
  {
    hide Corresponds, Settled, HazardFree, ExecuteLoad, ExecuteLoadPart, ExecuteStore, ExecuteStorePart;
    match KindOf(instr.opCode)
    case ToRd => ComputeCommutes(regs, m, instr);
    case ToRt => ComputeCommutes(regs, m, instr);
    case ToHiLo => ComputeCommutes(regs, m, instr);
    case Load => TransferCommutes(regs, m, instr);
    case Store => TransferCommutes(regs, m, instr);
    case StorePart => TransferCommutes(regs, m, instr);
    case LoadPart => MergeCommutes(regs, m, instr);
    case System => TrapsCorrespond(regs, SyscallException, 0, m);
    case Illegal => TrapsCorrespond(regs, IllegalInstrException, 0, m);
    case _ => ControlCommutes(regs, m, instr);
  }

  // ---------------------------------------------------------------- one event

  function SettledState(s: State): State {
    State(Settled(s.regs), s.memory)
  }

  lemma CompletionCommutes(regs: Registers, e: Effect, f: Effect)
    requires e.Continue? && Corresponds(regs, e, f)
    ensures Advance(f.regs[f.nextLoadReg := f.nextLoadValue][0 := 0], f.pcAfter)
         == Settled(Advance(DelayedLoad(e.regs, e.nextLoadReg, e.nextLoadValue), e.pcAfter))
    ensures Advance(DelayedLoad(e.regs, e.nextLoadReg, e.nextLoadValue), e.pcAfter)[0] == 0
    ensures Advance(DelayedLoad(e.regs, e.nextLoadReg, e.nextLoadValue), e.pcAfter)[LoadReg] == e.nextLoadReg
  {
    var a := Advance(f.regs[f.nextLoadReg := f.nextLoadValue][0 := 0], f.pcAfter);
    var b := Settled(Advance(DelayedLoad(e.regs, e.nextLoadReg, e.nextLoadValue), e.pcAfter));
    forall i | 0 <= i < NumTotalRegs
      ensures a[i] == b[i]
    {
    }
  }

  lemma TrapCommutes(regs: Registers, bad: Word)
    requires regs[0] == 0
    ensures Settled(regs)[BadVAddrReg := bad] == Raise(regs, bad)
  {
  }

  lemma OrderlyIsSettled(kernel: Kernel, cause: Cause, s: State)
    requires Orderly(kernel)
    ensures var t := kernel(cause, s); SettledState(t) == t && t.regs[0] == 0 && t.regs[LoadReg] == 0
  {
    var r := kernel(cause, s).regs;
    assert Settled(r) == r;
  }

  /** One event on the two machines. */
  lemma StepCommutes(s: State, event: Event, kernel: Kernel)
    requires s.regs[0] == 0 && Orderly(kernel)
    requires EventHazardFree(SettledState(s), event, s.regs[LoadReg])
    ensures var t := StepDelayed(s, event, kernel);
            && StepAtOnce(SettledState(s), event, kernel) == SettledState(t)
            && t.regs[0] == 0 && t.regs[LoadReg] == LoadedBy(SettledState(s), event)
  {
    hide Settled, Execute, ReadMem, Decode, Raise, Advance, DelayedLoad, HazardFree;
    SettledRegs(s.regs, 0);
    match event
    case Irq(n) =>
      OrderlyIsSettled(kernel, Interrupt(n), SettledState(s));
    case Instr(n) =>
      var e, f := InstructionEffect(s), InstructionEffect(SettledState(s));
      if ReadMem(s.memory, s.regs[PCReg], 4).Value? {
        ExecuteCommutes(s.regs, ReadMem(s.memory, s.regs[PCReg], 4).memory, Fetched(s));
      } else {
        TrapsCorrespond(s.regs, e.which, e.badVAddr, e.memory);
      }
      if e.Raised? {
        TrapCommutes(s.regs, e.badVAddr);
        OrderlyIsSettled(kernel, Exception(e.which, n), State(Raise(s.regs, e.badVAddr), e.memory));
      } else {
        CompletionCommutes(s.regs, e, f);
      }
  }

  // ---------------------------------------------------------------- whole runs

  function RunDelayed(s: State, events: seq<Event>, kernel: Kernel): State
    decreases |events|
  {
    if |events| == 0 then s else RunDelayed(StepDelayed(s, events[0], kernel), events[1..], kernel)
  }

  function RunAtOnce(s: State, events: seq<Event>, kernel: Kernel): State
    decreases |events|
  {
    if |events| == 0 then s else RunAtOnce(StepAtOnce(s, events[0], kernel), events[1..], kernel)
  }

  /** On the machine that loads at once, no instruction of the run gets in the way of the load before it. */
  predicate RunHazardFree(s: State, loaded: RegNum, events: seq<Event>, kernel: Kernel)
    decreases |events|
  {
    |events| == 0 || (EventHazardFree(s, events[0], loaded)
                      && RunHazardFree(StepAtOnce(s, events[0], kernel), LoadedBy(s, events[0]), events[1..], kernel))
  }

  /** For every program, every kernel, and every pattern of traps and interrupts: as long as the program keeps out
      of load-delay slots, the two machines agree on registers, memory and program counters after any number of
      steps, once a load that is still in progress has been done. */
  lemma {:induction false} DelayedLoadsRefineLoads(s: State, events: seq<Event>, kernel: Kernel)
    requires s.regs[0] == 0 && Orderly(kernel)
    requires RunHazardFree(SettledState(s), s.regs[LoadReg], events, kernel)
    ensures RunAtOnce(SettledState(s), events, kernel) == SettledState(RunDelayed(s, events, kernel))
    decreases |events|
  {
    hide Settled, StepDelayed, StepAtOnce, EventHazardFree, LoadedBy;
    if |events| > 0 {
      StepCommutes(s, events[0], kernel);
      DelayedLoadsRefineLoads(StepDelayed(s, events[0], kernel), events[1..], kernel);
    }
  }

  // ---------------------------------------------------------------- programs that do not keep out

  /** The program LW r1, 8(r0); ADDU r2, r1, r0 in one page, followed by the word 5. */
  function HazardProgram(): State {
    var page := TranslationEntry(0, 0, true, false, true, false);
    var code: seq<byte> := [8, 0, 1, 140, 33, 16, 32, 0, 5, 0, 0, 0];
    var bytes := code + seq<byte>(MemorySize - 12, i => 0);
    State(seq<Word>(NumTotalRegs, i => if i == NextPCReg then 4 else 0), Memory(bytes, PageTable([page])))
  }

  lemma HazardReads()
    ensures var m := HazardProgram().memory;
            && ReadMem(m, 0, 4) == Value(0x8c01_0008, m) && ReadMem(m, 4, 4) == Value(0x0020_1021, m) && ReadMem(m, 8, 4) == Value(5, m)
  {
    var m := HazardProgram().memory;
    assert m.bytes[0..4] == [8, 0, 1, 140];
    assert m.bytes[4..8] == [33, 16, 32, 0];
    assert m.bytes[8..12] == [5, 0, 0, 0];
    assert m.tables.entries[0 := Touched(m.tables.entries[0], false)] == m.tables.entries;
  }

  lemma HazardDecoded()
    ensures var i, j := Decode(0x8c01_0008), Decode(0x0020_1021);
            && i.opCode == LW && i.rs == 0 && i.rt == 1 && i.extra == 8
            && j.opCode == ADDU && j.rs == 1 && j.rt == 0 && j.rd == 2
  {
    hide Decode;
    DecodeImmediate(35, 0, 1, 8);
    DecodeRegister(1, 0, 2, 0, 33);
    assert opTable[35] == Plain(LW, IFMT) && specialTable[33] == ADDU;
    assert ImmediateForm(35, 0, 1, 8) == 0x8c01_0008 && RegisterForm(1, 0, 2, 0, 33) == 0x0020_1021;
  }

  /** What the instruction after a load makes of the register: the old contents here, the loaded ones there. */
  lemma HazardSteps(kernel: Kernel)
    ensures var s := HazardProgram();
            var t, u := StepDelayed(s, Instr(0), kernel), StepAtOnce(s, Instr(0), kernel);
            && t.memory == u.memory == s.memory && t.regs[PCReg] == u.regs[PCReg] == 4
            && t.regs[0] == u.regs[0] == 0 && t.regs[1] == 0 && t.regs[LoadReg] == 1 && u.regs[1] == 5 && u.regs[LoadReg] == 0
            && LoadedBy(s, Instr(0)) == 1
  {
    hide ReadMem, Decode, HazardProgram;
    HazardStart();
    HazardReads();
    HazardDecoded();
  }

  lemma HazardStart()
    ensures var s := HazardProgram();
            && s.regs[NextPCReg] == 4 && (forall i :: 0 <= i < NumTotalRegs && i != NextPCReg ==> s.regs[i] == 0)
            && SettledState(s) == s
  {
    assert Settled(HazardProgram().regs) == HazardProgram().regs;
  }

  /** The condition matters: there is a program of two instructions, the second of which reads the register that the
      first one loads, on which the two machines disagree. */
  lemma HazardIsReal(kernel: Kernel)
    ensures var s, events := HazardProgram(), [Instr(0), Instr(1)];
            && s.regs[0] == 0 && SettledState(s) == s && !RunHazardFree(s, 0, events, kernel)
            && SettledState(RunDelayed(s, events, kernel)).regs[2] == 0 && RunAtOnce(s, events, kernel).regs[2] == 5
  {
    hide HazardProgram, StepDelayed, StepAtOnce, EventHazardFree, LoadedBy, SettledState;
    HazardStart();
    HazardSteps(kernel);
    var s, events := HazardProgram(), [Instr(0), Instr(1)];
    assert events[1..] == [Instr(1)];
    var t, u := StepDelayed(s, Instr(0), kernel), StepAtOnce(s, Instr(0), kernel);
    SecondStep(t, u, kernel);
    LastEvent(t, Instr(1), kernel);
    LastEvent(u, Instr(1), kernel);
  }

  /** The second instruction of the program, after the first one on either machine. */
  lemma SecondStep(t: State, u: State, kernel: Kernel)
    requires t.memory == u.memory == HazardProgram().memory && t.regs[PCReg] == u.regs[PCReg] == 4
    requires t.regs[0] == u.regs[0] == 0 && t.regs[1] == 0 && t.regs[LoadReg] == 1 && u.regs[1] == 5
    ensures SettledState(StepDelayed(t, Instr(1), kernel)).regs[2] == 0 && StepAtOnce(u, Instr(1), kernel).regs[2] == 5
    ensures !EventHazardFree(u, Instr(1), 1)
  {
    hide ReadMem, Decode, HazardProgram;
    HazardReads();
    HazardDecoded();
  }

  lemma LastEvent(s: State, event: Event, kernel: Kernel)
    ensures RunDelayed(s, [event], kernel) == StepDelayed(s, event, kernel)
    ensures RunAtOnce(s, [event], kernel) == StepAtOnce(s, event, kernel)
  {
    hide StepDelayed, StepAtOnce;
    assert [event][1..] == [];
  }
}
