/** The simulated machine: registers, main memory and translation tables that instructions change in place. */
module Machines {
  import opened AccessRules
  import opened Bytes
  import opened Instructions
  import opened Translation
  import opened Cpu
  import DelayedLoads
  import Meanings
  import Multiplier

  lemma SplitProduct(p: int, hi: int, lo: nat)
    requires lo < WordRange && p == hi * WordRange + lo
    ensures p / WordRange == hi && p % WordRange == lo
  {
  }

  lemma WordIsUnsigned(a: Word)
    ensures Multiplier.IsSigned(32, ToInt(a)) && Multiplier.Unsigned(32, ToInt(a)) == a
  {
    WordWidth();
    hide Pow2;
  }

  lemma UnsignedIsWord(x: int)
    requires Multiplier.IsSigned(32, x)
    ensures Multiplier.Unsigned(32, x) == ToWord(x)
  {
    WordWidth();
    hide Pow2;
  }

  /** The two words that the multiply unit leaves behind are those of the product. */
  lemma SignedWords(a: Word, b: Word, h: int, l: int)
    requires Multiplier.IsSigned(32, h) && Multiplier.IsSigned(32, l)
    requires Multiplier.Double(32, h, Multiplier.Unsigned(32, l)) == ToInt(a) * ToInt(b)
    ensures (ToWord(h), ToWord(l)) == ResultHiLo(MULT, a, b, 0, 0)
  {
    hide Pow2, ToInt, Multiplier.Unsigned, Multiplier.IsSigned;
    WordWidth();
    UnsignedIsWord(l);
    SplitProduct(ToInt(a) * ToInt(b), h, ToWord(l));
  }

  lemma UnsignedWords(a: Word, b: Word, h: int, l: int)
    requires Multiplier.IsSigned(32, h) && Multiplier.IsSigned(32, l)
    requires Multiplier.Double(32, Multiplier.Unsigned(32, h), Multiplier.Unsigned(32, l)) == a * b
    ensures (ToWord(h), ToWord(l)) == ResultHiLo(MULTU, a, b, 0, 0)
  {
    hide Pow2, ToWord, Multiplier.Unsigned, Multiplier.IsSigned;
    WordWidth();
    UnsignedIsWord(h);
    UnsignedIsWord(l);
    WordsOf(a * b, ToWord(h), ToWord(l));
  }

  lemma WordsOf(p: int, hi: Word, lo: Word)
    requires p == hi * WordRange + lo
    ensures p / WordRange % WordRange == hi && p % WordRange == lo
  {
    SplitProduct(p, hi, lo);
  }

  /** What the switch of OneInstruction hands on: a trap, or the load to be delayed and the next PC. */
  datatype Result = Result(trap: ExceptionType, badVAddr: Word, nextLoadReg: RegNum, nextLoadValue: Word, pcAfter: Word)

  function Done(pcAfter: Word): Result {
    Result(NoException, 0, 0, 0, pcAfter)
  }

  function Trapped(which: ExceptionType, badVAddr: Word): Result {
    Result(which, badVAddr, 0, 0, 0)
  }

  /** The machine stands as the effect says; a trap has left the registers alone. */
  ghost predicate Ended(e: Effect, r: Result, before: Registers, regs: Registers, memory: Memory) {
    match e
    case Raised(which, bad, m) => r.trap == which && r.badVAddr == bad && regs == before && memory == m
    case Continue(x, m, reg, v, pcAfter) =>
      r == Result(NoException, r.badVAddr, reg, v, pcAfter) && regs == x && memory == m
  }

  class Machine {
    const registers: array<Word>
    const mainMemory: array<byte>
    const usesTlb: bool
    const entries: array<TranslationEntry>

    ghost predicate Valid()
      reads this, registers
    {
      && registers.Length == NumTotalRegs && registers[LoadReg] < NumGPRegs
      && mainMemory.Length == MemorySize
      && (usesTlb ==> entries.Length == TLBSize)
    }

    ghost function Tables(): Translation.Tables
      reads this, entries
    {
      if usesTlb then Tlb(entries[..]) else PageTable(entries[..])
    }

    ghost function MemoryNow(): Memory
      requires Valid()
      reads this, registers, mainMemory, entries
    {
      Memory(mainMemory[..], Tables())
    }

    ghost function Now(): DelayedLoads.State
      requires Valid()
      reads this, registers, mainMemory, entries
    {
      DelayedLoads.State(registers[..], MemoryNow())
    }

    /** A machine whose registers and memory are all zero; a TLB starts with no valid entry. */
    constructor (usesTlb: bool, pageTable: array<TranslationEntry>)
      ensures Valid() && this.usesTlb == usesTlb && fresh(registers) && fresh(mainMemory)
      ensures forall i :: 0 <= i < NumTotalRegs ==> registers[i] == 0
      ensures forall i :: 0 <= i < MemorySize ==> mainMemory[i] == 0
      ensures if usesTlb then fresh(entries) && (forall i :: 0 <= i < TLBSize ==> !entries[i].valid) else entries == pageTable
    {
      this.usesTlb := usesTlb;
      registers := new Word[NumTotalRegs](i => 0);
      mainMemory := new byte[MemorySize](i => 0);
      var tlb := new TranslationEntry[TLBSize](i => TranslationEntry(0, 0, false, false, false, false));
      entries := if usesTlb then tlb else pageTable;
    }

    // -------------------------------------------------------------- translation

    /** Finds a translation and sets its use and dirty bits, or tells which exception to raise. */
    method Translate(addr: Word, size: nat, writing: bool) returns (exception: ExceptionType, physAddr: nat)
      requires Valid() && (size == 1 || size == 2 || size == 4)
      modifies entries
      ensures var r := Translation.Translate(old(Tables()), addr, size, writing);
              if r.Trap? then exception == r.which && entries[..] == old(entries[..])
              else exception == NoException && physAddr == r.physAddr && Tables() == r.tables && physAddr + size <= MemorySize
      ensures forall which :: exception == which != NoException <==> AccessTraps(old(Tables()), addr, size, writing, which)
      ensures exception == NoException ==> exists i: nat ::
                && Allows(old(Tables()), addr, size, writing, i) && MarksEntry(old(Tables()), Tables(), i, writing)
                && physAddr == old(Tables()).entries[i].physicalPage * PageSize + addr % PageSize
    {
      hide AccessTraps, Allows, MarksEntry;
      TranslateExactly(Tables(), addr, size, writing);
      physAddr := 0;
      if (size == 4 && addr % 4 != 0) || (size == 2 && addr % 2 != 0) {
        return AddressErrorException, 0;
      }
      var vpn, offset := addr / PageSize, addr % PageSize;
      var entry: nat;
      if !usesTlb {
        if vpn >= entries.Length {
          return AddressErrorException, 0;
        } else if !entries[vpn].valid {
          return PageFaultException, 0;
        }
        entry := vpn;
      } else {
        var found := SearchTlb(vpn);
        if found == -1 {
          return PageFaultException, 0;
        }
        entry := found;
      }
      if entries[entry].readOnly && writing {
        return ReadOnlyException, 0;
      }
      var pageFrame := entries[entry].physicalPage;
      if pageFrame >= NumPhysPages {
        return BusErrorException, 0;
      }
      AccessFitsFrame(Tables(), addr, size, writing);
      entries[entry] := entries[entry].(use := true);
      if writing {
        entries[entry] := entries[entry].(dirty := true);
      }
      physAddr := pageFrame * PageSize + offset;
      exception := NoException;
    }

    /** The search loop of Translate. */
    method SearchTlb(vpn: nat) returns (found: int)
      ensures found == TlbSlotFrom(entries[..], vpn, 0)
    {
      for i := 0 to entries.Length
        invariant TlbSlotFrom(entries[..], vpn, i) == TlbSlotFrom(entries[..], vpn, 0)
      {
        if entries[i].valid && entries[i].virtualPage == vpn {
          return i;
        }
      }
      return -1;
    }

    method ReadMem(addr: Word, size: nat) returns (exception: ExceptionType, value: Word)
      requires Valid() && (size == 1 || size == 2 || size == 4)
      modifies entries
      ensures match Translation.ReadMem(old(MemoryNow()), addr, size)
              case ReadTrap(which) => exception == which && entries[..] == old(entries[..])
              case Value(v, m) => exception == NoException && value == v && MemoryNow() == m
      ensures forall which :: exception == which != NoException <==> AccessTraps(old(Tables()), addr, size, false, which)
    {
      hide TlbSlotFrom, FindEntry, Translation.Translate, AccessTraps, Allows, MarksEntry;
      value := 0;
      var physicalAddress: nat;
      exception, physicalAddress := Translate(addr, size, false);
      if exception == NoException {
        value := Widened(mainMemory[physicalAddress..physicalAddress + size]);
        assert mainMemory[physicalAddress..physicalAddress + size] == mainMemory[..][physicalAddress..physicalAddress + size];
      }
    }

    method WriteMem(addr: Word, size: nat, value: Word) returns (exception: ExceptionType)
      requires Valid() && (size == 1 || size == 2 || size == 4)
      modifies entries, mainMemory
      ensures match Translation.WriteMem(old(MemoryNow()), addr, size, value)
              case WriteTrap(which) => exception == which && MemoryNow() == old(MemoryNow())
              case Written(m) => exception == NoException && MemoryNow() == m
      ensures forall which :: exception == which != NoException <==> AccessTraps(old(Tables()), addr, size, true, which)
    {
      hide TlbSlotFrom, FindEntry, Translation.Translate, Splice, AccessTraps, Allows, MarksEntry;
      var physicalAddress: nat;
      exception, physicalAddress := Translate(addr, size, true);
      if exception == NoException {
        Bcopy(LowBytes(value, size), mainMemory, physicalAddress);
      }
    }

    // -------------------------------------------------------------- instructions

    method DelayedLoad(nextReg: RegNum, nextValue: Word)
      requires Valid()
      modifies registers
      ensures Valid() && registers[..] == Cpu.DelayedLoad(old(registers[..]), nextReg, nextValue)
    {
      registers[registers[LoadReg]] := registers[LoadValueReg];
      registers[LoadReg] := nextReg;
      registers[LoadValueReg] := nextValue;
      registers[0] := 0;
    }

    /** RaiseException up to the call of the kernel's handler. */
    method RaiseException(badVAddr: Word)
      requires Valid()
      modifies registers
      ensures Valid() && registers[..] == Raise(old(registers[..]), badVAddr)
    {
      registers[BadVAddrReg] := badVAddr;
      DelayedLoad(0, 0);
    }

    /** The cases that compute a register from registers and immediates. */
    method Compute(instr: Instruction) returns (r: Result)
      requires Valid() && KindOf(instr.opCode) in {ToRd, ToRt}
      modifies registers
      ensures Valid() && Ended(Execute(old(registers[..]), MemoryNow(), instr), r, old(registers[..]), registers[..], MemoryNow())
    {
      hide ResultRd, ResultRt, Overflows, Plus;
      var op, a, b := instr.opCode, registers[instr.rs], registers[instr.rt];
      r := Done(Plus(registers[NextPCReg], 4));
      if KindOf(op) == ToRd {
        if Overflows(op, a, b) {
          return Trapped(OverflowException, 0);
        }
        registers[instr.rd] := ResultRd(op, a, b, instr.extra, registers[HiReg], registers[LoReg]);
      } else {
        if Overflows(op, a, instr.extra) {
          return Trapped(OverflowException, 0);
        }
        registers[instr.rt] := ResultRt(op, a, instr.extra);
      }
    }

    /** MULT and MULTU, by the multiply unit. */
    method Multiply(op: OpCode, a: Word, b: Word) returns (hi: Word, lo: Word)
      requires op == MULT || op == MULTU
      ensures (hi, lo) == ResultHiLo(op, a, b, 0, 0)
    {
      hide Multiplier.Double, ResultHiLo, ToInt, ToWord, Multiplier.IsSigned;
      WordIsUnsigned(a);
      WordIsUnsigned(b);
      var h, l := Multiplier.Mult(32, ToInt(a), ToInt(b), op == MULT);
      hi, lo := ToWord(h), ToWord(l);
      if op == MULT {
        SignedWords(a, b, h, l);
      } else {
        UnsignedWords(a, b, h, l);
      }
    }

    /** The cases that write the double register. */
    method ComputeHiLo(instr: Instruction) returns (r: Result)
      requires Valid() && KindOf(instr.opCode) == ToHiLo
      modifies registers
      ensures Valid() && Ended(Execute(old(registers[..]), MemoryNow(), instr), r, old(registers[..]), registers[..], MemoryNow())
    {
      hide Plus, ToInt, Quotient, Remainder, UnsignedQuotient;
      var a, b := registers[instr.rs], registers[instr.rt];
      r := Done(Plus(registers[NextPCReg], 4));
      if instr.opCode == MULT || instr.opCode == MULTU {
        registers[HiReg], registers[LoReg] := Multiply(instr.opCode, a, b);
      } else {
        var (hi, lo) := ResultHiLo(instr.opCode, a, b, registers[HiReg], registers[LoReg]);
        registers[HiReg] := hi;
        registers[LoReg] := lo;
      }
    }

    /** Branches and jumps; a link register is written before the target is computed. */
    method Control(instr: Instruction) returns (r: Result)
      requires Valid() && KindOf(instr.opCode) in {Branch, Link, Jump, JumpLink, JumpReg, JumpRegLink}
      modifies registers
      ensures Valid() && Ended(Execute(old(registers[..]), MemoryNow(), instr), r, old(registers[..]), registers[..], MemoryNow())
    {
      hide Plus, Taken, JumpTarget, ByteOffset;
      var kind, b := KindOf(instr.opCode), registers[instr.rt];
      var pcAfter := Plus(registers[NextPCReg], 4);
      if kind == Link || kind == JumpLink {
        registers[R31] := Plus(registers[NextPCReg], 4);
      } else if kind == JumpRegLink {
        registers[instr.rd] := Plus(registers[NextPCReg], 4);
      }
      if kind == Branch || kind == Link {
        if Taken(instr.opCode, registers[instr.rs], b) {
          pcAfter := Plus(registers[NextPCReg], ByteOffset(instr.extra));
        }
      } else if kind == Jump || kind == JumpLink {
        pcAfter := JumpTarget(pcAfter, instr.extra);
      } else {
        pcAfter := registers[instr.rs];
      }
      r := Done(pcAfter);
    }

    method LoadFrom(instr: Instruction) returns (r: Result)
      requires Valid() && KindOf(instr.opCode) in {Load, LoadPart}
      modifies entries
      ensures Valid() && Ended(Execute(registers[..], old(MemoryNow()), instr), r, registers[..], registers[..], MemoryNow())
    {
      hide Plus, Translation.ReadMem, Loaded, Merged;
      var op := instr.opCode;
      var tmp := Plus(registers[instr.rs], instr.extra);
      var pcAfter := Plus(registers[NextPCReg], 4);
      var exception, value;
      if KindOf(op) == Load {
        if AccessSize(op) > 1 && tmp % AccessSize(op) != 0 {
          return Trapped(AddressErrorException, tmp);
        }
        exception, value := ReadMem(tmp, AccessSize(op));
        r := if exception != NoException then Trapped(exception, tmp) else Result(NoException, 0, instr.rt, Loaded(op, value), pcAfter);
      } else {
        exception, value := ReadMem(tmp - tmp % 4, 4);
        var base := if registers[LoadReg] == instr.rt then registers[LoadValueReg] else registers[instr.rt];
        r := if exception != NoException then Trapped(exception, tmp - tmp % 4)
             else Result(NoException, 0, instr.rt, Merged(op, base, value, tmp % 4), pcAfter);
      }
    }

    method StoreTo(instr: Instruction) returns (r: Result)
      requires Valid() && KindOf(instr.opCode) in {Store, StorePart}
      modifies entries, mainMemory
      ensures Valid() && Ended(Execute(registers[..], old(MemoryNow()), instr), r, registers[..], registers[..], MemoryNow())
    {
      hide Plus, Translation.ReadMem, Translation.WriteMem, StoredPart;
      var op := instr.opCode;
      var tmp := Plus(registers[instr.rs], instr.extra);
      var pcAfter := Plus(registers[NextPCReg], 4);
      if KindOf(op) == Store {
        var exception := WriteMem(tmp, AccessSize(op), registers[instr.rt]);
        r := if exception != NoException then Trapped(exception, tmp) else Done(pcAfter);
      } else {
        var word := tmp - tmp % 4;
        var exception, value := ReadMem(word, 4);
        if exception != NoException {
          return Trapped(exception, word);
        }
        exception := WriteMem(word, 4, StoredPart(op, value, registers[instr.rt], tmp % 4));
        r := if exception != NoException then Trapped(exception, word) else Done(pcAfter);
      }
    }

    /** The switch of OneInstruction. */
    method Perform(instr: Instruction) returns (r: Result)
      requires Valid()
      modifies registers, entries, mainMemory
      ensures Valid() && Ended(Execute(old(registers[..]), old(MemoryNow()), instr), r, old(registers[..]), registers[..], MemoryNow())
    {
      hide ExecuteLoad, ExecuteLoadPart, ExecuteStore, ExecuteStorePart, ResultRd, ResultRt, ResultHiLo, Overflows, Plus, Taken, JumpTarget;
      var kind := KindOf(instr.opCode);
      if kind == ToRd || kind == ToRt {
        r := Compute(instr);
      } else if kind == ToHiLo {
        r := ComputeHiLo(instr);
      } else if kind == Load || kind == LoadPart {
        r := LoadFrom(instr);
      } else if kind == Store || kind == StorePart {
        r := StoreTo(instr);
      } else if kind == System {
        r := Trapped(SyscallException, 0);
      } else if kind == Illegal {
        r := Trapped(IllegalInstrException, 0);
      } else {
        r := Control(instr);
      }
    }

    /** Executes one instruction. Returns the exception that the kernel has to handle, if any; the machine is then
        as RaiseException leaves it for the handler. */
    method OneInstruction() returns (trap: ExceptionType)
      requires Valid()
      modifies registers, entries, mainMemory
      ensures Valid()
      ensures match DelayedLoads.InstructionEffect(old(Now()))
              case Raised(which, bad, m) => trap == which && Now() == DelayedLoads.State(Raise(old(registers[..]), bad), m)
              case Continue(regs, m, r, v, pcAfter) =>
                trap == NoException && Now() == DelayedLoads.State(Advance(Cpu.DelayedLoad(regs, r, v), pcAfter), m)
      ensures Meanings.InstructionMeans(old(Now()), trap, Now())
    {
      hide Execute, Raise, Cpu.DelayedLoad, Translation.ReadMem, Decode, Meanings.InstructionMeans, AccessTraps;
      ghost var s := Now();
      Meanings.StateAfterMeans(s);
      var exception, raw := ReadMem(registers[PCReg], 4);
      if exception != NoException {
        RaiseException(registers[PCReg]);
        return exception;
      }
      TrapIsAnException(registers[..], MemoryNow(), Decode(raw));
      var r := Perform(Decode(raw));
      if r.trap != NoException {
        RaiseException(r.badVAddr);
        return r.trap;
      }
      DelayedLoad(r.nextLoadReg, r.nextLoadValue);
      registers[PrevPCReg] := registers[PCReg];
      registers[PCReg] := registers[NextPCReg];
      registers[NextPCReg] := r.pcAfter;
      trap := NoException;
    }
  }

  lemma TrapIsAnException(regs: Registers, memory: Memory, instr: Instruction)
    ensures Execute(regs, memory, instr).Raised? ==> Execute(regs, memory, instr).which != NoException
  {
    hide Plus, Translation.ReadMem, Translation.WriteMem, Loaded, Merged, StoredPart, ResultRd, ResultRt, ResultHiLo, Overflows, Taken, JumpTarget;
  }
}
