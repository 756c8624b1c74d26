/** Read-only pages are safe from every program. */
module ReadOnlyPages {
  import opened AccessRules
  import opened Bytes
  import opened Cpu
  import opened DelayedLoads
  import opened Instructions
  import opened Translation

  /** Every valid entry that leads to the frame is read-only. */
  ghost predicate Protected(tables: Tables, frame: nat) {
    forall i :: 0 <= i < |tables.entries| && tables.entries[i].valid && tables.entries[i].physicalPage == frame ==>
      tables.entries[i].readOnly
  }

  function FrameBytes(m: Memory, frame: nat): (s: seq<byte>)
    requires frame < NumPhysPages
    ensures |s| == PageSize
  {
    m.bytes[frame * PageSize..(frame + 1) * PageSize]
  }

  /** The frame is as it was and still protected. */
  ghost predicate KeepsFrame(m: Memory, n: Memory, frame: nat)
    requires frame < NumPhysPages
  {
    Protected(m.tables, frame) ==> Protected(n.tables, frame) && FrameBytes(n, frame) == FrameBytes(m, frame)
  }

  lemma KeptTwice(l: Memory, m: Memory, n: Memory, frame: nat)
    requires frame < NumPhysPages && KeepsFrame(l, m, frame) && KeepsFrame(m, n, frame)
    ensures KeepsFrame(l, n, frame)
  {
  }

  lemma MarkedKeepsProtected(tables: Tables, after: Tables, i: nat, writing: bool, frame: nat)
    requires MarksEntry(tables, after, i, writing) && Protected(tables, frame)
    ensures Protected(after, frame)
  {
  }

  lemma ReadKeepsFrame(m: Memory, addr: Word, size: nat, frame: nat)
    requires (size == 1 || size == 2 || size == 4) && frame < NumPhysPages && ReadMem(m, addr, size).Value?
    ensures KeepsFrame(m, ReadMem(m, addr, size).memory, frame)
  {
    hide Protected, FindEntry, IsEntryFor, MarksEntry;
    TranslateExactly(m.tables, addr, size, false);
    var i: nat :| Allows(m.tables, addr, size, false, i);
    if Protected(m.tables, frame) {
      MarkedKeepsProtected(m.tables, Translate(m.tables, addr, size, false).tables, i, false, frame);
    }
  }

  lemma WriteKeepsFrame(m: Memory, addr: Word, size: nat, value: Word, frame: nat)
    requires (size == 1 || size == 2 || size == 4) && frame < NumPhysPages && WriteMem(m, addr, size, value).Written?
    ensures KeepsFrame(m, WriteMem(m, addr, size, value).memory, frame)
  {
    hide FindEntry, MarksEntry, LowBytes;
    TranslateExactly(m.tables, addr, size, true);
    var i: nat :| Allows(m.tables, addr, size, true, i);
    if Protected(m.tables, frame) {
      MarkedKeepsProtected(m.tables, Translate(m.tables, addr, size, true).tables, i, true, frame);
      AccessFitsFrame(m.tables, addr, size, true);
      OtherFrame(m.tables.entries[i].physicalPage, frame, addr % PageSize, size);
    }
  }

  lemma OtherFrame(p: nat, frame: nat, offset: nat, size: nat)
    requires p != frame && offset + size <= PageSize
    ensures p * PageSize + offset + size <= frame * PageSize || p * PageSize + offset >= (frame + 1) * PageSize
  {
  }

  lemma ExecuteKeepsFrame(regs: Registers, m: Memory, instr: Instruction, frame: nat)
    requires frame < NumPhysPages
    ensures KeepsFrame(m, Execute(regs, m, instr).memory, frame)
  {
    hide KeepsFrame, ReadMem, WriteMem, Plus, ResultRd, ResultRt, ResultHiLo, Overflows, Loaded, Merged, StoredPart, Taken, JumpTarget;
    var addr := Plus(regs[instr.rs], instr.extra);
    var word := addr - addr % 4;
    Unchanged(m, frame);
    match KindOf(instr.opCode)
    case Load =>
      if ReadMem(m, addr, AccessSize(instr.opCode)).Value? {
        ReadKeepsFrame(m, addr, AccessSize(instr.opCode), frame);
      }
    case LoadPart =>
      if ReadMem(m, word, 4).Value? {
        ReadKeepsFrame(m, word, 4, frame);
      }
    case Store =>
      if WriteMem(m, addr, AccessSize(instr.opCode), regs[instr.rt]).Written? {
        WriteKeepsFrame(m, addr, AccessSize(instr.opCode), regs[instr.rt], frame);
      }
    case StorePart => PartStoreKeepsFrame(regs, m, instr, frame);
    case _ =>
  }

  lemma Unchanged(m: Memory, frame: nat)
    requires frame < NumPhysPages
    ensures KeepsFrame(m, m, frame)
  {
  }

  lemma PartStoreKeepsFrame(regs: Registers, m: Memory, instr: Instruction, frame: nat)
    requires frame < NumPhysPages
    ensures KeepsFrame(m, ExecuteStorePart(regs, m, instr).memory, frame)
  {
    hide KeepsFrame, ReadMem, WriteMem, Plus, StoredPart;
    var addr := Plus(regs[instr.rs], instr.extra);
    var word := addr - addr % 4;
    Unchanged(m, frame);
    if ReadMem(m, word, 4).Value? {
      var value, n := ReadMem(m, word, 4).value, ReadMem(m, word, 4).memory;
      var stored := StoredPart(instr.opCode, value, regs[instr.rt], addr % 4);
      ReadKeepsFrame(m, word, 4, frame);
      if WriteMem(n, word, 4, stored).Written? {
        WriteKeepsFrame(n, word, 4, stored, frame);
        KeptTwice(m, n, WriteMem(n, word, 4, stored).memory, frame);
      }
    }
  }

  /** The kernel itself leaves the frame alone and protected. */
  ghost predicate Respects(kernel: Kernel, frame: nat)
    requires frame < NumPhysPages
  {
    forall cause: Cause, s: State :: KeepsFrame(s.memory, kernel(cause, s).memory, frame)
  }

  lemma StepKeepsFrame(s: State, event: Event, kernel: Kernel, frame: nat)
    requires frame < NumPhysPages && Respects(kernel, frame)
    ensures KeepsFrame(s.memory, StepDelayed(s, event, kernel).memory, frame)
  {
    hide KeepsFrame, Execute, ReadMem, Decode, Raise, Advance, DelayedLoad, Settled;
    Unchanged(s.memory, frame);
    var t := StepDelayed(s, event, kernel);
    if event.Irq? {
      assert KeepsFrame(State(Settled(s.regs), s.memory).memory, t.memory, frame);
    } else {
      var e := InstructionEffect(s);
      if ReadMem(s.memory, s.regs[PCReg], 4).Value? {
        ReadKeepsFrame(s.memory, s.regs[PCReg], 4, frame);
        ExecuteKeepsFrame(s.regs, ReadMem(s.memory, s.regs[PCReg], 4).memory, Fetched(s), frame);
        KeptTwice(s.memory, ReadMem(s.memory, s.regs[PCReg], 4).memory, e.memory, frame);
      }
      if e.Raised? {
        var raised := State(Raise(s.regs, e.badVAddr), e.memory);
        assert KeepsFrame(raised.memory, kernel(Exception(e.which, event.n), raised).memory, frame);
        KeptTwice(s.memory, e.memory, t.memory, frame);
      }
    }
  }

  /** No program, whatever it does and however often it traps or is interrupted, changes a byte of a frame that only
      read-only entries lead to, unless the kernel does. */
  lemma {:induction false} RunKeepsFrame(s: State, events: seq<Event>, kernel: Kernel, frame: nat)
    requires frame < NumPhysPages && Respects(kernel, frame) && Protected(s.memory.tables, frame)
    ensures var t := RunDelayed(s, events, kernel);
            Protected(t.memory.tables, frame) && FrameBytes(t.memory, frame) == FrameBytes(s.memory, frame)
    decreases |events|
  {
    hide Respects, Protected, StepDelayed, FrameBytes;
    if |events| > 0 {
      StepKeepsFrame(s, events[0], kernel, frame);
      RunKeepsFrame(StepDelayed(s, events[0], kernel), events[1..], kernel, frame);
    }
  }
}
