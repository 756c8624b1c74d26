/** What single instructions do to memory: a fault leaves it alone, and an SWR/SWL pair stores a whole word anywhere. */
module StorePairs {
  import opened Bytes
  import opened Instructions
  import opened Translation
  import opened Cpu
  import opened DelayedLoads

  // ---------------------------------------------------------------- faults

  /** The same translations, apart from use bits. */
  ghost predicate SameButUse(a: Tables, b: Tables) {
    && a.Tlb? == b.Tlb? && |a.entries| == |b.entries|
    && forall i :: 0 <= i < |a.entries| ==> a.entries[i].(use := true) == b.entries[i].(use := true)
  }

  lemma ReadTouchesUseOnly(tables: Tables, addr: Word, size: nat)
    requires Translate(tables, addr, size, false).Mapped?
    ensures SameButUse(tables, Translate(tables, addr, size, false).tables)
  {
    hide TlbSlotFrom, FindEntry;
  }

  /** An instruction that traps has changed no byte of memory and no translation, and what it leaves in the
      registers is the completed load and the bad address: it can be started again. */
  lemma TrapChangesNothing(regs: Registers, memory: Memory, instr: Instruction)
    requires Execute(regs, memory, instr).Raised?
    ensures var e := Execute(regs, memory, instr);
            && e.which != NoException
            && e.memory.bytes == memory.bytes && SameButUse(memory.tables, e.memory.tables)
            && Raise(regs, e.badVAddr) == DelayedLoad(regs, 0, 0)[BadVAddrReg := e.badVAddr]
  {
    hide TlbSlotFrom, FindEntry, Plus, Overflows, ResultRd, ResultRt, ResultHiLo, StoredPart, Translate;
    var addr := Plus(regs[instr.rs], instr.extra);
    var word := addr - addr % 4;
    if KindOf(instr.opCode) == StorePart && ReadMem(memory, word, 4).Value? {
      ReadTouchesUseOnly(memory.tables, word, 4);
    }
  }

  // ---------------------------------------------------------------- SWR and SWL

  lemma ByteOfWord(m: Memory, word: Word, b: Word)
    requires word % 4 == 0 && word <= b < word + 4
    requires ReadMem(m, word, 4).Value?
    ensures VirtualByte(m, b) == ToBytes(ReadMem(m, word, 4).value)[b - word]
  {
    hide TlbSlotFrom, FindEntry, ToBytes, FromBytes;
    var p := Translate(m.tables, word, 4, false).physAddr;
    AccessFitsFrame(m.tables, word, 4, false);
    SamePage(word, b);
    ByteMapped(m.tables, word, b);
    var s := m.bytes[p..p + 4];
    WordBytes(s);
    assert s[b - word] == m.bytes[p + (b - word)];
  }

  lemma SamePage(word: Word, b: Word)
    requires word % 4 == 0 && word <= b < word + 4
    ensures b / PageSize == word / PageSize && b % PageSize == word % PageSize + (b - word)
  {
    assert word % PageSize == word - word / PageSize * PageSize;
  }

  lemma ByteMapped(tables: Tables, word: Word, b: Word)
    requires Translate(tables, word, 4, false).Mapped? && b / PageSize == word / PageSize
    ensures Translate(tables, b, 1, false).Mapped?
    ensures Translate(tables, b, 1, false).physAddr == Translate(tables, word, 4, false).physAddr - word % PageSize + b % PageSize
  {
    hide TlbSlotFrom, FindEntry;
  }

  lemma WordBytes(s: seq<byte>)
    requires |s| == 4
    ensures Widened(s) == FromBytes(s, 0) && ToBytes(FromBytes(s, 0)) == s
  {
    BytesRoundTrip(s[0], s[1], s[2], s[3]);
  }

  /** The byte that a partial store leaves at offset `i` of its word: one of the register, or the old one. */
  function PartByte(op: OpCode, before: int, reg: Word, k: nat, i: nat): int
    requires k < 4 && i < 4
  {
    if op == SWR then (if i < k then before else ToBytes(reg)[i - k])
    else (if i <= k then ToBytes(reg)[i + 3 - k] else before)
  }

  lemma AllBytes(value: Word)
    ensures LowBytes(value, 4) == ToBytes(value)
  {
  }

  lemma PartStoreIs(regs: Registers, m: Memory, instr: Instruction)
    requires instr.opCode == SWR || instr.opCode == SWL
    ensures Execute(regs, m, instr) == ExecuteStorePart(regs, m, instr)
  {
    hide ExecuteStorePart, ExecuteLoad, ExecuteLoadPart, ExecuteStore, ResultRd, ResultRt, ResultHiLo, Overflows, Plus, PlainNext, BranchNext, JumpTarget, Taken;
  }

  /** One partial store: the bytes of its word that it names, and nothing else. */
  lemma PartStoreBytes(regs: Registers, m: Memory, instr: Instruction, b: Word)
    requires instr.opCode == SWR || instr.opCode == SWL
    requires DistinctFrames(m.tables) && Execute(regs, m, instr).Continue?
    ensures var addr := Plus(regs[instr.rs], instr.extra);
            var word := addr - addr % 4;
            VirtualByte(Execute(regs, m, instr).memory, b) ==
            if word <= b < word + 4 then PartByte(instr.opCode, VirtualByte(m, b), regs[instr.rt], addr % 4, b - word) else VirtualByte(m, b)
  {
    hide TlbSlotFrom, FindEntry, Plus, ToBytes, StoredPart, VirtualByte, DistinctFrames, PartByte, Execute, ReadMem, WriteMem, LowBytes;
    var addr := Plus(regs[instr.rs], instr.extra);
    var word, k := addr - addr % 4, addr % 4;
    PartStoreIs(regs, m, instr);
    var value, m1 := ReadMem(m, word, 4).value, ReadMem(m, word, 4).memory;
    var stored := StoredPart(instr.opCode, value, regs[instr.rt], k);
    ReadKeeps(m, word, b);
    ByteAfterWrite(m1, word, 4, stored, b);
    AllBytes(stored);
    if word <= b < word + 4 {
      ByteOfWord(m, word, b);
      PartStored(instr.opCode, value, regs[instr.rt], k, b - word);
    }
  }

  lemma PartStored(op: OpCode, value: Word, reg: Word, k: nat, i: nat)
    requires (op == SWR || op == SWL) && k < 4 && i < 4
    ensures ToBytes(StoredPart(op, value, reg, k))[i] == PartByte(op, ToBytes(value)[i], reg, k, i)
  {
    hide ToBytes, StoredPart;
    SwrBytes(value, reg, k);
    SwlBytes(value, reg, k);
  }

  lemma ReadKeeps(m: Memory, addr: Word, b: Word)
    requires ReadMem(m, addr, 4).Value? && DistinctFrames(m.tables)
    ensures DistinctFrames(ReadMem(m, addr, 4).memory.tables)
    ensures VirtualByte(ReadMem(m, addr, 4).memory, b) == VirtualByte(m, b)
  {
    TranslateKeepsTranslations(m.tables, addr, 4, false, b, 1, false);
    AccessKeepsFrames(m.tables, addr, 4, false);
  }

  lemma AccessKeepsFrames(tables: Tables, addr: Word, size: nat, writing: bool)
    requires DistinctFrames(tables) && Translate(tables, addr, size, writing).Mapped?
    ensures DistinctFrames(Translate(tables, addr, size, writing).tables)
  {
    hide TlbSlotFrom, FindEntry;
    var after := Translate(tables, addr, size, writing).tables;
    forall vpn
      ensures FindEntry(after, vpn) == FindEntry(tables, vpn)
    {
      TouchKeepsFindEntry(tables, FindEntry(tables, addr / PageSize).slot, writing, vpn);
    }
  }

  lemma StoreKeepsFrames(regs: Registers, m: Memory, instr: Instruction)
    requires instr.opCode == SWR || instr.opCode == SWL
    requires DistinctFrames(m.tables) && Execute(regs, m, instr).Continue?
    ensures DistinctFrames(Execute(regs, m, instr).memory.tables)
  {
    hide TlbSlotFrom, FindEntry, Plus, StoredPart, DistinctFrames, Translate;
    var addr := Plus(regs[instr.rs], instr.extra);
    var word := addr - addr % 4;
    AccessKeepsFrames(m.tables, word, 4, false);
    AccessKeepsFrames(ReadMem(m, word, 4).memory.tables, word, 4, true);
  }

  /** Where a byte lies in the two words of a pair of stores, counted from the address of the pair. */
  lemma PairOffset(p: Word, b: Word)
    ensures var q := Plus(p, 3);
            var first, second, offset := p - p % 4, q - q % 4, Minus(b, p);
            && (first <= b && p % 4 <= b - first < 4 ==> offset == b - first - p % 4)
            && (second <= b && b - second <= q % 4 ==> offset == b - second + 3 - q % 4)
            && (offset < 4 ==> (first <= b && p % 4 <= b - first < 4) || (second <= b && b - second <= q % 4))
  {
  }

  /** The pair SWR at `p`, SWL at `p + 3` stores the register at the four bytes from `p` on, whatever the
      alignment of `p` and even across pages, and changes no other byte. Each store sees the registers of its time. */
  lemma StorePair(before: Registers, between: Registers, m: Memory, n: Memory, swr: Instruction, swl: Instruction, p: Word, b: Word)
    requires swr.opCode == SWR && swl.opCode == SWL && between[swl.rt] == before[swr.rt]
    requires Plus(before[swr.rs], swr.extra) == p && Plus(between[swl.rs], swl.extra) == Plus(p, 3)
    requires DistinctFrames(m.tables) && DistinctFrames(n.tables)
    requires Execute(before, m, swr).Continue? && Execute(between, n, swl).Continue?
    requires VirtualByte(n, b) == VirtualByte(Execute(before, m, swr).memory, b)
    ensures VirtualByte(Execute(between, n, swl).memory, b) ==
            var offset := Minus(b, p);
            if offset < 4 then ToBytes(before[swr.rt])[offset] else VirtualByte(m, b)
  {
    hide TlbSlotFrom, FindEntry, ToBytes, VirtualByte, Execute, DistinctFrames, Plus, Minus;
    PairOffset(p, b);
    PartStoreBytes(before, m, swr, b);
    PartStoreBytes(between, n, swl, b);
  }

  /** The next instruction is `instr`, and it can be fetched and executed. */
  predicate Executes(s: State, instr: Instruction) {
    ReadMem(s.memory, s.regs[PCReg], 4).Value? && Fetched(s) == instr && InstructionEffect(s).Continue?
  }

  /** Two consecutive instructions of a program that are such a pair, none of whose registers is being loaded. */
  lemma StorePairInProgram(s: State, kernel: Kernel, i: nat, j: nat, swr: Instruction, swl: Instruction, p: Word, b: Word)
    requires s.regs[0] == 0 && DistinctFrames(s.memory.tables)
    requires swr.opCode == SWR && swl.opCode == SWL && swl.rt == swr.rt && swl.rs == swr.rs
    requires HazardFree(swr, s.regs[LoadReg])
    requires Plus(s.regs[swr.rs], swr.extra) == p && Plus(s.regs[swl.rs], swl.extra) == Plus(p, 3)
    requires Executes(s, swr) && Executes(StepDelayed(s, Instr(i), kernel), swl)
    ensures var t := StepDelayed(StepDelayed(s, Instr(i), kernel), Instr(j), kernel);
            VirtualByte(t.memory, b) ==
            var offset := Minus(b, p);
            if offset < 4 then ToBytes(s.regs[swr.rt])[offset] else VirtualByte(s.memory, b)
  {
    hide TlbSlotFrom, FindEntry, ToBytes, VirtualByte, Execute, DistinctFrames, Plus, Minus, ReadMem, Decode;
    var t := StepDelayed(s, Instr(i), kernel);
    var m := ReadMem(s.memory, s.regs[PCReg], 4).memory;
    var n := ReadMem(t.memory, t.regs[PCReg], 4).memory;
    ReadKeeps(s.memory, s.regs[PCReg], b);
    StoreKeepsFrames(s.regs, m, swr);
    PartStoreKeepsRegs(s.regs, m, swr);
    ReadKeeps(t.memory, t.regs[PCReg], b);
    StorePair(s.regs, t.regs, m, n, swr, swl, p, b);
  }

  lemma PartStoreKeepsRegs(regs: Registers, m: Memory, instr: Instruction)
    requires instr.opCode == SWR || instr.opCode == SWL
    requires Execute(regs, m, instr).Continue?
    ensures Execute(regs, m, instr).regs == regs && Execute(regs, m, instr).nextLoadReg == 0
  {
    hide Execute, ReadMem, WriteMem, Plus, StoredPart;
    PartStoreIs(regs, m, instr);
  }
}
