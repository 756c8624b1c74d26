/** Virtual memory: translation by page table or TLB, and reads and writes of 1, 2 or 4 bytes through it. */
module Translation {
  import opened Bytes

  const PageSize := 128
  const NumPhysPages := 64
  const MemorySize := NumPhysPages * PageSize
  const TLBSize := 4

  datatype ExceptionType =
    | NoException
    | SyscallException
    | PageFaultException
    | ReadOnlyException
    | BusErrorException
    | AddressErrorException
    | OverflowException
    | IllegalInstrException

  datatype TranslationEntry = TranslationEntry(virtualPage: Word, physicalPage: Word, valid: bool, readOnly: bool, use: bool, dirty: bool)

  /** The machine has a TLB or a linear page table, never both. */
  datatype Tables = PageTable(entries: seq<TranslationEntry>) | Tlb(entries: seq<TranslationEntry>)

  type RawMemory = m: seq<byte> | |m| == MemorySize witness seq(MemorySize, i => 0)

  /** Main memory and the tables that lead to it. */
  datatype Memory = Memory(bytes: RawMemory, tables: Tables)

  // ---------------------------------------------------------------- translation

  predicate Aligned(addr: Word, size: nat) {
    (size == 4 ==> addr % 4 == 0) && (size == 2 ==> addr % 2 == 0)
  }

  /** The first TLB slot from `i` on with a valid translation for the page, or -1. */
  function TlbSlotFrom(entries: seq<TranslationEntry>, vpn: nat, i: nat): (slot: int)
    requires i <= |entries|
    ensures slot == -1 ==> forall j :: i <= j < |entries| ==> !(entries[j].valid && entries[j].virtualPage == vpn)
    ensures slot != -1 ==> i <= slot < |entries| && entries[slot].valid && entries[slot].virtualPage == vpn
    decreases |entries| - i
  {
    if i == |entries| then -1
    else if entries[i].valid && entries[i].virtualPage == vpn then i
    else TlbSlotFrom(entries, vpn, i + 1)
  }

  /** The table slot that translates page `vpn`, or the exception that says why there is none. */
  datatype SlotResult = Slot(slot: nat) | Miss(why: ExceptionType)

  function FindEntry(tables: Tables, vpn: nat): (r: SlotResult)
    ensures r.Slot? ==> r.slot < |tables.entries| && tables.entries[r.slot].valid
    ensures r.Miss? ==> r.why == PageFaultException || r.why == AddressErrorException
  {
    match tables
    case PageTable(entries) =>
      if vpn >= |entries| then Miss(AddressErrorException)
      else if !entries[vpn].valid then Miss(PageFaultException)
      else Slot(vpn)
    case Tlb(entries) =>
      var slot := TlbSlotFrom(entries, vpn, 0);
      if slot == -1 then Miss(PageFaultException) else Slot(slot)
  }

  function Touched(e: TranslationEntry, writing: bool): TranslationEntry {
    e.(use := true, dirty := e.dirty || writing)
  }

  /** The outcome of Translate: an exception, or a physical address and the tables with the use and dirty bits set. */
  datatype Outcome = Trap(which: ExceptionType) | Mapped(physAddr: nat, tables: Tables)

  function Translate(tables: Tables, addr: Word, size: nat, writing: bool): (r: Outcome)
    ensures r.Trap? ==> r.which != NoException
  {
    if !Aligned(addr, size) then Trap(AddressErrorException)
    else
      match FindEntry(tables, addr / PageSize)
      case Miss(why) => Trap(why)
      case Slot(slot) =>
        var e := tables.entries[slot];
        if e.readOnly && writing then Trap(ReadOnlyException)
        else if e.physicalPage >= NumPhysPages then Trap(BusErrorException)
        else Mapped(e.physicalPage * PageSize + addr % PageSize, tables.(entries := tables.entries[slot := Touched(e, writing)]))
  }

  /** An aligned access of 1, 2 or 4 bytes stays inside its frame, hence inside memory: the final assertion of
      Translate cannot fail. */
  lemma AccessFitsFrame(tables: Tables, addr: Word, size: nat, writing: bool)
    requires size == 1 || size == 2 || size == 4
    requires Translate(tables, addr, size, writing).Mapped?
    ensures var p := Translate(tables, addr, size, writing).physAddr;
            p / PageSize == (p + size - 1) / PageSize && p + size <= MemorySize && addr % PageSize + size <= PageSize
  {
    hide TlbSlotFrom, FindEntry;
    OffsetFits(addr, size);
    var p := Translate(tables, addr, size, writing).physAddr;
    var frame := tables.entries[FindEntry(tables, addr / PageSize).slot].physicalPage;
    assert p == frame * PageSize + addr % PageSize;
    InFrame(frame, addr % PageSize, size);
  }

  lemma OffsetFits(addr: Word, size: nat)
    requires (size == 1 || size == 2 || size == 4) && Aligned(addr, size)
    ensures addr % PageSize + size <= PageSize
  {
    assert addr % PageSize == addr - addr / PageSize * PageSize;
  }

  lemma InFrame(frame: nat, offset: nat, size: nat)
    requires size > 0 && offset + size <= PageSize
    ensures var p := frame * PageSize + offset; p / PageSize == frame == (p + size - 1) / PageSize
  {
  }

  /** Every valid TLB entry says what the page table says about its page. */
  ghost predicate TlbAgrees(tlb: seq<TranslationEntry>, table: seq<TranslationEntry>) {
    forall i :: 0 <= i < |tlb| && tlb[i].valid ==>
      var e := tlb[i];
      e.virtualPage < |table| && table[e.virtualPage].valid
      && table[e.virtualPage].physicalPage == e.physicalPage && table[e.virtualPage].readOnly == e.readOnly
  }

  predicate SameTranslation(r: Outcome, q: Outcome) {
    match r
    case Trap(which) => q == Trap(which)
    case Mapped(physAddr, _) => q.Mapped? && q.physAddr == physAddr
  }

  /** A TLB that agrees with the page table either misses or gives exactly the page table's answer, and it keeps agreeing. */
  lemma TlbIsACache(tlb: seq<TranslationEntry>, table: seq<TranslationEntry>, addr: Word, size: nat, writing: bool)
    requires TlbAgrees(tlb, table)
    ensures var r := Translate(Tlb(tlb), addr, size, writing);
            && (r == Trap(PageFaultException) || SameTranslation(r, Translate(PageTable(table), addr, size, writing)))
            && (r.Mapped? ==> TlbAgrees(r.tables.entries, table))
  {
  }

  // ---------------------------------------------------------------- reading and writing

  /** The bytes that hold the low `size` bytes of `value`, little end first. */
  function LowBytes(value: Word, size: nat): (s: seq<byte>)
    requires size <= 4
    ensures |s| == size
  {
    ToBytes(value)[..size]
  }

  /** The value that ReadMem hands back: a char is extended by its sign, the other sizes by zeros. */
  function Widened(s: seq<byte>): (w: Word)
    requires |s| == 1 || |s| == 2 || |s| == 4
  {
    if |s| == 1 then (if s[0] < 128 then s[0] else s[0] + 0xffff_ff00)
    else if |s| == 2 then s[0] + 256 * s[1]
    else FromBytes(s, 0)
  }

  datatype ReadOutcome = ReadTrap(which: ExceptionType) | Value(value: Word, memory: Memory)

  function ReadMem(m: Memory, addr: Word, size: nat): (r: ReadOutcome)
    requires size == 1 || size == 2 || size == 4
    ensures r.ReadTrap? ==> r.which != NoException
    ensures r.Value? ==> r.memory.bytes == m.bytes
  {
    match Translate(m.tables, addr, size, false)
    case Trap(which) => ReadTrap(which)
    case Mapped(p, tables) =>
      AccessFitsFrame(m.tables, addr, size, false);
      Value(Widened(m.bytes[p..p + size]), m.(tables := tables))
  }

  datatype WriteOutcome = WriteTrap(which: ExceptionType) | Written(memory: Memory)

  function WriteMem(m: Memory, addr: Word, size: nat, value: Word): (r: WriteOutcome)
    requires size == 1 || size == 2 || size == 4
    ensures r.WriteTrap? ==> r.which != NoException
  {
    match Translate(m.tables, addr, size, true)
    case Trap(which) => WriteTrap(which)
    case Mapped(p, tables) =>
      AccessFitsFrame(m.tables, addr, size, true);
      Written(Memory(Splice(m.bytes, p, LowBytes(value, size)), tables))
  }

  // ---------------------------------------------------------------- what programs see

  /** The byte at a virtual address, as a one-byte read would find it. */
  ghost function VirtualByte(m: Memory, addr: Word): (b: int)
    ensures -1 <= b < 256
  {
    match Translate(m.tables, addr, 1, false)
    case Trap(_) => -1
    case Mapped(p, _) => AccessFitsFrame(m.tables, addr, 1, false); m.bytes[p]
  }

  /** Two different pages are never translated to the same frame. */
  ghost predicate DistinctFrames(tables: Tables) {
    forall a, b ::
      FindEntry(tables, a).Slot? && FindEntry(tables, b).Slot? && a != b ==>
      tables.entries[FindEntry(tables, a).slot].physicalPage != tables.entries[FindEntry(tables, b).slot].physicalPage
  }

  /** Setting use and dirty bits changes no translation. */
  lemma TouchKeepsFindEntry(tables: Tables, slot: nat, writing: bool, vpn: nat)
    requires slot < |tables.entries|
    ensures FindEntry(tables.(entries := tables.entries[slot := Touched(tables.entries[slot], writing)]), vpn) == FindEntry(tables, vpn)
  {
    if tables.Tlb? {
      TouchKeepsTlbSlot(tables.entries, slot, writing, vpn, 0);
    }
  }

  lemma {:induction false} TouchKeepsTlbSlot(entries: seq<TranslationEntry>, slot: nat, writing: bool, vpn: nat, i: nat)
    requires slot < |entries| && i <= |entries|
    ensures TlbSlotFrom(entries[slot := Touched(entries[slot], writing)], vpn, i) == TlbSlotFrom(entries, vpn, i)
    decreases |entries| - i
  {
    if i < |entries| {
      TouchKeepsTlbSlot(entries, slot, writing, vpn, i + 1);
    }
  }

  /** So an access leaves every later translation as it was, up to use and dirty bits. */
  lemma TranslateKeepsTranslations(tables: Tables, addr: Word, size: nat, writing: bool, a: Word, n: nat, w: bool)
    requires Translate(tables, addr, size, writing).Mapped?
    ensures SameTranslation(Translate(tables, a, n, w), Translate(Translate(tables, addr, size, writing).tables, a, n, w))
  {
    hide TlbSlotFrom;
    TouchKeepsFindEntry(tables, FindEntry(tables, addr / PageSize).slot, writing, a / PageSize);
  }

  lemma FrameOf(tables: Tables, addr: Word, size: nat, writing: bool)
    requires Translate(tables, addr, size, writing).Mapped?
    ensures var slot := FindEntry(tables, addr / PageSize);
            slot.Slot? && Translate(tables, addr, size, writing).physAddr == tables.entries[slot.slot].physicalPage * PageSize + addr % PageSize
  {
  }

  /** A write changes exactly the virtual bytes it names. */
  lemma ByteAfterWrite(m: Memory, addr: Word, size: nat, value: Word, b: Word)
    requires size == 1 || size == 2 || size == 4
    requires DistinctFrames(m.tables) && WriteMem(m, addr, size, value).Written?
    ensures var after := WriteMem(m, addr, size, value).memory;
            VirtualByte(after, b) == if addr <= b < addr + size then LowBytes(value, size)[b - addr] else VirtualByte(m, b)
  {
    hide TlbSlotFrom, FindEntry, LowBytes;
    AccessFitsFrame(m.tables, addr, size, true);
    TranslateKeepsTranslations(m.tables, addr, size, true, b, 1, false);
    if addr <= b < addr + size {
      SamePageMapped(m.tables, addr, size, b);
    } else if Translate(m.tables, b, 1, false).Mapped? {
      if b / PageSize == addr / PageSize {
        SamePageMapped(m.tables, addr, size, b);
      } else {
        PagesApart(m.tables, addr, size, b);
      }
    }
  }

  lemma SamePageMapped(tables: Tables, addr: Word, size: nat, b: Word)
    requires Translate(tables, addr, size, true).Mapped? && b / PageSize == addr / PageSize
    ensures Translate(tables, b, 1, false).Mapped?
    ensures Translate(tables, b, 1, false).physAddr == Translate(tables, addr, size, true).physAddr - addr % PageSize + b % PageSize
  {
    hide TlbSlotFrom, FindEntry;
  }

  lemma PagesApart(tables: Tables, addr: Word, size: nat, b: Word)
    requires size == 1 || size == 2 || size == 4
    requires DistinctFrames(tables) && b / PageSize != addr / PageSize
    requires Translate(tables, addr, size, true).Mapped? && Translate(tables, b, 1, false).Mapped?
    ensures var p, q := Translate(tables, addr, size, true).physAddr, Translate(tables, b, 1, false).physAddr;
            q < p || q >= p + size
  {
    hide TlbSlotFrom, FindEntry;
    AccessFitsFrame(tables, addr, size, true);
    FrameOf(tables, addr, size, true);
    FrameOf(tables, b, 1, false);
  }

  /** Reading back what was written gives the value written, modulo the size of the access. */
  lemma WriteThenRead(m: Memory, addr: Word, size: nat, value: Word)
    requires size == 1 || size == 2 || size == 4
    requires WriteMem(m, addr, size, value).Written?
    ensures var r := ReadMem(WriteMem(m, addr, size, value).memory, addr, size);
            r.Value? && r.value == Widened(LowBytes(value, size))
  {
    hide TlbSlotFrom, FindEntry, LowBytes, Widened;
    var after := WriteMem(m, addr, size, value).memory;
    TranslateKeepsTranslations(m.tables, addr, size, true, addr, size, false);
    ReadableIfWritable(m.tables, addr, size);
    var p := Translate(m.tables, addr, size, true).physAddr;
    AccessFitsFrame(m.tables, addr, size, true);
    assert after.bytes[p..p + size] == LowBytes(value, size);
  }

  lemma ReadableIfWritable(tables: Tables, addr: Word, size: nat)
    requires Translate(tables, addr, size, true).Mapped?
    ensures Translate(tables, addr, size, false).Mapped?
    ensures Translate(tables, addr, size, false).physAddr == Translate(tables, addr, size, true).physAddr
  {
    hide TlbSlotFrom, FindEntry;
  }

  /** What the value read back has in common with the value written. */
  lemma WidenedValue(value: Word)
    ensures Widened(LowBytes(value, 4)) == value
    ensures Widened(LowBytes(value, 2)) == value % 0x1_0000
    ensures Widened(LowBytes(value, 1)) == (if value % 256 < 128 then value % 256 else 0x1_0000_0000 - 256 + value % 256)
  {
    WordRoundTrip(value);
    assert ToBytes(value)[..4] == ToBytes(value);
    assert value % 0x1_0000 == value % 256 + 256 * (value / 256 % 256);
  }
}
