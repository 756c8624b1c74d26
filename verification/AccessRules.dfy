/** When a memory access is allowed, as the entries of the page table or TLB decide it, and what protection is worth. */
module AccessRules {
  import opened Bytes
  import opened Translation

  /** Entry `i` is the valid one for the page: its own in a page table, the first one in a TLB. */
  ghost predicate IsEntryFor(tables: Tables, page: nat, i: nat) {
    && i < |tables.entries| && tables.entries[i].valid
    && match tables
       case PageTable(_) => i == page
       case Tlb(entries) =>
         entries[i].virtualPage == page && forall j :: 0 <= j < i ==> !(entries[j].valid && entries[j].virtualPage == page)
  }

  lemma OneEntry(tables: Tables, page: nat, i: nat, j: nat)
    requires IsEntryFor(tables, page, i) && IsEntryFor(tables, page, j)
    ensures i == j
  {
  }

  predicate Misaligned(addr: Word, size: nat) {
    (size == 2 && addr % 2 != 0) || (size == 4 && addr % 4 != 0)
  }

  predicate PastTheEnd(tables: Tables, page: nat) {
    tables.PageTable? && page >= |tables.entries|
  }

  /** The exception that an access raises, if any, from the entries alone. */
  ghost predicate AccessTraps(tables: Tables, addr: Word, size: nat, writing: bool, which: ExceptionType) {
    var page := addr / PageSize;
    match which
    case AddressErrorException => Misaligned(addr, size) || PastTheEnd(tables, page)
    case PageFaultException => !Misaligned(addr, size) && !PastTheEnd(tables, page) && forall i: nat :: !IsEntryFor(tables, page, i)
    case ReadOnlyException =>
      !Misaligned(addr, size) && writing && exists i: nat :: IsEntryFor(tables, page, i) && tables.entries[i].readOnly
    case BusErrorException =>
      !Misaligned(addr, size) && exists i: nat ::
        IsEntryFor(tables, page, i) && !(writing && tables.entries[i].readOnly) && tables.entries[i].physicalPage >= NumPhysPages
    case _ => false
  }

  /** The access is allowed by entry `i`. */
  ghost predicate Allows(tables: Tables, addr: Word, size: nat, writing: bool, i: nat) {
    && !Misaligned(addr, size) && IsEntryFor(tables, addr / PageSize, i)
    && !(writing && tables.entries[i].readOnly) && tables.entries[i].physicalPage < NumPhysPages
  }

  /** An access has used the entry: it is marked used, and dirty if it was or the access writes. */
  ghost predicate MarksEntry(tables: Tables, after: Tables, i: nat, writing: bool) {
    && after.Tlb? == tables.Tlb? && |after.entries| == |tables.entries| && i < |tables.entries|
    && (forall j :: 0 <= j < |tables.entries| && j != i ==> after.entries[j] == tables.entries[j])
    && var e, f := tables.entries[i], after.entries[i];
    && f.virtualPage == e.virtualPage && f.physicalPage == e.physicalPage && f.valid == e.valid && f.readOnly == e.readOnly
    && f.use && (f.dirty <==> e.dirty || writing)
  }

  /** The entry that FindEntry finds is the one, and when it finds none there is none. */
  lemma FoundEntry(tables: Tables, page: nat)
    ensures match FindEntry(tables, page)
            case Slot(i) => IsEntryFor(tables, page, i)
            case Miss(why) =>
              && (forall i: nat :: !IsEntryFor(tables, page, i))
              && why == if PastTheEnd(tables, page) then AddressErrorException else PageFaultException
  {
    if tables.Tlb? {
      hide TlbSlotFrom;
      FirstSlot(tables.entries, page, 0);
    }
  }

  lemma {:induction false} FirstSlot(entries: seq<TranslationEntry>, page: nat, i: nat)
    requires i <= |entries|
    ensures var slot := TlbSlotFrom(entries, page, i);
            slot != -1 ==> forall j :: i <= j < slot ==> !(entries[j].valid && entries[j].virtualPage == page)
    decreases |entries| - i
  {
    if i < |entries| {
      FirstSlot(entries, page, i + 1);
    }
  }

  /** Translate raises each exception exactly when the entries say so, and otherwise gives the address in the frame of
      the page and marks the entry. */
  lemma TranslateExactly(tables: Tables, addr: Word, size: nat, writing: bool)
    ensures var r := Translate(tables, addr, size, writing);
            && (forall which :: r == Trap(which) <==> AccessTraps(tables, addr, size, writing, which))
            && (r.Mapped? <==> exists i: nat :: Allows(tables, addr, size, writing, i))
            && forall i: nat :: Allows(tables, addr, size, writing, i) ==>
                 && r.physAddr == tables.entries[i].physicalPage * PageSize + addr % PageSize
                 && MarksEntry(tables, r.tables, i, writing)
  {
    hide FindEntry, IsEntryFor;
    var r, page := Translate(tables, addr, size, writing), addr / PageSize;
    FoundEntry(tables, page);
    if FindEntry(tables, page).Slot? {
      var slot := FindEntry(tables, page).slot;
      NotPastTheEnd(tables, page, slot);
      forall i: nat | IsEntryFor(tables, page, i)
        ensures i == slot
      {
        OneEntry(tables, page, i, slot);
      }
      assert Allows(tables, addr, size, writing, slot) <==> r.Mapped?;
      assert forall i: nat :: Allows(tables, addr, size, writing, i) ==> i == slot;
      assert r.Mapped? ==> MarksEntry(tables, r.tables, slot, writing);
    }
  }

  lemma NotPastTheEnd(tables: Tables, page: nat, i: nat)
    requires IsEntryFor(tables, page, i)
    ensures !PastTheEnd(tables, page)
  {
  }
}
