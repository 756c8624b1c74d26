# A verified model of the Nachos kernel and machine

Nachos is an instructional operating system that runs on a simulated machine. This project models four parts of it in
Dafny and proves what they promise.

- **The file system on a flat disk.** 1024 sectors of 128 bytes hold the free-sector bitmap and the directory, which are
  ordinary files on the disk that they describe, and all other files. `Bytes`, `SectorDisks`, `BitMaps`, `FileHeaders`,
  `OpenFiles`, `Directories`, `BitMapFiles` and `FileSystems` follow the source, class by class, on mutable arrays;
  `DiskLayout`, `DiskSteps` and `DiskUsage` reason about images of the whole disk; `FileSystemRuns` proves that every run,
  with any number of files open, refines a map from names to bytes, and `FsTest` that what is copied in is what is printed.
- **The MIPS simulator.** `Instructions` and `Cpu` compute what each instruction does, `Translation` what a memory access does,
  and `Machines` runs them on registers and memory in place. `Bits`, `Operations`, `Encodings`, `AccessRules` and `Meanings`
  say the same as mathematics, without reference to how it is computed, and prove that it is so; `ReadOnlyPages` proves
  what protection is worth over whole runs. `Multiplier` proves the multiply loop for every word width,
  `DelayedLoads` that the load-delay slot cannot be noticed by programs that keep out of it, and `StorePairs` what
  unaligned stores do.
- **Threads, semaphores and the clock.** `Kernels` is a protocol of atomic steps: regions with interrupts off, and SWITCH,
  which makes another thread go on from the point where it stopped. `ThreadPlaces`, `SemaphoreCounts` and `KernelRuns` prove
  its invariants over every run, and `Threads` is the same kernel in place, each method proved to be one step. `Interrupts`
  is simulated time with its pending interrupts, `Lists` the linked cells that everything is queued on, and `Common` what these share.
- **The timing of the rotating disk.** `RotatingDisks` says where the head is at any time and proves that the controller's
  modular arithmetic, and its track buffer, agree with that.

Words and bytes are integers in range, with wrap-around written out; time is a natural number. A disk image is a
function of the sector number, so `Consistent` (in `DiskLayout`) can say in one place what holds of every reachable disk:
the stored bitmap marks exactly the disjoint union of sectors 0 and 1, the data sectors of the two system files, and the
header and data sectors of every listed file.

Some findings about the code:

- The branches of Create for a full disk (nachos/code/filesys/filesys.cc:191-203) are never taken on a disk that was
  formatted and used by this file system: ten files of 31 sectors each and the 5 system sectors fit (`SpaceIsNeverTheLimit`).
- Idle may return with an interrupt still due. That happens exactly when the last of the pending interrupts is a timer
  interrupt that is due by the time of the first one, the list is more than that timer, and none of the handlers before it
  schedules anything (`Interrupt.Idle`; `IdleLeavesTimer` is such a run).
- A program that reads a register in the delay slot of its load sees the old contents (`HazardIsReal`).
- A one-byte ReadMem extends the sign on a host whose char is signed, a two-byte one does not (`Translation.Widened`).
- The comment of Thread::Sleep says that the blocked thread is put back by another thread; while Sleep idles it may be put
  back by a handler that runs on that very thread, which is the exception stated in `ExactlyOnePlace`.

`dafny verify dfyconfig.toml` checks everything.

## Model

| member | source | states |
|---|---|---|
| FileSystemRuns.Run | nachos/code/filesys/filesys.cc:176-289 | any sequence of Create, Remove, Open, close, Seek, Read, Write, ReadAt and WriteAt, with any number of files open at once and staying open across the others, is answered as `Step` says of a map from names to bytes and a list of handles with seek positions; a handle is retired when it is closed or its name is removed |
| FileSystemRuns.FormatRunReopen | nachos/code/filesys/filesys.cc:81-144 | after formatting a disk with any contents the run starts from the empty map and no handles; all live handles always stand for listed files; a file system opened on the disk later without formatting has the map where the run stopped |
| FileSystemRuns.Session.Serve | nachos/code/filesys/filesys.cc:176-289 | any one request changes map and handles, and is answered, exactly as `Step` says, and every live handle's cached header still agrees with the disk |
| FileSystemRuns.Session.Create | nachos/code/filesys/filesys.cc:176-216 | succeeds iff the name is new and fewer than ten names are listed; the map gains the name with the length asked for, or nothing changes; all open files go on as before |
| FileSystemRuns.Session.Remove | nachos/code/filesys/filesys.cc:258-289 | succeeds iff the name is listed; the map loses it and its handles are retired; all other open files go on as before |
| FileSystemRuns.Session.Open | nachos/code/filesys/filesys.cc:228-242 | a listed name gets one more live handle at position 0; otherwise nothing changes |
| FileSystemRuns.Session.Seek | nachos/code/filesys/openfile.cc:55-59 | moves one handle and nothing else |
| FileSystemRuns.Session.Read | nachos/code/filesys/openfile.cc:74-80 | answers with the clipped slice that the map has for the name of the handle, whatever was written through other handles meanwhile, and moves this handle by what was read |
| FileSystemRuns.Session.Write | nachos/code/filesys/openfile.cc:82-88 | the map changes at the name of the handle alone, to the old bytes with the clipped range at its position replaced; this handle moves by what was written |
| FileSystemRuns.Session.ReadAt | nachos/code/filesys/openfile.cc:116-144 | answers with the clipped slice that the map has for the name of the handle, and changes nothing |
| FileSystemRuns.Session.WriteAt | nachos/code/filesys/openfile.cc:146-186 | the map changes at the name of the handle alone, to the old bytes with the clipped range replaced; no handle moves |
| FileSystemRuns.RunKeepsListed | nachos/code/filesys/openfile.cc:29-34 | in every run from no handles each live handle stands for a listed file |
| FileSystemRuns.CreateKeepsAll | nachos/code/filesys/filesys.cc:176-216 | all live handles agree with the disk after a file has been created |
| FileSystemRuns.RemoveKeepsAll | nachos/code/filesys/filesys.cc:259-289 | all live handles of other names agree with the disk after a file has been removed |
| FileSystemRuns.WriteKeepsAll | nachos/code/filesys/openfile.cc:146-186 | all live handles agree with the disk after a write through one of them |
| FileSystemRuns.NewFileView | nachos/code/filesys/filesys.cc:186-215 | a created file is in the map with the length asked for; every other name keeps its bytes; the disk stays consistent |
| FileSystemRuns.RemovedView | nachos/code/filesys/filesys.cc:259-289 | a removed name leaves the map and nothing else does |
| FileSystemRuns.WrittenThroughHandle | nachos/code/filesys/openfile.cc:146-186 | a write through an open file changes the map at the name of that file alone, keeps the disk consistent, and keeps the handle good |
| FileSystemRuns.CreateThenRemove | nachos/code/filesys/filesys.cc:176-289 | Create and then Remove gives back every sector and the map as it was |
| FileSystemRuns.CreateKeepsHandles | nachos/code/filesys/filesys.cc:176-216 | an open file stays the file of its name when another one is created |
| FileSystemRuns.RemoveKeepsHandles | nachos/code/filesys/filesys.cc:259-289 | an open file stays the file of its name when another one is removed |
| FileSystemRuns.WriteKeepsHandles | nachos/code/filesys/openfile.cc:146-186 | an open file stays the file of its name when any file is written, and reads the same unless it is that file |
| FileSystems.FileSystem.Format | nachos/code/filesys/filesys.cc:81-133 | on a disk with any contents the constructor makes a consistent disk that lists no file |
| FileSystems.FileSystem.Mount | nachos/code/filesys/filesys.cc:133-144 | on a consistent disk the constructor opens the bitmap and directory files and changes nothing |
| FileSystems.FormatDisk | nachos/code/filesys/filesys.cc:84-132 | formatting: the stored bitmap marks exactly sectors 0 and 1 and the data sectors of the two system files, whose headers are on the disk |
| FileSystems.AllocateSystemFiles | nachos/code/filesys/filesys.cc:88-101 | the space for the two system files is found, disjoint, and marked; neither ASSERT fails |
| FileSystems.FileSystem.Create | nachos/code/filesys/filesys.cc:176-216 | succeeds iff no listed name agrees with the new one in its first nine characters and the directory has a free slot; then exactly the new file has been added; otherwise no sector of the disk has changed |
| FileSystems.FileSystem.AddFile | nachos/code/filesys/filesys.cc:188-215 | for a new name: success iff a slot is free; on failure the disk is as before, since nothing is written back before all steps have succeeded |
| FileSystems.FileSystem.FlushNewFile | nachos/code/filesys/filesys.cc:204-211 | header, directory and bitmap written back over themselves leave a consistent disk with the one file added |
| FileSystems.FileSystem.Open | nachos/code/filesys/filesys.cc:228-242 | null iff no listed name agrees with this one in its first nine characters; else a handle on the header that the directory lists for it, at position 0 |
| FileSystems.FileSystem.Remove | nachos/code/filesys/filesys.cc:258-289 | succeeds iff a listed name agrees with this one in its first nine characters; then exactly that file has been dropped; otherwise no sector has changed |
| FileSystems.FileSystem.DropFile | nachos/code/filesys/filesys.cc:271-284 | the header and data sectors of the file are cleared in the bitmap and its slot is free; the ASSERT in Deallocate does not fail |
| FileSystems.HandleContent | nachos/code/filesys/openfile.cc:29-34 | what a handle reads is what the map has for its name |
| FileSystems.TablesRewritten | nachos/code/filesys/filesys.cc:204-211 | rewriting directory and bitmap, files on the disk that they describe, changes their own data sectors only |
| FileSystems.FormattedDisk | nachos/code/filesys/filesys.cc:84-132 | what formatting leaves on the disk is consistent and lists nothing |
| DiskSteps.Separate | nachos/code/filesys/filehdr.cc:41-52 | in a consistent disk two different files, system files included, share no sector |
| DiskSteps.AddedConsistent | nachos/code/filesys/filesys.cc:204-211 | a disk to which a file has been added on unmarked sectors is consistent: the bitmap still marks exactly the disjoint union of all groups |
| DiskSteps.AddedView | nachos/code/filesys/filesys.cc:204-211 | the map of such a disk is the old one with one name added |
| DiskSteps.DroppedConsistent | nachos/code/filesys/filesys.cc:271-284 | a disk from which a file has been dropped is consistent |
| DiskSteps.DroppedView | nachos/code/filesys/filesys.cc:271-284 | the map of such a disk is the old one without one name |
| DiskSteps.WrittenView | nachos/code/filesys/openfile.cc:146-186 | writing to the data sectors of one file keeps the disk consistent and changes the map at one name |
| DiskLayout.UnionSize | nachos/code/filesys/filehdr.cc:41-52 | pairwise disjoint sector groups have together as many sectors as they have one by one |
| DiskLayout.ViewAt | nachos/code/filesys/directory.cc:110-117 | a name is in the map iff the directory has a slot for it, and then maps to the bytes of that file |
| DiskLayout.UntouchedFile | nachos/code/filesys/filehdr.cc:77-94 | a file is unchanged on a disk that has the same header and data sectors |
| DiskUsage.SectorBalance | nachos/code/filesys/filehdr.cc:41-52 | on a consistent disk the marked sectors number 2 + 1 + 2 for the system files plus a header and the data of each listed file, and free plus used sectors are always 1024 |
| DiskUsage.SpaceIsNeverTheLimit | nachos/code/filesys/filesys.cc:191-203 | ten files of any legal size and the system files leave room for another file: the branches of Create for a full disk are never taken on a consistent disk |
| DiskUsage.FullDirectory | nachos/code/filesys/directory.cc:131-144 | the directory has a free slot iff fewer than ten names are listed |
| OpenFiles.OpenFile.constructor | nachos/code/filesys/openfile.cc:29-34 | the handle caches the header stored in the sector and starts at position 0 |
| OpenFiles.OpenFile.ReadAt | nachos/code/filesys/openfile.cc:116-144 | copies exactly the clipped slice of the file into the buffer at the place given, whatever the alignment; an empty or out-of-range request copies nothing |
| OpenFiles.OpenFile.WriteAt | nachos/code/filesys/openfile.cc:146-186 | the file is the old bytes with the clipped range replaced, for every alignment of both ends and any garbage in the transfer buffer; no sector outside the data of the file changes |
| OpenFiles.OpenFile.Read | nachos/code/filesys/openfile.cc:74-80 | reads the clipped slice at the seek position and moves the position by what was read |
| OpenFiles.OpenFile.Write | nachos/code/filesys/openfile.cc:82-88 | replaces the clipped range at the seek position and moves the position by what was written |
| OpenFiles.OpenFile.Seek | nachos/code/filesys/openfile.cc:55-59 | sets the seek position |
| OpenFiles.OpenFile.FetchSectors | nachos/code/filesys/openfile.cc:134-138 | the read loop fills the buffer with the bytes of the sectors of the file, in order |
| OpenFiles.OpenFile.FetchRange | nachos/code/filesys/openfile.cc:130-143 | the slice cut out of the whole sectors is the requested byte range |
| OpenFiles.OpenFile.PrepareBuffer | nachos/code/filesys/openfile.cc:165-178 | after reading the partly overwritten end sectors, every byte of the buffer that lies in the file is the old byte or the new one, as the range says |
| OpenFiles.OpenFile.FlushBuffer | nachos/code/filesys/openfile.cc:180-183 | the write loop puts each sector of the buffer in its place and touches no other sector |
| OpenFiles.FlushEffect | nachos/code/filesys/openfile.cc:146-186 | flushing a prepared buffer makes the file the old bytes with the range replaced |
| OpenFiles.ContentDependsOnDataSectors | nachos/code/filesys/filehdr.cc:106-110 | the bytes of a file depend on its data sectors alone |
| OpenFiles.SectorRange | nachos/code/filesys/openfile.cc:123-132 | the sectors that a clipped request touches are sectors of the file and cover the range |
| FileHeaders.FileHeader.Allocate | nachos/code/filesys/filehdr.cc:41-52 | succeeds iff enough sectors are clear; then the header lists that many distinct sectors, none marked before, and exactly those have been marked; Find never fails inside the loop; on failure no bit has changed |
| FileHeaders.FileHeader.Deallocate | nachos/code/filesys/filehdr.cc:61-68 | clears exactly the data sectors; the ASSERT that each is marked does not fail |
| FileHeaders.FileHeader.FetchFrom | nachos/code/filesys/filehdr.cc:77-81 | the header becomes the decoded sector |
| FileHeaders.FileHeader.WriteBack | nachos/code/filesys/filehdr.cc:90-94 | the one sector becomes the encoded header; no other changes |
| FileHeaders.HeaderRoundTrip | nachos/code/filesys/filehdr.cc:77-94 | decoding an encoded header gives the header back: 32 words fill one sector |
| FileHeaders.HeaderLayout | nachos/code/filesys/filehdr.h:58-63 | on disk a header is the length, the number of sectors and 30 sector numbers, four little-endian bytes each |
| FileHeaders.SectorsNeeded | nachos/code/filesys/filehdr.cc:44-46 | the number of sectors of a file is the least that holds its bytes |
| FileHeaders.SectorCount | nachos/code/filesys/filehdr.cc:41-52 | distinct table entries are as many sectors |
| BitMaps.BitMap.constructor | nachos/code/userprog/bitmap.cc:24-31 | all bits are clear |
| BitMaps.BitMap.Mark | nachos/code/userprog/bitmap.cc:51-56 | adds one bit to the set of marked ones |
| BitMaps.BitMap.Clear | nachos/code/userprog/bitmap.cc:65-70 | removes one bit from the set of marked ones |
| BitMaps.BitMap.Test | nachos/code/userprog/bitmap.cc:79-88 | tells whether the bit is marked |
| BitMaps.BitMap.Find | nachos/code/userprog/bitmap.cc:99-109 | marks and returns the least clear bit; -1 iff all bits are marked, which then stay as they are |
| BitMaps.BitMap.NumClear | nachos/code/userprog/bitmap.cc:117-126 | clear and marked bits together are all bits |
| BitMaps.MarkSpec | nachos/code/userprog/bitmap.cc:51-56 | setting a bit of one word adds exactly that element to the set, across words |
| BitMaps.ClearSpec | nachos/code/userprog/bitmap.cc:65-70 | clearing a bit of one word removes exactly that element |
| BitMapFiles.FetchFrom | nachos/code/userprog/bitmap.cc:155-159 | the marked bits become those stored in the file |
| BitMapFiles.WriteBack | nachos/code/userprog/bitmap.cc:168-172 | the bits stored in the file become the marked ones; only data sectors of that file change |
| BitMapFiles.MarkedByBit | nachos/code/userprog/bitmap.cc:51-88 | sector i is marked by bit i % 8 of byte i / 8 of the bitmap file |
| Directories.Directory.constructor | nachos/code/filesys/directory.cc:38-44 | no entry is in use, whatever the memory held |
| Directories.Directory.FindIndex | nachos/code/filesys/directory.cc:91-98 | the first entry in use whose name agrees with this one at each of its first nine characters up to its end, or -1 when there is none |
| Directories.KeysTellApart | nachos/code/filesys/directory.cc:91-98 | two names have the same key iff they agree at every index below 9 up to the first terminator |
| Directories.KeyIsName | nachos/code/filesys/directory.h:22-24 | a name of at most nine characters is its own key; a longer one has the key of its first nine |
| DiskLayout.ListedByName | nachos/code/filesys/directory.cc:91-117 | the map has a name iff an entry in use has one that agrees with it in nine characters |
| FileSystemRuns.CreatedIsOpened | nachos/code/filesys/filesys.cc:176-242 | after a successful Create, Open finds exactly the names that agree with the new one in nine characters and those that were there before |
| FileSystemRuns.WrittenIsRead | nachos/code/filesys/openfile.cc:116-186 | reading back what was written gives what was written, clipped, and every other byte is as before |
| Directories.Directory.Find | nachos/code/filesys/directory.cc:110-117 | the header sector of that entry, or -1 |
| Directories.Directory.Add | nachos/code/filesys/directory.cc:131-144 | fills the first free entry iff the name is new and one is free; else the table is unchanged |
| Directories.Directory.Remove | nachos/code/filesys/directory.cc:155-163 | frees the entry of the name iff there is one; else the table is unchanged |
| Directories.Directory.FetchFrom | nachos/code/filesys/directory.cc:64-68 | the table becomes the one stored in the file, entries straddling sectors included |
| Directories.Directory.WriteBack | nachos/code/filesys/directory.cc:77-81 | the file stores the table; only data sectors of that file change |
| Directories.TableRoundTrip | nachos/code/filesys/directory.cc:64-81 | a table of 20-byte entries survives being stored as bytes |
| Directories.EntryRoundTrip | nachos/code/filesys/directory.h:22-39 | an entry, with its padding, survives being stored as 20 bytes |
| Directories.EntryLayout | nachos/code/filesys/directory.h:32-39 | an entry has its flag in byte 0, its sector in bytes 4 to 7, its name from byte 8 on |
| Directories.CopiedName | nachos/code/filesys/directory.cc:137-140 | a name stored with strncpy is found again with strncmp: both see nine characters |
| FsTest.Copy | nachos/code/filesys/fstest.cc:31-70 | the map gains the name with exactly the bytes of the host file, iff it can be created; else it is unchanged |
| FsTest.CopyLoop | nachos/code/filesys/fstest.cc:63-65 | for every way of delivering chunks of up to 10 bytes the loop ends with all bytes in the file; the seek position is the number of bytes moved |
| FsTest.Print | nachos/code/filesys/fstest.cc:77-97 | outputs exactly the bytes that the map has for the name, or nothing |
| FsTest.PrintLoop | nachos/code/filesys/fstest.cc:89-92 | the output is always the part of the file up to the seek position, and in the end all of it |
| FsTest.CopyThenPrint | nachos/code/filesys/fstest.cc:31-97 | what is copied is what is printed, for every file up to the maximal size |
| Multiplier.Mult | nachos/code/machine/mipssim.cc:646-703 | for every word width, hi:lo is the exact double-word product, signed or unsigned, although the multiplicand is shifted arithmetically, the loop may end early, and the most negative word is its own negative |
| Multiplier.MultiplyMagnitudes | nachos/code/machine/mipssim.cc:668-689 | the shift-and-add loop leaves the product of the magnitudes in hi:lo, with the carries between the words |
| Multiplier.Complement | nachos/code/machine/mipssim.cc:691-698 | negating the double word hi:lo word by word |
| Multiplier.SignedProduct | nachos/code/machine/mipssim.cc:654-699 | the product of magnitudes, negated when the signs differ, is the product of the signed words |
| DelayedLoads.DelayedLoadsRefineLoads | nachos/code/machine/mipssim.cc:108-593 | for every program, every kernel, which may answer each exception and interrupt of the run differently, and every pattern of traps and interrupts: as long as no instruction reads or directly writes the register that the one before loads, the machine with the delay slot and one that loads at once have the same registers, memory and PCs after any number of steps |
| DelayedLoads.StepCommutes | nachos/code/machine/mipssim.cc:108-576 | the same for one instruction or interrupt, with the register left in the delay slot |
| DelayedLoads.ExecuteCommutes | nachos/code/machine/mipssim.cc:139-564 | an instruction that keeps out of the delay slot has the same effect before and after the load in progress is completed; the LWL/LWR merge and a reload are allowed |
| DelayedLoads.HazardIsReal | nachos/code/machine/mipssim.cc:586-593 | the condition cannot be dropped: on a program of a load and an instruction that reads the register in the delay slot the two machines end with different registers |
| StorePairs.TrapChangesNothing | nachos/code/machine/machine.cc:105-116 | an instruction that traps has changed no byte of memory, no translation but use bits, and no register but for the completed load and BadVAddr |
| StorePairs.StorePair | nachos/code/machine/mipssim.cc:496-543 | SWR at p and SWL at p + 3, each on the registers of its time, store the four little-endian bytes of the register at p to p + 3 for every p, across pages too, and change no other virtual byte |
| StorePairs.StorePairInProgram | nachos/code/machine/mipssim.cc:496-543 | the same for two consecutive instructions fetched and run by the machine, with fetches and delayed load in between, when none of their registers is being loaded |
| StorePairs.PartStoreBytes | nachos/code/machine/mipssim.cc:496-543 | one partial store changes exactly the bytes of its word that it names |
| Instructions.SwrBytes | nachos/code/machine/mipssim.cc:501-514 | the four cases of SWR as bytes of register and memory word |
| Instructions.SwlBytes | nachos/code/machine/mipssim.cc:524-540 | the four cases of SWL as bytes of register and memory word |
| Instructions.DecodeImmediate | nachos/code/machine/mipssim.cc:600-637 | an immediate instruction put together from its fields is taken apart into the same fields, the immediate as a signed number |
| Instructions.DecodeRegister | nachos/code/machine/mipssim.cc:600-637 | the same for the register form, with the shift amount |
| Instructions.DecodeJump | nachos/code/machine/mipssim.cc:600-637 | the same for jumps, the target unsigned |
| Encodings.DecodeByNumber | nachos/code/machine/mipssim.h:117-150 | Decode recognises each instruction by its number and by nothing else: the major number, the function under SPECIAL, or the branch field under BCOND; it never yields an instruction without a case |
| Encodings.DecodeFields | nachos/code/machine/mipssim.cc:600-637 | the register fields of every word, and its signed immediate, shift amount or jump target |
| Instructions.DivisionTruncates | nachos/code/machine/mipssim.cc:214-222 | quotient and remainder of DIV give back the dividend; the remainder is smaller than the divisor and has the sign of the dividend |
| Instructions.OverflowIsExact | nachos/code/machine/mipssim.cc:142-160 | the sign tests of ADD, ADDI and SUB hold exactly when the mathematical result does not fit a signed word |
| Machines.Machine.constructor | nachos/code/machine/machine.cc:55-77 | all registers and bytes are zero; a TLB starts with no valid entry |
| Machines.Machine.OneInstruction | nachos/code/machine/mipssim.cc:108-576 | exactly one step of the machine of the refinement, on registers and memory in place; and, said of the registers before and after alone (`InstructionMeans`): the word at PC is fetched; each instruction leaves in its register the sum, comparison, bits or shifted bits it should, HI and LO the product or quotient and remainder, the next PC the branch or jump target iff the signed condition holds; loads deliver the bytes at the address with their sign, stores change exactly theirs; and each exception is raised exactly under its condition |
| Machines.Machine.Perform | nachos/code/machine/mipssim.cc:139-564 | the switch in place does what `Execute` says, and on a trap leaves registers as they were |
| Meanings.StateAfterMeans | nachos/code/machine/mipssim.cc:108-576 | fetching and executing any word, from any state, does what `InstructionMeans` says |
| Meanings.ExecuteMeans | nachos/code/machine/mipssim.cc:139-564 | every instruction that does not trap: result in terms of signed values and bits, all other registers kept, the load in progress done, the next PC, and the bytes of memory that a program sees |
| Meanings.ExecuteRaises | nachos/code/machine/mipssim.cc:139-564 | an instruction traps with a given exception and address iff: ADD, ADDI or SUB leaves the range of words, the access is not allowed by the entries, it is a system call, or it is no instruction |
| Meanings.BranchesMean | nachos/code/machine/mipssim.cc:178-212 | a branch goes to the next PC plus four times the signed immediate iff its condition on the signed values holds, else on by 4; the linking ones leave the return address in r31 |
| Meanings.LoadsMean | nachos/code/machine/mipssim.cc:252-299 | LB, LBU, LH, LHU and LW load the little-endian value of the bytes that the program sees at the address, with or without sign |
| Meanings.LoadPartsMean | nachos/code/machine/mipssim.cc:301-359 | LWL and LWR merge memory bytes into the old or just loaded contents byte by byte, as their tables have it |
| Meanings.StoresMean | nachos/code/machine/mipssim.cc:399-409 | SB, SH and SW change exactly the bytes at the address to the low bytes of the register |
| Meanings.HazardFreeExactly | nachos/code/machine/mipssim.cc:139-564 | which registers each instruction reads and writes directly, by its fields; nothing else is a hazard |
| Operations.ResultRdMeans | nachos/code/machine/mipssim.cc:142-554 | the instructions that write rd: exact or wrapped sums and differences, AND, OR, XOR and NOR bit by bit, shifts by where each bit goes, comparisons of signed or unsigned values |
| Operations.ResultRtMeans | nachos/code/machine/mipssim.cc:152-554 | the same for the instructions with an immediate; the logical ones use its low 16 bits |
| Operations.ResultHiLoMeans | nachos/code/machine/mipssim.cc:214-385 | HI and LO: the 64-bit product, signed or not; LO * divisor + HI is the dividend with a small remainder of its sign; zeros for a zero divisor; MTHI and MTLO change one half |
| Operations.JumpTargetMeans | nachos/code/machine/mipssim.cc:241-243 | the target of J and JAL has the top four bits of the address after and the field times four |
| Operations.TakenMeans | nachos/code/machine/mipssim.cc:178-212 | each branch condition on the signed values |
| Machines.Machine.DelayedLoad | nachos/code/machine/mipssim.cc:586-593 | completes the load in progress, then records the next one; register 0 stays 0 |
| Machines.Machine.RaiseException | nachos/code/machine/machine.cc:105-116 | records the bad address and completes the load in progress before the handler runs |
| Machines.Machine.Multiply | nachos/code/machine/mipssim.cc:377-386 | MULT and MULTU leave the exact 64-bit product of the registers in hi:lo, by the multiply loop |
| Machines.Machine.Translate | nachos/code/machine/translate.cc:194-267 | in place: each exception iff the entries demand it (misaligned or past the table, no valid entry, writing to a read-only one, frame out of range); otherwise the address in the frame, with use set, and dirty set iff it was or the access writes, in that entry alone; the final ASSERT does not fail |
| Machines.Machine.SearchTlb | nachos/code/machine/translate.cc:231-235 | the loop finds the first valid TLB slot for the page, or none |
| Machines.Machine.ReadMem | nachos/code/machine/translate.cc:87-124 | the exception that the entries demand, or the value at the translated address, widened as in C |
| Machines.Machine.WriteMem | nachos/code/machine/translate.cc:145-177 | the exception that the entries demand and no change, or the low bytes of the value at the translated address |
| AccessRules.TranslateExactly | nachos/code/machine/translate.cc:194-267 | from the entries alone, for page table and TLB: iff-conditions for AddressError, PageFault, ReadOnly and BusError, and for success, with the address and the use and dirty bits it leaves |
| ReadOnlyPages.RunKeepsFrame | nachos/code/machine/translate.cc:244-251 | no program, over any run with traps and interrupts, changes a byte of a frame that only read-only entries lead to, unless the kernel does |
| ReadOnlyPages.StepKeepsFrame | nachos/code/machine/translate.cc:244-251 | the same for one instruction or interrupt |
| Translation.TlbIsACache | nachos/code/machine/translate.cc:194-267 | a TLB whose valid entries agree with the page table either gives a page fault or exactly the exception or address of the page table, and keeps agreeing |
| Translation.AccessFitsFrame | nachos/code/machine/translate.cc:264-264 | an aligned access of 1, 2 or 4 bytes stays inside its frame and inside memory |
| Translation.ByteAfterWrite | nachos/code/machine/translate.cc:145-177 | with pages mapped to distinct frames a write changes exactly the virtual bytes it names |
| Translation.WriteThenRead | nachos/code/machine/translate.cc:87-177 | reading back at the same address and size gives the value written, cut to its size and widened |
| Translation.WidenedValue | nachos/code/machine/translate.cc:102-116 | what a 4, 2 and 1 byte value is after being cut and widened; a single byte is extended by its sign |
| Translation.TranslateKeepsTranslations | nachos/code/machine/translate.cc:260-262 | use and dirty bits change no later translation |
| RotatingDisks.LatencyIsLeast | nachos/code/machine/disk.cc:233-254 | for a write, or a read that the buffer does not answer, the transfer starts at the first moment after the seek when the target sector begins to pass under the head, and takes one RotationTime more |
| RotatingDisks.LatencyBounds | nachos/code/machine/disk.cc:233-254 | every request takes between 500 and 31999 ticks |
| RotatingDisks.ModuloDiffIsDistance | nachos/code/machine/disk.cc:203-210 | the least number of sectors from one to the other in the direction of rotation |
| RotatingDisks.TimeToSeek | nachos/code/machine/disk.cc:180-195 | after the seek and the rest of a sector the head is at a sector boundary |
| RotatingDisks.SeekIsByTracks | nachos/code/machine/disk.cc:176-195 | a seek takes nothing on the same track, 500 ticks to the next one, and adds up over any track in between |
| RotatingDisks.LatencyExactly | nachos/code/machine/disk.cc:233-254 | 500 ticks out of the buffer; otherwise the seek by tracks, the wait for the sector, of less than a turn, and 500 ticks |
| RotatingDisks.BufferHitExactly | nachos/code/machine/disk.cc:240-248 | the buffer answers iff it is a read on the current track and the whole sector has gone by since bufferInit, up to the sector boundary at hand |
| RotatingDisks.BufferHolds | nachos/code/machine/disk.cc:240-248 | when the track buffer answers, the whole target sector has passed under the head, on its track, between bufferInit and the completion |
| RotatingDisks.HeadPasses | nachos/code/machine/disk.cc:250-253 | when it does not, the whole target sector passes under the head in the last RotationTime of the request |
| RotatingDisks.Disk.ReadRequest | nachos/code/machine/disk.cc:116-134 | the interrupt comes after the latency; by then the whole sector has passed under the head since bufferInit; the invariant on bufferInit is kept |
| RotatingDisks.Disk.WriteRequest | nachos/code/machine/disk.cc:136-154 | the interrupt comes after the latency; the whole sector passes under the head in the last RotationTime before it |
| RotatingDisks.Disk.UpdateLast | nachos/code/machine/disk.cc:262-272 | bufferInit stays a sector boundary since which the head has been on the current track; each recorded movement takes 500 ticks for each track from where the one before went |
| RotatingDisks.Disk.HandleInterrupt | nachos/code/machine/disk.cc:162-167 | with interrupts that never come early, bufferInit is not in the future once no request is active |
| RotatingDisks.ServeAll | nachos/code/machine/disk.cc:116-167 | over every sequence of requests, with a head that needs 500 ticks a track, each whole sector has passed under the head by the completion of its request; bufferInit is a multiple of RotationTime and not in the future between requests; all latencies are in bounds |
| RotatingDisks.StillPassed | nachos/code/machine/disk.cc:262-272 | a later seek does not undo what has passed under the head |
| Lists.List.constructor | nachos/code/threads/list.cc:43-46 | the empty list |
| Lists.List.Append | nachos/code/threads/list.cc:76-91 | the item is at the end; the linked cells still represent a sequence whose final cell is `last` |
| Lists.List.Prepend | nachos/code/threads/list.cc:105-120 | the item is at the front; the cells stay well linked |
| Lists.List.Remove | nachos/code/threads/list.cc:144-148 | takes the first item off, or finds none |
| Lists.List.RemoveItem | nachos/code/threads/list.cc:156-175 | takes the first occurrence off and repairs both ends |
| Lists.List.Length | nachos/code/threads/list.cc:182-192 | the number of cells |
| Lists.List.IsEmpty | nachos/code/threads/list.cc:239-246 | whether there is no cell |
| Lists.List.SortedInsert | nachos/code/threads/list.cc:263-294 | the item is put before the first larger key |
| Lists.List.SortedRemove | nachos/code/threads/list.cc:309-332 | takes the first item and its key off, or finds none |
| Lists.InsertedSorted | nachos/code/threads/list.cc:263-294 | in a sorted list SortedInsert keeps the order, puts the item after all equal keys, and loses nothing |
| Interrupts.RunClock | nachos/code/machine/interrupt.cc:121-346 | over every run: each scheduled interrupt has fired once or is pending once, none fired before its time, they fired in the order of their times at times that never go back, ticks never decrease and are idle + system + user ticks |
| Interrupts.Interrupt.Schedule | nachos/code/machine/interrupt.cc:271-281 | the interrupt is pending in time order; everything scheduled is still fired once or pending once |
| Interrupts.Interrupt.CheckIfDue | nachos/code/machine/interrupt.cc:297-346 | fires the first pending interrupt iff there is one, it is due or the clock may be advanced to it, and it is not a lone timer on an idle machine; the clock is advanced to exactly that time; otherwise the same interrupts stay pending |
| Interrupts.Interrupt.Drain | nachos/code/machine/interrupt.cc:175-177 | the loop ends for all handlers that schedule interrupts at positive delays, by the number of interrupts due; something stays due iff the machine is idle and a due timer comes last with no earlier handler scheduling anything |
| Interrupts.Interrupt.OneTick | nachos/code/machine/interrupt.cc:157-185 | one tick of the current mode passes, everything due has fired, interrupts are on again; a yield is handed over, once, iff one was already requested or a handler fired by this tick asked for it |
| Interrupts.Interrupt.SetLevel | nachos/code/machine/interrupt.cc:121-133 | time passes exactly when interrupts go from off to on; then a yield is handed over iff one was requested before or by a handler fired here |
| Interrupts.Interrupt.Idle | nachos/code/machine/interrupt.cc:216-240 | in terms of the state before the call: stops iff nothing is pending but perhaps one timer interrupt; else the clock goes to the first pending time and something is left due iff the last pending interrupt is a timer due by then and no handler before it schedules anything |
| Interrupts.IdleLeavesTimer | nachos/code/machine/interrupt.cc:216-240 | a run in which Idle goes on and leaves a timer interrupt due: a disk and a timer interrupt at the same time |
| Interrupts.FiringKeepsTimerLast | nachos/code/machine/interrupt.cc:323-329 | firing the first interrupt keeps the condition under which a due timer comes to be alone, and keeps its failure |
| Interrupts.AskedOnceMore | nachos/code/machine/interrupt.cc:199-203 | the yields asked for are those of the handlers that fired |
| Interrupts.ExactlyOnce | nachos/code/machine/interrupt.cc:271-346 | conservation of interrupts means one occurrence of each among the fired and the pending ones |
| Interrupts.PutBack | nachos/code/machine/interrupt.cc:319-321 | putting an interrupt back leaves the same interrupts in time order, up to the order of equal times |
| Interrupts.InsertLater | nachos/code/machine/interrupt.cc:271-281 | a later interrupt does not change the number of those due, the measure of the drain loop |
| KernelRuns.NoAssertionFails | nachos/code/threads/thread.cc:112-302 | in every run of thread, semaphore and handler steps the invariant holds and no assertion of P, V, Yield, Sleep, Finish, Run and the destructor fails |
| KernelRuns.EveryStepIsKept | nachos/code/threads/scheduler.cc:69-170 | the same for one step: no assertion fails, every thread is in its place, every semaphore account is kept |
| KernelRuns.ExactlyOnePlace | nachos/code/threads/thread.cc:213-370 | each live started thread is in exactly one place - processor, one index of the ready list, one index of one semaphore queue, or awaiting deletion - and its status agrees; in the loop of Sleep the current thread does not count as on the processor |
| KernelRuns.ValueIsConserved | nachos/code/threads/synch.cc:66-105 | in every state reachable from the start, value = initial value + completed Vs - completed Ps >= 0, the Vs and Ps counted from the steps of the run |
| KernelRuns.RunsAreAccounted | nachos/code/threads/synch.cc:66-105 | over every run each V is completed, and each P is completed or has its thread inside |
| KernelRuns.NoLostWakeup | nachos/code/threads/synch.cc:66-105 | while any thread is queued the value is at most the number of threads that V has woken and that have not tested it again; all of these are on the ready list or just switched to |
| KernelRuns.FirstComeFirstServed | nachos/code/threads/scheduler.cc:69-92 | across any steps the thread at index i of the ready list is the one switched to at the (i+1)st later switch, and until then moves up one place a switch |
| KernelRuns.SwitchesAreCounted | nachos/code/threads/thread.cc:249-302 | a switch is made exactly by Yield and Sleep when a ready thread is found and the system is not halted, to the head of the list |
| KernelRuns.StartStep | nachos/code/threads/thread.cc:156-169 | after Start the thread is ready, last in line, and will begin at its start; every other thread, the level and the semaphores are as before |
| KernelRuns.StartedThreadIsNext | nachos/code/threads/thread.cc:156-169 | over every run a started thread is the one switched to at the (n+1)st later switch, where n threads were in line before it |
| KernelRuns.StartedThreadBegins | nachos/code/threads/thread.cc:328-370 | when a started thread gets the processor for the first time it runs with interrupts on |
| KernelRuns.CreateStep | nachos/code/threads/thread.cc:50-74 | a new thread is just created, and nothing else has changed |
| KernelRuns.LevelIsKept | nachos/code/threads/synch.cc:66-105 | only SetLevel changes the interrupt level of a thread that keeps the processor; one that gives it up does so with interrupts off |
| KernelRuns.HaltStopsSwitching | nachos/code/threads/scheduler.cc:44-48 | after Stop there is no switch in any run |
| KernelRuns.AlwaysAStep | nachos/code/threads/thread.cc:112-302 | in every state of the invariant the kernel can go on: what a running thread, one just switched to, and the loop of Sleep may do |
| KernelRuns.NoRunOvertakes | nachos/code/threads/scheduler.cc:69-92 | the order of past switches followed by the ready list is only ever extended at its end |
| KernelRuns.WokenInOrder | nachos/code/threads/synch.cc:92-105 | the thread at index i of a semaphore queue is at its head after i later V operations, whatever else happens |
| KernelRuns.QueueStep | nachos/code/threads/synch.cc:66-105 | V makes exactly the head of the queue ready, last in line; no other step shortens a queue or changes its order |
| KernelRuns.YieldKeepsLevel | nachos/code/threads/thread.cc:249-266 | a thread that yields goes on with interrupts as they were, whatever ran until it got the processor back |
| KernelRuns.PKeepsLevel | nachos/code/threads/synch.cc:66-82 | a thread that waits in P tests the value again when it gets the processor back: it takes one unit and goes on with interrupts as they were, or waits again |
| KernelRuns.BootedInv | nachos/code/threads/thread.cc:82-98 | the main thread alone, running, with any initial semaphore values, satisfies the invariant |
| ThreadPlaces.WaitPlaced | nachos/code/threads/synch.cc:74-78 | the thread that waits in P is in that queue alone and blocked |
| ThreadPlaces.WakePlaced | nachos/code/threads/synch.cc:93-105 | the head of the queue moves to the end of the ready list, also while it is the current thread in the loop of Sleep, and every thread stays in its place; without a waiter no thread moves |
| ThreadPlaces.YieldPlaced | nachos/code/threads/thread.cc:249-266 | the head of the ready list gets the processor and the thread that yields is at the end, or nothing changes; every thread stays in its place |
| ThreadPlaces.FinishPlaced | nachos/code/threads/thread.cc:213-229 | the finished thread is the one awaiting deletion; there was none before |
| ThreadPlaces.DispatchPlaced | nachos/code/threads/scheduler.cc:108-137 | the head of the ready list has the processor and is running; every other thread stays in its place |
| ThreadPlaces.BackPlaced | nachos/code/threads/scheduler.cc:149-160 | after a switch the finished thread is deleted, which is never the current one |
| SemaphoreCounts.TryCounted | nachos/code/threads/synch.cc:74-81 | one turn of the loop of P keeps every account, by a thread that has just been woken or has just come |
| SemaphoreCounts.WakeCounted | nachos/code/threads/synch.cc:93-105 | V keeps every account: one unit of value more, and one woken thread more if any was queued |
| SemaphoreCounts.ResumeCounted | nachos/code/threads/synch.cc:74-81 | a woken thread that gets the processor tests the value again and keeps every account |
| Threads.Processor.constructor | nachos/code/threads/thread.cc:82-98 | the state at the start of the system |
| Threads.Processor.ReadyToRun | nachos/code/threads/scheduler.cc:69-76 | the thread is ready and last in line |
| Threads.Processor.FindNextToRun | nachos/code/threads/scheduler.cc:86-92 | takes the head off the ready list, unless the list is empty or the system halted |
| Threads.Processor.Run | nachos/code/threads/scheduler.cc:108-145 | up to the switch: the next thread is current and running; the ASSERT is the precondition, which all callers meet |
| Threads.Processor.Resume | nachos/code/threads/scheduler.cc:147-170 | after the switch: deletes a finished thread and goes on in P, in Yield, or at the start of the thread; one Resume step, invariant kept |
| Threads.Processor.Start | nachos/code/threads/thread.cc:156-169 | one Start step, as `StartStep` describes it; the invariant is kept |
| Threads.Processor.Yield | nachos/code/threads/thread.cc:249-266 | one Yield step; the invariant is kept and the interrupt level comes back |
| Threads.Processor.Finish | nachos/code/threads/thread.cc:213-229 | one Finish step; threadToBeDestroyed was NULL |
| Threads.Processor.SleepLoop | nachos/code/threads/thread.cc:297-301 | the loop of Sleep is a run of handler steps that ends with a switch, or with nothing ready when the idle calls given are used up |
| Threads.Processor.P | nachos/code/threads/synch.cc:66-82 | one P step: take the value, or queue up and fall asleep; the assertion on the value holds |
| Threads.Processor.V | nachos/code/threads/synch.cc:92-105 | one V step: wake the head of the queue, if any, and raise the value |
| Threads.Processor.HandlerV | nachos/code/threads/synch.cc:92-105 | the same by an interrupt handler, whatever the current thread is doing |

## Left out

- Lock, Condition and what is built on them (SynchList, the blocking inside SynchDisk, the post office): their bodies only assert false; sector reads and writes are atomic here.
- Concurrent file-system calls, and the use of handles on files that have been removed: the source says that neither is supported, so in `FileSystemRuns` a request on a retired handle is not made.
- File sizes below 0 or above MaxFileSize: FileHeader::Allocate does not check them, so they are preconditions of Create and Allocate, like non-negative positions; overflow of position + numBytes is not modelled.
- The bytes of a new file before it is written, and the slack past the end of a file in its last sector: they are whatever the disk held; nothing is promised about them.
- Failing to read a disk that holds no file system: Mount requires a consistent disk, which is what every run from formatting leaves.
- FileSystem::List, FileSystem::Print and all other Print, List and Mapcar members, debugging and SVG dumps.
- strncmp and strncpy are modelled as the C standard describes them, on sequences that end in a zero or at their end.
- `|=` and `&=` on bitmap words are written as arithmetic on the one bit, and `&`, `|`, `^` on registers bit by bit; words are unsigned patterns, also in file headers.
- RFE, which no opcode table lists and for which the processor has no case: `Encodings.DecodeByNumber` shows that it is never decoded.
- DIV of the most negative word by -1, undefined in C, wraps around here.
- LWL and LWR are modelled as the tables in the source have them, and included in the delayed-load refinement, but no claim is made that a pair of them assembles a word: the LWL table has cases 0 and 2 interchanged relative to the SWL table.
- The kernel's exception and interrupt handlers are a parameter of the refinement: any function of the state, the cause and the number of the event that leaves no load in progress and register 0 zero.
- The page table of a Machine is handed to the constructor; in the source it is set later, by the kernel.
- Machine::Run, the debugger, big-endian hosts, console, network, timer device and sockets.
- In disk.cc the tick count is cut to an int; here it is a mathematical integer, as in stats.h. The data of a sector transfer is in the file-system part.
- The order of interrupts that are due at the same time, which CheckIfDue may change when it puts one back.
- What handlers do is a parameter of the clock: any list of interrupts at positive delays, and a wish to yield. The yield itself is made by the caller of OneTick.
- Interrupts.Interrupt.Idle: with no interrupts to fire the source shuts down; here false is returned.
- Stack allocation, the overflow check of the stack, SWITCH itself, and saving user registers and address spaces. Threads are numbers, and a deleted number may be used again.
- Threads.Processor.P: a method ends at the switch, and the rest of the loop of P is done by Resume in the thread that is switched to, because a Dafny method cannot be left in its middle.
- Threads.Processor.SleepLoop: how often Idle returns and which semaphores its handlers signal is a parameter, since the loop need not end otherwise.
- Deleting a thread or a semaphore by hand, and Start on a thread that was started before, which the source forbids by an ASSERT.
- The counters `initial`, `vs` and `ps` of a semaphore and the list of switches are kept for the proofs; the source does not have them.
