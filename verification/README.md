# PolymorphOS kernel: a Dafny model

This project models the parts of the PolymorphOS kernel whose correctness depends on whole runs, and
proves what those runs keep.

**Storage.** Three layers that refine each other. `Nvme` is the I/O queue pair of the NVMe driver with
the device on the other end of the rings; together they behave as an atomic map from block address to
4096 bytes (section 4.6 of NVM Express 1.4 describes the phase tag). `Mft` is the text of the file table
in block 0. `MfsModel` says which blocks each file operation writes and in which order, and proves what a
stop after any of those writes leaves behind; `MfsRead` proves what a later read returns; `Mfs` holds the
operations as they run, block by block over the driver, each proved to end at a prefix of its plan.
`MdoVm` is the stack machine that guards reads, deletes and renames. `MftFormat`, `MfsGate` and
`MdoScripts` say in plain bytes what the table, a file and its script mean.

**Wakeups.** `ByteRing` and `Wakeup` model the path from an interrupt to its consumer, as an
interleaving of interrupt, poll and executor steps.

**Allocators.** `BitmapAllocator` is the kernel's global allocator, `LinkedListAllocator` the in-place
free list (kept in the repository, not built), `Frames` the boot-time frame allocator.

**Device rings.** `E1000Rx` (section 3.2.6 of the Intel 8254x Software Developer's Manual), `Checksum`
(section 1 of RFC 1071), `VirtQueue` (section 2.4 of VIRTIO 1.0).

**Windows.** Animation, closing, focus, dragging and depth of the desktop's windows.

Assumptions, stated once: one block write is atomic and a failed one happens completely or not at all;
one logical block is 4096 bytes; an interrupt handler is not itself interrupted; a device answers after
some finite number of spins; heap and layout sizes do not overflow the machine word except where an
overflow check is modelled.

## Where the code differs from what one would expect

- `find_file` does not look at the table header, `read_mft` does (`Mft.ReadersAgreeIff` says exactly when
  they agree, `MfsLimits.ReadersDisagree` gives a block on which they do not).
- A name with `:` in it is not refused and corrupts the table (`MfsLimits.ColonInNameMisplacesFile`);
  `MfsModel.CompleteIffFits` gives the exact condition for operations, `Mft.RoundTripIff` for tables,
  reading every byte as ASCII: the code also round-trips names that are valid UTF-8 beyond ASCII, which
  this condition counts as not clean.
- A table that outgrows its block is cut without an error (`MfsModel.CrashLeavesCut`,
  `MfsModel.CommitKeepsFileIff`); a single long name is enough (`MfsLimits.LongNameIsLostIff`).
- An empty file owns no block, so it becomes an alias of the next file saved
  (`MfsLimits.EmptyFileServesNeighbour`, with concrete bytes `MfsLimits.EmptyFileReadsOther`); a non-empty
  file is always read as its own bytes (`MfsRead.ReadBack`).
- The comments at kernel/src/main.rs:109-118 expect the good context to be admitted because its
  requestor matches the owner field of the file header. The script compares two values of the caller's
  context instead (`MdoVm.VaultScriptComparesContext`), and those differ there.
- MDO_VM.md lists opcodes 0x12, 0x22, 0x23 and 0x31; the code rejects them, and so does the model.
- A dragged window does not simply follow the cursor (`Windows.DragFollowsIff` says exactly when it does):
  while the cursor stays on its title bar it stays put, since every frame takes the drag offset anew
  (`Windows.HeldTitleBarStaysPut`), and a drag that crosses another window takes that one along instead
  (`Windows.DragJumpsToOtherWindow`).
- The shipped heap starts at a multiple of 256 KiB and the allocator aligns block indices, not addresses, so
  larger alignments are never met (`BitmapAllocator.ShippedAlignedIff`).
- A failed setup command of the GPU driver does not give its two descriptors back (`VirtQueue.FreeCount`).
- The global allocator has more heap blocks than heatmap bits with the shipped sizes
  (`BitmapAllocator.ShippedSizesRunOff`): a request that does not fit ends in an index panic where null was
  meant, except for alignments above 32 MiB (`BitmapAllocator.ShippedNullIff`,
  `BitmapAllocator.BigRequestPanics`).

## Model

| member | source | states |
|---|---|---|
| `Decimal.ParseDigits` | kernel/src/mfs.rs:36-36 | parsing the printed form of any u64 gives the number back |
| `Decimal.ParseCut` | kernel/src/mfs.rs:56-57 | a printed number cut anywhere after its first digit parses to a decimal prefix of it |
| `Decimal.CutIsSmaller` | kernel/src/mfs.rs:56-57 | a printed number that has lost a digit never parses to itself |
| `MftFormat.DecimalDigits` | kernel/src/mfs.rs:52-52 | the k-th digit from the right of a printed number is its k-th decimal digit, as an ASCII character |
| `MftFormat.DigitCount` | kernel/src/mfs.rs:52-52 | a printed number has no superfluous digit |
| `MftFormat.ParseNumeral` | kernel/src/mfs.rs:36-36 | leading zeros and one plus sign are accepted, and a number is read if and only if it is below 2^64 |
| `MftFormat.NoNumeral` | kernel/src/mfs.rs:36-36 | a field without digits, or with any other byte, is no number |
| `MftFormat.OneEntryBlock` | kernel/src/mfs.rs:50-57 | the very bytes of block 0 for a one-entry table |
| `MftFormat.MoreEntries` | kernel/src/mfs.rs:51-53 | each further entry adds its line, byte by byte |
| `MftFormat.TextEndsAtNul` | kernel/src/mfs.rs:27-29 | the table text ends at the first NUL, and a block with a byte above 127 is no text |
| `MftFormat.CarriageReturnIgnored` | kernel/src/mfs.rs:33-33 | a line may end in a carriage return |
| `MftFormat.ExtraFieldsIgnored` | kernel/src/mfs.rs:34-35 | fields after the third are ignored |
| `MftFormat.TwoFieldsAreNoEntry` | kernel/src/mfs.rs:35-35 | a line with fewer than three fields is no entry |
| `MftFormat.NamesMatchIff` | kernel/src/mfs.rs:112-112 | two names match if and only if, without the blanks around them, they agree up to the case of A to Z |
| `Mft.ReadWrittenTable` | kernel/src/mfs.rs:20-60 | what is read back from a written table is a prefix of it whose last block count may be cut to a decimal prefix; nothing is lost when the text fits |
| `Mft.LinesSurviveIff` | kernel/src/mfs.rs:46-60 | the first m entries of a table are read back if and only if their lines lie in the block, the last line feed aside |
| `Mft.RoundTripIff` | kernel/src/mfs.rs:20-60 | reading bytes as ASCII, a table is read back unchanged if and only if its names are free of NUL, line feed and colon, its numbers are u64 and its text has at most 4097 bytes (the last being the final line feed) |
| `Mft.ReadMftIsClean` | kernel/src/mfs.rs:27-42 | whatever block 0 holds, every entry read from it has a clean name and u64 fields |
| `Mft.FindFileAgreesWithReadMft` | kernel/src/mfs.rs:94-120 | with a valid header the fused scan returns exactly the first parsed entry whose trimmed name matches ignoring ASCII case |
| `Mft.ReadersAgreeIff` | kernel/src/mfs.rs:32-42 | `find_file` never checks the header: the two readers agree on all names if and only if the header is there or no line parses |
| `MfsModel.Gate` | kernel/src/mfs.rs:125-153 | a granted request means the magic bytes are there and the script in that very block ran to Ok; the payload offset lies in 128..4096 |
| `MfsGate.GateOutcome` | kernel/src/mfs.rs:130-153 | which block gets which answer, in its bytes: no magic, a length field above 3968, a script that fails, or the payload offset 128 plus the length |
| `MfsGate.GateOfSaved` | kernel/src/mfs.rs:130-153 | for every header filler, script of at most 3968 bytes and payload the saved file's script alone decides |
| `MfsGate.SavedFileReads` | kernel/src/mfs.rs:63-181 | any file saved on a blank drive reads back as exactly its payload, zero filled, if its script grants the context, and is denied otherwise |
| `MfsGate.VaultReads` | kernel/src/main.rs:325-353 | the file the kernel forges reads back from offset 136 if and only if requestor and owner of the reader's context agree |
| `MfsModel.ExecKeepsTable` | kernel/src/mfs.rs:63-91 | any operation cut after any number of block writes keeps names distinct, extents ordered, disjoint and from block 1 on, even when the table text overflows |
| `MfsModel.EveryRunIsWellFormed` | kernel/src/mfs.rs:184-225 | the same over every run of saves, deletes and renames from a blank drive, each cut off anywhere |
| `MfsModel.DataWritesAvoidListedFiles` | kernel/src/mfs.rs:70-87 | no data write of any operation lands on block 0 or inside a listed extent |
| `MfsModel.CrashAtomic` | kernel/src/mfs.rs:63-91 | crash atomicity: after any prefix of its writes the drive holds all old files with all their bytes, or, once a table that fits is written, exactly the files of the reference file system after the whole operation |
| `MfsModel.CompleteIffFits` | kernel/src/mfs.rs:46-91 | a completed operation, whatever its names, has its whole effect if and only if the name it introduces is clean and the new table fits its block |
| `MfsModel.CrashLeavesCut` | kernel/src/mfs.rs:46-91 | with no bound on the table: a stop before the last write changes no file, and a completed operation leaves a prefix of the files it should, of which only the last may have lost blocks |
| `MfsModel.CommitKeepsFileIff` | kernel/src/mfs.rs:55-59 | a completed operation keeps a file it should leave, with all its bytes, if and only if that file's table line and those before it lie in the block |
| `MfsModel.WrittenTableWellFormed` | kernel/src/mfs.rs:46-60 | writing a well-formed table and reading it back gives a well-formed table, cut or not |
| `MfsRead.ConcatChunks` | kernel/src/mfs.rs:75-86 | the blocks of a file, joined, are its bytes followed by zeros up to a whole block |
| `MfsRead.FileSurvives` | kernel/src/mfs.rs:184-225 | a file keeps its name and every byte through any run, crashes and overflowing tables included, that neither deletes nor renames it and keeps its table line in the block |
| `MfsRead.RunRefinesReference` | kernel/src/mfs.rs:63-225 | whole runs refine the reference file system: whatever the crashes, as long as the tables that reach the drive fit, it holds exactly the files that the committed operations produce one after the other |
| `MfsRead.DeleteAllowedIff` | kernel/src/mfs.rs:187-195 | a listed file is deleted if and only if the script agrees that stands in its own first block, or, for an empty file, in the block at its start |
| `MfsRead.RenameAllowedIff` | kernel/src/mfs.rs:207-219 | a listed file is renamed if and only if the new name is free and that script agrees |
| `MfsRead.SaveOutcome` | kernel/src/mfs.rs:63-91 | a save is refused if and only if the very name is taken or the extent does not fit below 2^64, with that error, and otherwise adds one entry at the end of the last extent, or at block 1, of the bytes' length in blocks |
| `MfsRead.DeleteOutcome` | kernel/src/mfs.rs:184-203 | not found, the gate's refusal, or the first entry of that name removed |
| `MfsRead.RenameOutcome` | kernel/src/mfs.rs:204-225 | new name taken, old name not found, the gate's refusal, or one name changed, asked in this order |
| `MfsRead.ReadFirstMatch` | kernel/src/mfs.rs:156-161 | a read serves the first listed entry whose name matches |
| `MfsRead.ReadEntryBytes` | kernel/src/mfs.rs:162-177 | a granted read of a non-empty file is the joined bytes of its extent from the payload offset on |
| `MfsRead.ReadBack` | kernel/src/mfs.rs:156-181 | a committed save of non-empty data reads back, after any later run that spares it and keeps its table line in the block, as its zero-padded bytes after header and script, and only if the script in its own first block grants access |
| `MfsRead.BlankSaveReadsBack` | kernel/src/mfs.rs:63-181 | a non-empty file saved on a blank drive reads back under its own name exactly when its script grants access |
| `MfsLimits.ColonInNameMisplacesFile` | kernel/src/mfs.rs:52-52 | a file saved under the name a:5:1 on a blank drive is listed as file a at block 5, where it does not lie |
| `MfsLimits.ReadEmptyFile` | kernel/src/mfs.rs:166-172 | reading an empty file asks the script in, and returns part of, whatever block lies at its start |
| `MfsLimits.NextSaveTakesEmptyStart` | kernel/src/mfs.rs:70-75 | the next save puts its first data block exactly at the start of an empty last file |
| `MfsLimits.EmptyFileServesNeighbour` | kernel/src/mfs.rs:70-90 | after the next save the empty file is read as that file's first block, and that file's script decides on reading, deleting and renaming it |
| `MfsLimits.EmptyThenFull` | kernel/src/mfs.rs:63-181 | on a blank drive: save an empty file a, then any b; reading a returns the first block of b after its script |
| `MfsLimits.EmptyFileReadsOther` | kernel/src/mfs.rs:156-181 | the same with concrete bytes: reading a returns the payload byte stored in b |
| `MfsLimits.ReadersDisagree` | kernel/src/mfs.rs:33-42 | a block without the header in which find_file finds a file and read_mft finds none |
| `MfsLimits.LongNameIsLostIff` | kernel/src/mfs.rs:55-59 | a first save that is allowed and fully written is not listed if and only if its name has 4086 bytes or more |
| `MfsLimits.LongNameIsLost` | kernel/src/mfs.rs:55-59 | such a save: a one-byte file with a name of 4096 letters |
| `MfsLimits.CutEntryListedIff` | kernel/src/mfs.rs:35-37 | a cut table line still parses if and only if a digit of its block count is left |
| `Mfs.ReadTable` | kernel/src/mfs.rs:20-43 | returns the parsed table or a device error and changes nothing |
| `Mfs.FormatTable` | kernel/src/mfs.rs:50-53 | the text grown entry by entry is the printed table |
| `Mfs.WriteTable` | kernel/src/mfs.rs:46-60 | one block write of the encoded table: all of it on success, all or nothing on failure |
| `Mfs.WriteData` | kernel/src/mfs.rs:77-87 | the data loop leaves the drive after a prefix of the planned writes, all of them on success |
| `Mfs.SaveFile` | kernel/src/mfs.rs:63-91 | ends after some prefix of the planned writes: all of them on success, none when refused, with the refusal the model gives; a device error is reported exactly when the device reported one |
| `Mfs.VerifyMdoAccess` | kernel/src/mfs.rs:125-153 | gives the verdict of the gate on the block at that address |
| `Mfs.DeleteFile` | kernel/src/mfs.rs:184-201 | ends after some prefix of the planned writes: all of them on success, none when refused by table or gate; a device error is reported exactly when the device reported one |
| `Mfs.RenameFile` | kernel/src/mfs.rs:204-225 | ends after some prefix of the planned writes: all of them on success, none when refused by table or gate; a device error is reported exactly when the device reported one |
| `Mfs.ReadPayload` | kernel/src/mfs.rs:162-177 | the read loop returns the first block from the offset on followed by the other blocks, unless a block cannot be read |
| `Mfs.ReadFileFrom` | kernel/src/mfs.rs:156-181 | changes nothing, returns data only as the read model says, and without device errors returns exactly what it says |
| `Nvme.LbaSplit` | kernel/src/nvme.rs:342-343 | the two command words determine the 64-bit block address |
| `Nvme.NextSlotAndPhase` | kernel/src/nvme.rs:266-282 | stepping an index with the wrap test and flipping the phase at the wrap follows the running command number |
| `Nvme.PostChangesOneTag` | kernel/src/nvme.rs:271-289 | posting a completion turns the tag of its own slot only; until then that slot holds the stale tag |
| `Nvme.NvmeController.constructor` | kernel/src/nvme.rs:59-72 | the rings start in the state of zero commands |
| `Nvme.NvmeController.Enqueue` | kernel/src/nvme.rs:261-269 | the command is in its slot and announced, nothing else changes |
| `Nvme.NvmeController.AwaitCompletion` | kernel/src/nvme.rs:271-289 | however long the device takes, the spin ends only with the completion of this command |
| `Nvme.NvmeController.SubmitIoCmd` | kernel/src/nvme.rs:258-292 | after n commands tail and head are n mod 64 and the phase follows the wraps; the command took effect once, with its own status |
| `Nvme.NvmeController.WriteBlock` | kernel/src/nvme.rs:330-348 | refines an atomic block map: one zero-padded block changes on success, that block or nothing on failure |
| `Nvme.NvmeController.ReadBlock` | kernel/src/nvme.rs:351-370 | returns the block of the map or an error and changes nothing |
| `MdoVm.ExecuteMictCheck` | kernel/src/mdo_vm.rs:74-146 | the fused loop on the 32-slot stack terminates on every byte string and gives the verdict of decode-then-run |
| `MdoVm.Execute` | kernel/src/mdo_vm.rs:80-139 | one instruction on the array stack does what it does on an unbounded stack with depth limit 32 |
| `MdoVm.MictStack.Push` | kernel/src/mdo_vm.rs:30-35 | appends a value, or refuses on a full stack and changes nothing |
| `MdoVm.MictStack.Pop` | kernel/src/mdo_vm.rs:38-42 | removes and returns the last value, or refuses on an empty stack |
| `MdoVm.GrantedIff` | kernel/src/mdo_vm.rs:135-145 | access is granted if and only if decoding ends in HALT_OK and every step before it stays within 0..32 slots and every asserted value is non-zero in its first byte |
| `MdoVm.GrantIgnoresSuffix` | kernel/src/mdo_vm.rs:135-138 | a granted script stays granted whatever bytes follow it |
| `MdoVm.NoHaltNoGrant` | kernel/src/mdo_vm.rs:144-145 | a script without a HALT_OK byte never decodes to a grant |
| `MdoVm.VaultScriptComparesContext` | kernel/src/main.rs:337-347 | the forged vault script grants exactly when requestor and owner of the caller's context are equal, and otherwise returns 0x42 |
| `MdoScripts.EndOrHalt` | kernel/src/mdo_vm.rs:135-145 | 0x3F grants, the end of the script is 0xFB and any byte that is no opcode 0xFC, whatever is on the stack |
| `MdoScripts.PushVariable` | kernel/src/mdo_vm.rs:80-98 | 0x10 pushes requestor, action, owner or little-endian status for 1 to 4, and is 0xFE for other identifiers, 0xFF when cut, 0xFD on a full stack |
| `MdoScripts.PushConstant` | kernel/src/mdo_vm.rs:100-107 | 0x11 pushes the 32 bytes that follow, and is 0xFF when they are not all there |
| `MdoScripts.CompareTop` | kernel/src/mdo_vm.rs:109-121 | 0x20 replaces the two top values by 1 if they are equal, 0x21 if they differ, and is 0xFD with fewer than two |
| `MdoScripts.AssertTop` | kernel/src/mdo_vm.rs:123-133 | 0x30 takes the top value and stops with the byte after it if that begins with 0 |
| `MdoScripts.CompareConstants` | kernel/src/mdo_vm.rs:109-121 | for all values and codes, comparing two constants grants exactly when they are equal (0x20) or different (0x21) |
| `MdoScripts.CompareVariable` | kernel/src/mdo_vm.rs:85-98 | the same for each of the four variables and any constant |
| `MdoScripts.CompareVariables` | kernel/src/mdo_vm.rs:85-98 | the same for any two variables |
| `MdoScripts.StackHolds32` | kernel/src/mdo_vm.rs:30-35 | any 32 constants can be pushed, a 33rd is a stack error |
| `Bytes.LittleEndianRoundTrip` | kernel/src/mfs.rs:138-138 | writing a number little-endian and reading it back keeps it |
| `ByteRing.FullIff` | kernel/src/task/keyboard.rs:20-21 | the ring refuses a byte exactly when it holds one byte less than its size; unequal indices mean data |
| `ByteRing.AddAppends` | kernel/src/task/keyboard.rs:18-29 | an accepted byte is appended, a refused one changes nothing |
| `ByteRing.AdvanceDropsFront` | kernel/src/task/keyboard.rs:45-48 | advancing the tail removes exactly the oldest byte |
| `ByteRing.StreamBuffer.AddByte` | kernel/src/task/serial_stream.rs:12-21 | the in-place ring follows the ring model |
| `ByteRing.StreamBuffer.Check` | kernel/src/task/mouse_stream.rs:25-27 | true exactly when a byte is waiting |
| `ByteRing.StreamBuffer.Take` | kernel/src/task/mouse_stream.rs:42-45 | returns and removes the oldest byte |
| `Wakeup.StepInv` | kernel/src/task/keyboard.rs:18-65 | every step of interrupt, poll or executor keeps each parked task covered: queued, or its waker stored with nothing to serve |
| `Wakeup.NoLostWakeup` | kernel/src/task/executor.rs:41-77 | in every interleaving, bytes from before the spawn included, a stream task that is not being polled and has a byte waiting is in the ready queue |
| `Wakeup.HaltsOnlyWhenIdle` | kernel/src/task/executor.rs:80-95 | whatever interrupts fire between the empty pop and the disabling of interrupts, the CPU halts only with an empty queue, every ring empty and every waker stored |
| `Wakeup.SecondLookCatchesByte` | kernel/src/task/executor.rs:83-94 | a byte arriving in that window queues its task and the second look at the queue sends the CPU back to it |
| `Wakeup.DeliveredInOrder` | kernel/src/task/keyboard.rs:42-65 | accepted bytes are the delivered ones followed by those in the ring: none lost, none twice, in order |
| `Wakeup.InterruptAccepts` | kernel/src/task/keyboard.rs:20-27 | an interrupt byte is accepted if and only if the ring is not full, and wakes a halted CPU |
| `Wakeup.PollServesByte` | kernel/src/task/keyboard.rs:45-49 | a poll that finds a byte hands out exactly the oldest one and polls again |
| `Wakeup.PopPolls` | kernel/src/task/executor.rs:51-65 | a pop begins the poll of a live task, stream or not, drops the id of a dead one, and changes nothing else |
| `Wakeup.LeavesIff` | kernel/src/task/executor.rs:65-71 | a task leaves the executor if and only if its own poll finishes |
| `Wakeup.StepRank` | kernel/src/task/executor.rs:51-57 | a queued task keeps its place except that each pop moves it forward by one, and is polled when its turn comes |
| `Wakeup.BoundedWait` | kernel/src/task/executor.rs:51-65 | any live queued task is polled before the executor makes more pops than stood ahead of it |
| `Wakeup.SelfWakePolledAgain` | kernel/src/task/executor.rs:115-119 | a task that wakes itself in its poll is polled again before more pops than the queue was long, and one |
| `Wakeup.PanicsIff` | kernel/src/task/executor.rs:115-119 | the run ends in the panic if and only if something is pushed on a queue of 100 |
| `Wakeup.PollParks` | kernel/src/task/keyboard.rs:42-65 | an undisturbed poll of an empty ring stores the waker and returns, changing nothing else |
| `Wakeup.RacedRegistration` | kernel/src/task/keyboard.rs:53-53 | an interrupt during the registration queues the task at its end and leaves no waker behind |
| `Wakeup.InterruptWakes` | kernel/src/task/keyboard.rs:18-30 | an interrupt takes a stored waker and queues its task, marks a registration under way, and otherwise leaves the queue alone |
| `Wakeup.TimerResumes` | kernel/src/task/executor.rs:87-90 | any other interrupt only ends a halt |
| `Wakeup.LateByteServed` | kernel/src/task/keyboard.rs:55-60 | a byte found by the second check is handed out after the waker has been taken back |
| `Wakeup.StepWork` | kernel/src/task/keyboard.rs:42-65 | every pop and every step of a stream's own poll brings a waiting byte one unit of work closer to its consumer, and no interrupt or other task sets it back |
| `Wakeup.BytesDelivered` | kernel/src/task/executor.rs:41-77 | under any interleaving the bytes that have arrived are handed out, in order, once that many pops and own poll steps have been made |
| `Wakeup.WorkBound` | kernel/src/task/keyboard.rs:42-65 | that number is at most three per byte plus the length of the ready queue and three |
| `BitmapAllocator.SetBitOf` | kernel/src/allocator/mict_global_allocator.rs:34-42 | changing one bit of one heatmap byte changes exactly one block's bit |
| `BitmapAllocator.LowestFit` | kernel/src/allocator/mict_global_allocator.rs:67-92 | the reference search: the lowest aligned start of a large enough free run, none only if there is none |
| `BitmapAllocator.LowestAddress` | kernel/src/allocator/mict_global_allocator.rs:53-94 | the same search in addresses and bytes, for every power-of-two alignment in an aligned heap |
| `BitmapAllocator.AlignedBlockIff` | kernel/src/allocator/mict_global_allocator.rs:61-65 | the block step found for an alignment selects exactly the blocks with aligned addresses |
| `BitmapAllocator.BitLayout` | kernel/src/allocator/mict_global_allocator.rs:45-49 | block i's bit is bit i mod 8 of byte i div 8 |
| `BitmapAllocator.BlocksCover` | kernel/src/allocator/mict_global_allocator.rs:58-58 | the blocks of a request cover its bytes and one block less would not |
| `BitmapAllocator.MictGlobalAllocator.SetBit` | kernel/src/allocator/mict_global_allocator.rs:34-42 | sets one block's bit and no other |
| `BitmapAllocator.MictGlobalAllocator.IsHot` | kernel/src/allocator/mict_global_allocator.rs:45-49 | reads one block's bit |
| `BitmapAllocator.MictGlobalAllocator.Scan` | kernel/src/allocator/mict_global_allocator.rs:67-92 | the single pass with alignment skipping finds exactly what the reference search finds, and runs off the heatmap exactly when nothing fits and some aligned start has only free bits to its end |
| `BitmapAllocator.MictGlobalAllocator.constructor` | kernel/src/allocator/mict_global_allocator.rs:18-32 | a new allocator has every bit cold and nothing live, which is exact |
| `BitmapAllocator.MictGlobalAllocator.Claim` | kernel/src/allocator/mict_global_allocator.rs:81-83 | makes exactly a fitting range hot and live, keeping bits and live ranges in agreement |
| `BitmapAllocator.MictGlobalAllocator.Alloc` | kernel/src/allocator/mict_global_allocator.rs:53-94 | one step of the heap model; in an aligned heap the answer is the lowest address that is on a block, a multiple of the alignment and followed by enough cold blocks in reach, and none only if there is none; bits and live ranges keep agreeing |
| `BitmapAllocator.MictGlobalAllocator.ClearBits` | kernel/src/allocator/mict_global_allocator.rs:110-112 | clears the range up to the end of the heatmap, where it panics |
| `BitmapAllocator.MictGlobalAllocator.Dealloc` | kernel/src/allocator/mict_global_allocator.rs:96-114 | panics outside the heap or off the heatmap, never for a live pointer with its own size, whose grant it takes back as the heap model does, keeping bits and live ranges in agreement |
| `BitmapAllocator.ServeExact` | kernel/src/allocator/mict_global_allocator.rs:53-115 | every request keeps the hot bits exactly the disjoint union of the live ranges |
| `BitmapAllocator.EveryRunIsExact` | kernel/src/allocator/mict_global_allocator.rs:53-115 | in every run of allocations and matching frees from a new heap the hot bits are exactly the disjoint union of the live ranges, each in the heap and block-aligned as asked |
| `BitmapAllocator.LiveAddressesAligned` | kernel/src/allocator/mict_global_allocator.rs:61-86 | every live address in an aligned heap has the alignment it was requested with |
| `BitmapAllocator.LiveBytesDisjoint` | kernel/src/allocator/mict_global_allocator.rs:81-86 | live byte ranges lie in the heap and do not overlap |
| `BitmapAllocator.AddressFindsStart` | kernel/src/allocator/mict_global_allocator.rs:106-107 | dealloc finds the start block of every address alloc hands out |
| `BitmapAllocator.MatchedStart` | kernel/src/allocator/mict_global_allocator.rs:102-112 | a live pointer with its own size is in the heap and in range, and clearing it keeps the heap exact |
| `BitmapAllocator.FreeUndoesAllocate` | kernel/src/allocator/mict_global_allocator.rs:106-112 | freeing an allocation restores every bit and the record |
| `BitmapAllocator.ShippedSizesRunOff` | kernel/src/allocator.rs:20-20 | in the 64 MiB heap with 500,000 bits the scan can run off the heatmap if and only if the alignment is at most 32 MiB or nothing is allocated |
| `BitmapAllocator.ShippedNullIff` | kernel/src/allocator/mict_global_allocator.rs:67-92 | in that heap null is returned if and only if nothing fits, the alignment exceeds 32 MiB and something is allocated; every other failure is a panic |
| `BitmapAllocator.BigRequestPanics` | kernel/src/allocator/mict_global_allocator.rs:67-92 | on the empty 64 MiB heap every request above 32,000,000 bytes panics |
| `BitmapAllocator.ShippedAlignedIff` | kernel/src/allocator.rs:19-19 | with the shipped heap start an address handed out is aligned as asked if and only if the alignment is at most 256 KiB |
| `Arith.RoundUpBounds` | kernel/src/allocator/linked_list.rs:92-92 | rounding up gives the least multiple that is not below the address |
| `LinkedListAllocator.SizeAlignFits` | kernel/src/allocator/linked_list.rs:115-122 | the adjusted layout is no smaller than asked, can hold a node and keeps node alignment |
| `LinkedListAllocator.SizeAlignLeast` | kernel/src/allocator/linked_list.rs:115-122 | and is the least such layout: alignment at least 8, size at least 16 and otherwise the least multiple of the alignment |
| `LinkedListAllocator.RegionServesIff` | kernel/src/allocator/linked_list.rs:91-109 | a region serves a request if and only if the lowest aligned block in it fits and leaves no rest too small for a node |
| `LinkedListAllocator.FirstSuitable` | kernel/src/allocator/linked_list.rs:67-86 | the first region of the list that can serve the request, the length of the list if there is none |
| `LinkedListAllocator.AllocOutcome` | kernel/src/allocator/linked_list.rs:66-143 | an allocation cuts the lowest aligned block out of the first region of the list that serves it and puts the rest in front of the list |
| `LinkedListAllocator.AllocRefused` | kernel/src/allocator/linked_list.rs:66-143 | without such a region the heap stays as it is |
| `LinkedListAllocator.CutKeepsHeap` | kernel/src/allocator/linked_list.rs:91-109 | cutting an aligned block out of a free region keeps free and live regions disjoint and usable and accounts for every byte |
| `LinkedListAllocator.AllocKeepsHeap` | kernel/src/allocator/linked_list.rs:126-143 | an allocation keeps the heap invariant |
| `LinkedListAllocator.FreeKeepsHeap` | kernel/src/allocator/linked_list.rs:145-150 | a matching free keeps the heap invariant |
| `LinkedListAllocator.EveryRunKeepsHeap` | kernel/src/allocator/linked_list.rs:125-151 | for every sequence of allocations and matching frees, free and live regions are pairwise disjoint, every free region can hold its node, and heap bytes equal free plus live plus lost front padding |
| `LinkedListAllocator.ChainUnlink` | kernel/src/allocator/linked_list.rs:73-77 | redirecting the predecessor removes exactly one region from the list in memory |
| `LinkedListAllocator.Allocator.constructor` | kernel/src/allocator/linked_list.rs:41-45 | one free region, the whole heap |
| `LinkedListAllocator.Allocator.AddFreeRegion` | kernel/src/allocator/linked_list.rs:48-61 | the region is pushed on the front; its node lies inside it; the two asserts are its preconditions, met at every call |
| `LinkedListAllocator.Allocator.FindRegion` | kernel/src/allocator/linked_list.rs:67-86 | unlinks and returns the first suitable region; node writes land only in free regions |
| `LinkedListAllocator.Allocator.AllocSized` | kernel/src/allocator/linked_list.rs:131-142 | returns null exactly when no region suits; otherwise a new live block, the rest given back |
| `LinkedListAllocator.Allocator.Alloc` | kernel/src/allocator/linked_list.rs:126-143 | a live block at least as large and as aligned as asked; node writes land only in memory that was free |
| `LinkedListAllocator.Allocator.Dealloc` | kernel/src/allocator/linked_list.rs:145-150 | the block becomes the first free region; node writes land only in it |
| `E1000Rx.CardRoom` | kernel/src/e1000.rs:184-185 | head and tail meet exactly when 31 slots are out of the card's hands |
| `E1000Rx.RunInv` | kernel/src/e1000.rs:333-365 | the ring invariant holds in every interleaving of card and driver steps |
| `E1000Rx.ReceiveInOrder` | kernel/src/e1000.rs:333-365 | packets are delivered exactly once and in order, between polls RDT is rx_index minus 1 mod 32, and the slice handed out last is not overwritten |
| `E1000Rx.PollDelivers` | kernel/src/e1000.rs:341-361 | a poll delivers the oldest waiting packet if there is one and changes nothing otherwise |
| `E1000Rx.E1000Driver.constructor` | kernel/src/e1000.rs:171-202 | the ring starts with head 0, tail 31 and no descriptor done |
| `E1000Rx.E1000Driver.CardStores` | kernel/src/e1000.rs:184-185 | the card stores a packet exactly while fewer than 31 packets wait to be handed out |
| `E1000Rx.E1000Driver.PollReceive` | kernel/src/e1000.rs:333-365 | returns the oldest packet not yet handed out |
| `Checksum.FoldIsResidue` | kernel/src/e1000.rs:87-90 | folding terminates at the residue modulo 65535, with 65535 for non-zero multiples |
| `Checksum.CalculateChecksum` | kernel/src/e1000.rs:77-92 | the complement of that residue of the word sum, unless the u32 accumulator overflows |
| `Checksum.AccumulatorRoom` | kernel/src/e1000.rs:78-86 | the accumulator is large enough for all data of a length if and only if the length is at most 131,074 bytes |
| `Checksum.RfcExample` | kernel/src/e1000.rs:77-92 | the worked example of section 3 of RFC 1071 |
| `Checksum.WordChecksum` | kernel/src/e1000.rs:81-84 | the high-order byte of a word comes first |
| `Checksum.SumOfParts` | kernel/src/e1000.rs:80-86 | the sums of even-length data and of what follows add up |
| `Checksum.OddPadding` | kernel/src/e1000.rs:82-82 | a zero byte after odd-length data changes nothing |
| `Checksum.FilledFieldVerifies` | kernel/src/e1000.rs:235-253 | writing the checksum into its zeroed even-offset field makes the recomputed checksum zero for all data |
| `Checksum.OneWordChangeNoticed` | kernel/src/e1000.rs:77-92 | changing one word of a block that verifies is noticed, except exchanging 0x0000 and 0xFFFF in a block that does not become all zero |
| `VirtQueue.FreeCount` | kernel/src/virtio_gpu.rs:341-344 | over every run each unreclaimed failure costs two descriptors and nothing else changes how many are free; without failures the free set is the initial one |
| `VirtQueue.FlushReorders` | kernel/src/virtio_gpu.rs:652-658 | a flush only reorders the free list |
| `VirtQueue.SlotSurvivesWrap` | kernel/src/virtio_gpu.rs:302-306 | the 16-bit index still selects slot k mod 64 |
| `VirtQueue.PublishHolds` | kernel/src/virtio_gpu.rs:302-306 | publishing keeps the last 64 heads in their slots |
| `VirtQueue.VirtQueue.constructor` | kernel/src/virtqueue.rs:67-82 | 64 links from free_head visit all 64 descriptors in order |
| `VirtQueue.VirtQueue.Publish` | kernel/src/virtio_gpu.rs:302-306 | the k-th published head lands in slot k mod 64 for every k |
| `VirtQueue.VirtQueue.PopPair` | kernel/src/virtio_gpu.rs:284-299 | the first two free descriptors carry the command and its reply envelope; the rest stay on the free list |
| `VirtQueue.VirtQueue.ReclaimPair` | kernel/src/virtio_gpu.rs:342-344 | the pair is back in front of the free list and unchanged as the device sees it |
| `VirtQueue.VirtQueue.SendCommand` | kernel/src/virtio_gpu.rs:380-425 | the device reads exactly command and reply; the free list is restored on success |
| `VirtQueue.VirtQueue.FlushToScreen` | kernel/src/virtio_gpu.rs:572-659 | both chains read the same after the blind reclaim; the frame is dropped exactly when fewer than four descriptors are free |
| `Windows.AnimationStaysBetween` | kernel/src/splat.rs:147-164 | animated geometry lies between start and target, and the last of 15 ticks puts it on the target |
| `Windows.EaseFactors` | kernel/src/splat.rs:150-150 | the percentages of the way after each of the 15 ticks |
| `Windows.EasedPlace` | kernel/src/splat.rs:152-155 | a coordinate has covered that percentage of its way, rounded toward its start |
| `Windows.AnimationTick` | kernel/src/splat.rs:152-155 | every tick but the last puts width, height and both coordinates there |
| `Windows.DepthApproaches` | kernel/src/splat.rs:139-146 | depth moves strictly closer to its target and never past it |
| `Windows.DepthStep` | kernel/src/splat.rs:139-146 | each tick covers a quarter of the way, rounded down, and the rest once it is below 5 |
| `Windows.DepthArrives` | kernel/src/splat.rs:139-146 | with a fixed target the depth arrives within as many ticks as it is units away, and stays |
| `Windows.DepthFrame` | kernel/src/splat.rs:684-692 | one frame with any input moves a window's depth one step toward 0 if it is on top when the targets are set, toward 300 otherwise |
| `Windows.DepthArrivesInRun` | kernel/src/splat.rs:139-146 | over whole runs, a window in front for as many frames as it is units away ends at depth 0, one behind for long enough at depth 300 |
| `Windows.TransitionEnds` | kernel/src/splat.rs:147-164 | a transition advances one step per tick and after its last tick is stable on its target |
| `Windows.MaximizeThenRestore` | kernel/src/splat.rs:210-231 | maximizing a floating window and restoring it brings its geometry back |
| `Windows.RenderInv` | kernel/src/splat.rs:601-707 | every frame with any input, drags included, keeps ids distinct and below the counter, no dead window listed and every animated window between its start and its target |
| `Windows.OnlyFinishedClosingRemoved` | kernel/src/splat.rs:565-573 | a window disappears in a frame if and only if it is closing and in its last tick |
| `Windows.ClosingCountdown` | kernel/src/splat.rs:201-208 | whatever the input, a closing window advances by one tick per frame, is removed when it has none left and does not come back |
| `Windows.CloseButtonRemoves` | kernel/src/splat.rs:623-629 | clicking the close button of the topmost window reached removes it in the 15th frame and not before, whatever the later input |
| `Windows.HeldTitleBarStaysPut` | kernel/src/splat.rs:645-652 | a click on a title bar leaves its window where it is in that frame, because the offset is taken anew each time |
| `Windows.HeldInput` | kernel/src/splat.rs:645-703 | with a drag in progress the window the click reaches comes to the top and is under the cursor if and only if its title bar is not gripped anew; otherwise it has not moved |
| `Windows.HeldFrame` | kernel/src/splat.rs:601-707 | after the whole frame the held window is gone if it has just finished closing, and otherwise on top, under the cursor if and only if it rests and is not gripped anew or its animation leads there |
| `Windows.DragFollowsIff` | kernel/src/splat.rs:694-703 | in every frame of a drag the dragged window follows the cursor if and only if the click reaches no other window first and it is not gripped anew or animated elsewhere; or, when the held window vanishes in that frame, if and only if that was another one and the uncovered window lies or is animated there by itself |
| `Windows.DragJumpsToOtherWindow` | kernel/src/splat.rs:656-703 | two frames in which a drag crosses another window, which is taken along instead of the dragged one |
| `Windows.FocusedState` | kernel/src/splat.rs:663-667 | focusing changes the order and the clicked window, nothing else |
| `Windows.SplatEngine.TickPhysics` | kernel/src/splat.rs:565-573 | advances every window and drops exactly the dead ones, in order |
| `Windows.TopHitIs` | kernel/src/splat.rs:614-660 | the window a click acts on is the topmost one it reaches |
| `Windows.ClickMeaning` | kernel/src/splat.rs:617-660 | where the three buttons, the title bar and the body of a resting window lie; an animated one has only a body |
| `Windows.ButtonsAct` | kernel/src/splat.rs:201-231 | what the buttons start: 15 ticks from the window's place to its launcher, its old place or the whole screen |
| `Windows.LaunchOpens` | kernel/src/splat.rs:668-678 | a click that reaches no window, outside a drag, opens one at the first launcher around the cursor |
| `Windows.NoLaunch` | kernel/src/splat.rs:668-678 | without a launcher under the cursor, or in a drag, such a click changes nothing |
| `Windows.LaunchSettles` | kernel/src/splat.rs:672-672 | after 15 ticks the new window rests, 800 by 600, around its launcher |
| `Windows.DraggingIff` | kernel/src/splat.rs:645-681 | a drag begins with a click on a title bar and lasts as long as the button is held |
| `Windows.ReleasedKeepsPlaces` | kernel/src/splat.rs:679-681 | without a click the input phase moves no window and keeps their order |
| `Windows.SplatEngine.FindHit` | kernel/src/splat.rs:614-660 | the loop from the top window down finds that window, or none |
| `Windows.SplatEngine.ApplyClick` | kernel/src/splat.rs:614-678 | that window is changed as its button says and moved to the top; otherwise the first launcher hit spawns a window |
| `Windows.SplatEngine.RenderDesktop` | kernel/src/splat.rs:601-707 | one frame follows the desktop model and keeps its invariant |
| `Frames.FrameIsUsable` | kernel/src/memory.rs:61-71 | with page-aligned regions every frame lies wholly in a usable region |
| `Frames.RegionListsIff` | kernel/src/memory.rs:61-71 | a region contributes exactly the frames around its every 4096th byte, if it is usable |
| `Frames.EveryFrameIsListed` | kernel/src/memory.rs:61-71 | every frame inside a usable region of an aligned map is listed |
| `Frames.FramesAreDistinct` | kernel/src/memory.rs:61-71 | with page-aligned disjoint regions no frame is listed twice |
| `Frames.RunLeftIs` | kernel/src/memory.rs:61-71 | from any position the frame list runs on back to back for exactly the frames left in its region and in the regions adjoining it in map order |
| `Frames.ContiguousIff` | kernel/src/memory.rs:121-149 | a request is contiguous if and only if it stays within that run; in particular whenever the region of its first frame has enough frames left |
| `Frames.BootInfoFrameAllocator.AllocateFrame` | kernel/src/memory.rs:75-79 | hands out the frame list in order, each position once |
| `Frames.BootInfoFrameAllocator.AllocateDmaFrames` | kernel/src/memory.rs:121-149 | reserves that many successive frames and returns the first, contiguous on exactly that condition, or fails exactly when the list is too short, having used up what was left |

## Left out

- Mft.RoundTripIff: stated for the ASCII reading only; its only-if half does not hold of UTF-8 names beyond ASCII.
- Non-ASCII table blocks: a block with a byte above 127 is read as no text; UTF-8 decoding of such blocks is not modelled.
- Mfs.SaveFile: an overflow of the 64-bit block address stops it before the first write, where the code would panic in the middle of the loop.
- Mfs.ReadFileFrom: the reservation of the result's capacity is not modelled, so a huge block count is not rejected; a block address overflow is an error instead of a panic.
- Nvme.NvmeController.SubmitIoCmd: memory ordering, command identifiers and the admin queue are not modelled; the device answers one command at a time because the driver never has two in flight.
- Wakeup.StepInv: executor and poll loops are steps over values, not loops over objects, because interrupts interleave with them; a full ready queue ends the run as the panic does; AtomicWaker is modelled from its documented behaviour.
- BitmapAllocator.MictGlobalAllocator.SetBit: atomic byte operations are plain ones, since allocator and interrupts are locked out of each other.
- LinkedListAllocator.Allocator.Alloc: memory is seen only through its list nodes; the layout adjustment does not fail on sizes near the word limit.
- E1000Rx.E1000Driver.PollReceive: descriptor lengths are the lengths of the packets; the transmit ring is not modelled, all its descriptors share one staging buffer.
- VirtQueue.VirtQueue.SendCommand: the used ring is one answer; an exhausted queue is reported before the free head moves.
- VirtQueue.VirtQueue.FlushToScreen: nothing is claimed about when the device reads the reclaimed descriptors, or about the overlapping reply envelopes.
- Windows.SplatEngine.RenderDesktop: windows are held by value; drawing, text and splat clouds are left out, and 32-bit overflow of coordinates and of the instance counter is not modelled; the desktop has at least one launcher, as the start-up code ensures.
- Frames.BootInfoFrameAllocator.AllocateDmaFrames: the zeroing of the memory itself is not modelled.
- MMIO registers, port I/O, interrupt tables, paging, PCI scanning and the VirtIO handshake: hardware plumbing.
- Pixel rendering, fonts, terminal commands, keyboard layouts, serial and VGA output: user interface.
- splat_1.rs, virtio_net.rs, bump.rs, fixed_size_block.rs and simple_executor.rs: superseded or only easier copies.
