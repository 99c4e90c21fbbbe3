# mateOS in Dafny

A Dafny model of the parts of mateOS where a mistake costs most: the tool chain that builds programs on
the machine itself (the assembler `as86`, the linker `ld86` and the kernel's ELF loader), the FAT16 file
system, the kernel heap, the scheduler, and four smaller pieces (pipes, the kernel log, path resolution,
64-bit division). `dafny verify dfyconfig.toml` checks everything.

The main results are about whole programs, whole runs and every reachable state:

* **Tool chain.** What the assembler emits for an instruction is, to the processor, that instruction,
  exactly when its operand widths are ones the assembler honours. Every program that both output formats
  accept and in which no instruction changes size between the passes has the same bytes whether it is
  assembled flat or assembled to an object, linked alone at its origin and loaded. When the passes agree
  is stated as an if-and-only-if. Every REL relocation of an ELF input is applied as the System V ABI for
  Intel386 defines it, with S, A and P given in terms of the object file.
* **FAT16.** Any sequence of reads, writes, seeks and shrinking truncations through a handle is a run of a
  plain byte sequence with a position, while chains never share a cluster, no cluster leaks, all copies
  of the table stay equal and the sector cache never shows. When a growing truncation appends zeros and
  leaves other files alone is stated as an if-and-only-if.
* **Heap.** `malloc` and `free` change exactly one live block; live blocks never overlap each other or a
  header; both counters count; `malloc` fails only when no stretch of any block is long enough and the
  heap cannot grow.
* **Scheduler.** In every reachable state the `next` links form one ring, ids are unique and nobody waits
  for a task that has gone; a waiter is woken by exactly the step that ends its wait; an exit code stays
  with its id; a ready task on the ring is passed over at most 14 times.

## How the model is built

| files | source | form |
|---|---|---|
| `AsSyntax`, `AsEncodeProofs`, `AsRun`, `AsPasses`, `AsObject`, `AsLink`, `AsMachine`, `AsDecode`, `AsListing` | `userland/as86.c` | encoding as functions, an instruction decoder written from the processor's manual, the assembler as a class proved against functions on its context |
| `Patching`, `Ld86`, `LdLayout`, `LdElf` | `userland/ld86.c` | resolution and layout as functions, image patching on an array |
| `Pmm`, `Loader`, `Toolchain` | `src/proc/pmm.c`, `src/syscall.c` | classes over frames and an address space |
| `FatSectors`, `FatVolume`, `FatChains`, `FatBytes`, `FatCore`, `FatFiles`, `FatFs`, `FatGrow`, `FatFormat` | `src/fs/fat16.c` | classes `Volume` and `FileSystem`; lemmas on chains |
| `HeapLists`, `HeapBlocks`, `Liballoc` | `src/liballoc/` | class `Allocator` over address-indexed records |
| `Tasks`, `TaskProofs`, `TaskRuns`, `TaskCodes`, `Scheduler` | `src/proc/task.c`, `src/syscall.c` | a state machine, and class `Kernel` refining it |
| `Pipes`, `KLog`, `Paths`, `Division` | `src/utils/kring.c`, `src/fs/pipe.c`, `src/lib.c`, `src/fs/vfs.c`, `userland/tinycc/tcc_builtins.c` | classes and loops over arrays |
| `Words` | | bytes, 32-bit words, products as repeated sums |

Unsigned arithmetic that can pass 2^32 is written out (`U32`, `Add32`, `S32`); an access outside a buffer
is the outcome `Stray` of an `Attempt`. Failing allocations are parameters.

## Findings

Properties the code does not have. Each has a member at a concrete input, and the exact condition under
which the code does have it.

| property | fails at | holds exactly when |
|---|---|---|
| pass 2 emits what pass 1 sized | `push a` before `a:` at origin 0 (`Toolchain.NarrowingMovesLabels`) | no instruction narrows, judged by pass 1's table and origin (`AsPasses.PassesAgreeExactly`, `AsLengths.EncodeLength`) |
| the processor reads the instruction written | `mov ah, 1` loads ESP (`AsMeaning.ByteMoveLoadsWord`), `cbw` extends AX to EAX (`AsMeaning.CbwExtendsWord`) | the operand widths are ones the form can express, `AsMeaning.KeepsWidths` (`AsMeaning.EncodeSays`, `AsListing.FlatReads`) |
| an object links to the flat bytes | `section .bss`, `a:`, `dd a` (`Toolchain.BssObjectRefused`) | no relocation lies in `.bss` (`AsLink.ObjectLinksToFlat`) |
| ELF sections are laid out one after the other | three read-only sections of 8, 2^32 - 8 and 8 bytes (`LdLayout.LayoutWraps`) | sections and padding need less than 2^32 bytes (`LdLayout.LayoutExact`) |
| a section is as aligned in the payload as it asks to be | one byte of code before a word of data (`LdLayout.Misaligned`) | its kind starts at a multiple of the alignment (`LdLayout.AlignedExactly`) |
| no two linked objects share memory | a variable in the `.bss` of the first of two objects (`Ld86.BssUnderNext`) | only the last object that takes up memory has a `.bss` (`Ld86.MemoryExact`) |
| a relocation writes into its own input | offset 2^32 - 4 (`Ld86.PlaceWraps`) | its place plus four stays below 2^32 (`Ld86.RelWriteExact`) |
| the frame search stays among the frames | one frame more than there are (`Pmm.OneTooMany`) | `count` is at most the number of frames (`Pmm.FrameAllocator.AllocFrames`) |
| a file grows by zeros, at no other file's cost | growing by one byte a file in clusters 2 and 3 clears a byte of cluster 4 (`FatGrow.ClearsNeighbour`) | the file ends in its first cluster or with a cluster (`FatGrow.GrowthExact`, `FatGrow.GrownView`) |
| a grown file has the clusters its size needs | a length of 2^32 - 1 (`FatGrow.NeedWraps`) | the length plus a cluster less one stays below 2^32 (`FatGrow.NeedExact`) |
| a seek lands where its sum says | 40 bytes in, forward by 2^31 - 1 (`FatFs.SeekWraps`) | the sum is below 2^31 (`FatFs.SeekExact`) |
| a grant of heap pages is inside the heap | a request for 1 GiB (`Liballoc.AskWraps`) | `Liballoc.InRange` (`Liballoc.AskExact`); a block fits its minor when the size plus 32 does not wrap (`Liballoc.BlockFits`) |
| every slot in use is on the ring | a user task whose descriptor table cannot be had (`TaskRuns.StrandedTask`) | the step is not that one (`TaskRuns.LinkedExact`); the slot then never runs again (`TaskRuns.StrandedForever`) |
| a spawn keeps the task table sound | a run from boot with 2^32 spawns (`TaskRuns.IdCounterWraps`) | it takes no slot, or the next id is nonzero and in no other slot (`TaskProofs.SpawnExact`) |
| a wait that blocked answers its target's exit code | a run of ten steps from boot, the slot being taken again in between (`TaskCodes.StaleAnswer`) | holds while the slot still has the id (`TaskCodes.ResumedAnswer`) |
| resolving in two steps is resolving in one | a 58-character name, `..` and `y` (`PathLaws.CutBreaksComposition`) | holds when the whole path has at most 63 characters (`PathLaws.ResolveComposes`) |

## Model

| member | source | states |
|---|---|---|
| `ModRmDecode.RmRoundTrip` | userland/as86.c:544-608 | every ModR/M operand the assembler fills in itself decodes, by the processor's own table, to the register field, base and displacement given, and to the number of bytes emitted |
| `ModRmDecode.BasedRoundTrip` | userland/as86.c:544-608 | the same for `[base + disp]` with the shortest displacement, including ESP and EBP as base |
| `ModRmDecode.LabelledRoundTrip` | userland/as86.c:544-608 | the same for `[disp32]` and `[label + disp]` |
| `AsMeaning.EncodeSays` | userland/as86.c:710-1070 | for every accepted instruction, in every pass, with the values the assembler uses for its labels: the processor, by the manual's opcode tables, reads exactly these bytes as one instruction whatever follows, and its operation, its operands in order with their widths, its immediate and its branch target are those written if and only if the widths are honoured |
| `AsMeaning.ByteMoveLoadsWord` | userland/as86.c:866-873 | an immediate move to a byte register is encoded as one to the 32-bit register of that number |
| `AsMeaning.CbwExtendsWord` | userland/as86.c:723-724 | `cbw` is emitted without the prefix that makes it one |
| `AsListing.FlatReads` | userland/as86.c:1364-1469 | in a stable flat program every instruction, read from the output at the address the assembler gave it, is the one written, under the same condition |
| `AsDirectives.AlignReaches` | userland/as86.c:1250-1262 | `align n` brings the section's counter to the next multiple of n with fewer than n zero bytes |
| `AsDirectives.DataStores` | userland/as86.c:1072-1130 | `db`, `dw` and `dd` store a number or a label's address, lowest byte first, in that many bytes, and a string as its bytes |
| `AsDirectives.ItemsEmit` | userland/as86.c:1335-1346 | a flat data statement emits its items in order and changes nothing else |
| `AsDirectives.TimesRepeats` | userland/as86.c:1279-1333 | `times n` emits n copies of its item |
| `AsDirectives.ReserveTakes` | userland/as86.c:1264-1277 | reserved space is that many zero bytes |
| `AsDirectives.ExportsExactly` | userland/as86.c:305-316 | a label of the object is exported to the linker if and only if it is defined and declared global |
| `AsLengths.EncodeLength` | userland/as86.c:710-1070 | an accepted instruction has the size pass 1 reserves if and only if it is not one of the three forms that shrink when a label's value is small |
| `AsLengths.PassOneWide` | userland/as86.c:526-542 | with the pass-1 placeholder nothing shrinks |
| `AsPasses.PassesInStep` | userland/as86.c:1364-1391 | before every statement of a program in which nothing narrows both passes stand at the same four counters and pass 2 still has pass 1's table |
| `AsPasses.PassesAgreeExactly` | userland/as86.c:1393-1469 | the passes stand at the same counters all along if and only if no instruction narrows, which pass 1 decides |
| `AsPasses.PassAgreement` | userland/as86.c:1393-1469 | then every section holds exactly the bytes it was sized for, at the bases laid out |
| `AsPasses.OrgKept` | userland/as86.c:1233-1248 | pass 2 ends with the origin pass 1 ended with |
| `AsPasses.LabelAddressesItsBytes` | userland/as86.c:341-355 | the label's address is where pass 2 stands at its definition, and the flat output there is what is emitted after it |
| `AsObject.EncodeMatches` | userland/as86.c:710-1070 | an instruction encoded for an object and then patched with the final label addresses is the instruction encoded flat |
| `AsObject.DataMatches` | userland/as86.c:1072-1130 | the same for one item of `db`, `dw` or `dd` |
| `AsLink.RunTwins` | userland/as86.c:1364-1391 | flat and object pass 2 run in step: same counters and table, and the recorded relocations turn each object section into the flat one |
| `AsLink.ObjectLinksToFlat` | userland/ld86.c:1048-1084 | linking the object alone at its origin never leaves the image, succeeds if and only if no relocation lies in `.bss`, and gives the text, rodata and data part of the flat output |
| `AsMachine.Assembler.GetLabelIndex` | userland/as86.c:290-303 | finds the first entry of that name, or appends one unless the table is full |
| `AsMachine.Assembler.RecordReloc` | userland/as86.c:317-339 | refuses when either table is full, records only in pass 2 of object mode |
| `AsMachine.Assembler.DefineHere` | userland/as86.c:341-355 | defines the label at the current counter; a second definition is an error in pass 1 only |
| `AsMachine.Assembler.EmitBytes` | userland/as86.c:377-403 | counts bytes in the current section and stores them in pass 2 |
| `AsMachine.Assembler.EmitData` | userland/as86.c:1335-1346 | the item loop is the fold over its items, failing where the first item fails |
| `AsMachine.Assembler.ProcessStmt` | userland/as86.c:1132-1362 | one statement takes the context to its specified successor or fails |
| `AsMachine.Assembler.RunLines` | userland/as86.c:1364-1391 | a pass is the fold of its statements, stopping at the first failure |
| `AsMachine.Assembler.AssembleProgram` | userland/as86.c:1393-1469 | both passes with the layout between them, failing when either fails or nothing is encoded |
| `Ld86.FindExtern` | userland/ld86.c:788-851 | the export scan with its duplicate check, then the scan of all definitions, as a search for the first match |
| `Ld86.CopyPayloads` | userland/ld86.c:1041-1046 | the image is the payloads end to end |
| `Ld86.PatchOne` | userland/ld86.c:1053-1083 | one relocation changes exactly its four bytes, is refused, or leaves the image |
| `Ld86.LinkInputs` | userland/ld86.c:1032-1084 | the linked image is the payloads with every relocation applied in order; a refusal or stray write is the first one met |
| `Ld86.RelWriteExact` | userland/ld86.c:1059-1064 | a relocation carried out writes inside its own input if and only if its place plus four does not wrap; one leaves the image if and only if it passes the checks and its four bytes do not lie in the image |
| `Ld86.LinkStraysExactly` | userland/ld86.c:1041-1084 | a link leaves its image if and only if the payloads pass 2^32 together, or some relocation leaves it and none before is refused |
| `Ld86.PlaceWraps` | userland/ld86.c:1059-1064 | a relocation at 2^32 - 4 overwrites the input before, or leaves the image |
| `Ld86.LooseExactly` | userland/ld86.c:178-190 | names match if and only if they are equal or differ by one leading dollar sign |
| `Ld86.DefinesExactly` | userland/ld86.c:192-194 | the fallback matches a defined symbol, global or not, that is equal or differs by the only leading dollar sign |
| `Ld86.MemoryExact` | userland/ld86.c:1013-1016 | payloads and `.bss` areas of all inputs are disjoint if and only if only the last input that takes up memory has a `.bss` |
| `Ld86.BssUnderNext` | userland/ld86.c:1013-1016 | a `.bss` variable of one object is at the address of the next object's first byte |
| `LdLayout.AlignsPowers` | userland/ld86.c:275-277 | `align_up` aligns for every power of two |
| `LdLayout.AlignExact` | userland/ld86.c:275-277 | its 32-bit form is the wide one when that fits, and steps back otherwise |
| `LdLayout.LayoutExact` | userland/ld86.c:382-408 | sections follow each other inside their kind and kinds inside the payload if and only if sizes and padding stay below 2^32 |
| `LdLayout.SectionsDisjoint` | userland/ld86.c:382-408 | then no two sections share a byte, whatever their alignments |
| `LdLayout.OrderByFlags` | userland/ld86.c:338-348 | by the header flags: code before constants before writable data, each in file order, and sections without file bytes behind the payload |
| `LdLayout.AlignedExactly` | userland/ld86.c:382-405 | a section is aligned inside its kind, and in the payload if and only if its kind starts at a multiple |
| `LdLayout.Misaligned` | userland/ld86.c:399-405 | one byte of code moves a word of data to an odd place |
| `LdLayout.PayloadMeaning` | userland/ld86.c:414-441 | then only a truncated section is refused, and the payload holds every copied section at its place and zero elsewhere |
| `LdLayout.LayoutWraps` | userland/ld86.c:382-441 | otherwise one section can silently replace another |
| `LdLayout.LayoutSections` | userland/ld86.c:382-395 | the layout loop computes those offsets and sizes |
| `LdLayout.BuildPayload` | userland/ld86.c:414-441 | the copy loop, with both range checks |
| `LdElf.ReadElf` | userland/ld86.c:350-631 | payload, then relocations: the input the linker goes on with, or the first failure |
| `LdElf.ReadsInside` | userland/ld86.c:601-616 | in a layout that fits, every stored word read is in the payload |
| `LdElf.ElfSymbolAddress` | userland/ld86.c:509-524 | a symbol of an ELF input is defined for the linker exactly when it is in an allocated section, and its address is that section's place in the image plus `st_value`, modulo 2^32 |
| `LdElf.ExternMeaning` | userland/ld86.c:788-851 | an undefined reference goes to the first export of the only input that exports it; when none does, to the first definition; it is refused if and only if two inputs export the name or none defines it |
| `LdElf.RelocatedWord` | userland/ld86.c:1066-1082 | sites that do not overlap hold what their relocation computed |
| `LdElf.ElfRelocationMeaning` | userland/ld86.c:561-623 | every entry of every relocation table whose target is, by its header, allocated and not NOBITS leaves in the image S + A for type 1 and S + A - P for type 2, S being the address of the symbol the entry names and P that of the section's byte it points to; no other type is accepted |
| `LdElf.AppliesExactly` | userland/ld86.c:561-570 | the tables not skipped are those |
| `LdElf.SkippedTarget` | userland/ld86.c:529-536 | a table that is skipped names a section without bytes in the payload |
| `LdElf.OnlyEntries` | userland/ld86.c:580-616 | every relocation of an ELF input comes from such an entry, with its place and symbol |
| `LdElf.AddendInFile` | userland/ld86.c:601-616 | the word A is the one the file holds at that offset of the section |
| `LdElf.UntouchedBytes` | userland/ld86.c:1041-1084 | bytes no relocation covers are the payload's |
| `Pmm.FrameAllocator.AllocFrame` | src/proc/pmm.c:73-82 | the lowest free frame, at 8 MiB plus its number in pages, one more in use; 0 only when all are taken |
| `Pmm.FrameAllocator.FreeFrame` | src/proc/pmm.c:84-96 | frees exactly the frame at that address; other addresses change nothing |
| `Pmm.FrameAllocator.AllocFrames` | src/proc/pmm.c:98-118 | the first run of that many free frames; leaves the managed frames if and only if more are wanted than exist |
| `Pmm.LastStartExact` | src/proc/pmm.c:102 | when the unsigned bound of the search underflows |
| `Pmm.OneTooMany` | src/proc/pmm.c:98-118 | asking for one frame more than there are leaves the managed frames |
| `Pmm.FrameAllocator.FreeFrames` | src/proc/pmm.c:120-124 | for any address and count, frees exactly the frames at the addresses it walks over, modulo 2^32 |
| `Pmm.FrameAllocator.GetStats` | src/proc/pmm.c:126-139 | the counts add up |
| `Loader.AddressSpace.LoadSegment` | src/syscall.c:218-271 | page by page, memory becomes the segment's bytes over what was there; frames are fresh and distinct; fails only when no frame is free or the segment is rejected |
| `Loader.AddressSpace.LoadElf` | src/syscall.c:190-297 | memory is, at every address, the byte of the last segment covering it and zero elsewhere; every address of a segment is mapped, and the mapped pages are those that meet a segment and the sixteen of the stack; fails only when no frame is free or a segment is out of bounds |
| `Loader.AcceptedExactly` | src/syscall.c:202-215 | the unsigned checks accept exactly the segments inside the file and between user space and stack |
| `Loader.DisjointSegments` | src/syscall.c:190-271 | with disjoint segments every file byte is at its address |
| `Toolchain.AssembleLinkLoad` | userland/ld86.c:1086-1144 | assembled, linked alone and loaded, a program is in memory, from its origin on, the text, rodata and data of its flat assembly, then zeros, and its segment takes up exactly the addresses of the flat program |
| `Toolchain.LoadProgram` | src/syscall.c:190-297 | the same through the loader: every address of the flat program is mapped and holds its byte, or zero in `.bss`; it fails only without a free frame or outside user space |
| `Toolchain.NarrowingMovesLabels` | userland/as86.c:526-542 | the placeholder makes pass 1 count five bytes where pass 2 emits two |
| `Toolchain.BssObjectRefused` | userland/ld86.c:1053-1058 | a program with an address word in `.bss` is accepted by the assembler in both formats, nothing in it narrows, and the linker refuses its object |
| `FatVolume.MountIsSound` | src/fs/fat16.c:1918-1973 | what mount accepts did not wrap, its areas follow each other, the last cluster is inside the partition and no cluster number looks like an end mark |
| `FatVolume.MountPlaces` | src/fs/fat16.c:1936-1967 | where the tables, the root directory and every cluster lie, in terms of the boot sector's fields, and that the clusters fill the partition |
| `FatVolume.EntrySetMeaning` | src/fs/fat16.c:357-377 | an entry written in every copy changes that entry of the table alone, keeps the copies equal and the data untouched |
| `FatVolume.TableIsBytes` | src/fs/fat16.c:337-355 | the table is the bytes of its first copy read as words, low byte first |
| `FatVolume.DataWriteMeaning` | src/fs/fat16.c:332-335 | writing a data sector changes that sector of that cluster alone |
| `FatVolume.Volume.CacheGet` | src/fs/fat16.c:136-150 | returns what is on the disk |
| `FatVolume.Volume.GetEntry` | src/fs/fat16.c:346-355 | returns bytes 2c and 2c + 1 of the first copy of the table, low byte first, whatever is cached |
| `FatVolume.Volume.SetEntry` | src/fs/fat16.c:357-377 | changes exactly those two bytes in every copy and no sector outside the tables; the cache stays true |
| `FatCore.ClusterIsBytes` | src/fs/fat16.c:332-335 | a cluster's bytes are those of its own sectors, end to end |
| `FatCore.AllocCluster` | src/fs/fat16.c:379-403 | the lowest free cluster, marked as an end and zeroed; none only when the table has no free entry |
| `FatCore.FreeChain` | src/fs/fat16.c:405-421 | frees exactly the clusters of the chain |
| `FatCore.ReadFile` | src/fs/fat16.c:857-936 | any stretch of a chain's bytes, whether read by cluster or by sector |
| `FatChains.OwnsAppend` | src/fs/fat16.c:423-453 | appending a free cluster keeps chains intact, unshared and exactly covering the used entries |
| `FatChains.OwnsCut` | src/fs/fat16.c:1802-1842 | so does cutting a chain and freeing its tail |
| `FatFiles.EnsureCluster` | src/fs/fat16.c:423-453 | the cluster for an index, grown by one zeroed cluster if needed; fails only on a full volume |
| `FatFiles.WriteClusters` | src/fs/fat16.c:1145-1172 | the bytes counted as written are in the file at their position, other files' bytes are unchanged, and it stops early only on a full volume |
| `FatFiles.Shrink` | src/fs/fat16.c:1802-1842 | keeps the clusters the new length needs and frees the rest |
| `FatFs.SeekExact` | src/fs/fat16.c:1199-1226 | a seek lands on the clamped sum if and only if the sum is below 2^31 |
| `FatFs.SeekWraps` | src/fs/fat16.c:1199-1226 | a large forward seek goes to the start |
| `FatFs.FileSystem.SizeBound` | src/fs/fat16.c:1122-1188 | no file outgrows the data area |
| `FatFs.FileSystem.Read` | src/fs/fat16.c:1099-1120 | the file's bytes at the position, at most to the end; refused on a bad or write-only handle; no file changes |
| `FatFs.FileSystem.Write` | src/fs/fat16.c:1122-1188 | the first bytes of the buffer stored at the position or the end, size and position updated, other files unchanged; short only on a full volume |
| `FatFs.FileSystem.Seek` | src/fs/fat16.c:1199-1226 | the position moves inside the file, to the clamped sum exactly when that does not overflow |
| `FatFs.FileSystem.Close` | src/fs/fat16.c:1190-1197 | frees that handle |
| `FatFs.FileSystem.Truncate` | src/fs/fat16.c:1802-1846 | keeps the first bytes and pulls the position back |
| `FatFs.FileSystem.Open` | src/fs/fat16.c:942-1097 | which requests are refused, which file is created or emptied, and that the lowest free handle is taken |
| `FatFs.FileSystem.Unlink` | src/fs/fat16.c:1467-1496 | removes that file, and only files |
| `FatFs.FileSystem.Mkdir` | src/fs/fat16.c:1499-1562 | a new directory entry with a zeroed cluster of its own; fails for want of a free one |
| `FatFs.FileSystem.Rmdir` | src/fs/fat16.c:1565-1632 | removes a directory its scan found empty, and only a directory; the scan's answer is a parameter |
| `FatSession.Session` | src/fs/fat16.c:1099-1226 | any sequence of requests is a run of a byte sequence with a position, from the file as it was to the file as it is; each short write leaves a table without a free entry |
| `FatFormat.Formatted` | src/fs/fat16.c:1918-1973 | on every geometry the model admits, an empty volume is a sound file system without files |
| `FatFormat.SmallestVolume` | src/fs/fat16.c:1918-1973 | there is such a geometry, at the lower bound of 4085 clusters |
| `FatFormat.ReadBack` | src/fs/fat16.c:1099-1226 | what was written, sought back to and read is what was stored; less than the buffer only on a full volume |
| `FatGrow.ExtendTo` | src/fs/fat16.c:423-453 | for any index: the chain extended by zeroed clusters up to it, everything else kept; on a full volume what was appended stays |
| `FatGrow.Grow` | src/fs/fat16.c:1846-1893 | succeeds if and only if the chain and the free clusters together suffice; then the chain has the clusters computed, and cleared is the stretch behind the old end of the cluster whose number is the last one's plus its index |
| `FatGrow.NeedExact` | src/fs/fat16.c:1853-1854 | the cluster count is the one the length calls for if and only if its sum does not wrap; otherwise it is 1 |
| `FatGrow.NeedWraps` | src/fs/fat16.c:1853-1854 | a length of 2^32 - 1 asks for one cluster |
| `FatGrow.GrowthExact` | src/fs/fat16.c:1846-1893 | a file with a byte other than zero behind its end grows by zeros if and only if it ends in its first cluster or with a cluster |
| `FatGrow.GrownView` | src/fs/fat16.c:1846-1893 | in those cases growing appends zeros to that file, changes no other one and keeps chains and sizes sound |
| `FatGrow.ClearsNeighbour` | src/fs/fat16.c:1865-1892 | otherwise the last cluster keeps its stale bytes and another cluster loses bytes |
| `HeapLists.UnalignInverts` | src/liballoc/liballoc_1_1.c:20-44 | the mark before an aligned pointer leads back to its header |
| `HeapLists.RowInsert` | src/liballoc/liballoc_1_1.c:341-568 | linking a minor into a gap keeps the row ordered, disjoint and doubly linked |
| `HeapLists.RowRemove` | src/liballoc/liballoc_1_1.c:671-684 | so does unlinking one |
| `LiballocSteps.PlaceKeeps` | src/liballoc/liballoc_1_1.c:341-568 | placing a block keeps the whole heap, makes that block live and counts its bytes |
| `LiballocSteps.UnlinkKeeps` | src/liballoc/liballoc_1_1.c:671-684 | freeing one keeps the heap, makes only it dead and counts its bytes out |
| `Liballoc.AskExact` | src/liballoc/liballoc_1_1.c:185-235 | a grant is inside the heap and large enough, or refused, if and only if the request is in range |
| `Liballoc.AskWraps` | src/liballoc/liballoc_hooks.c:46-66 | one GiB is granted and the heap pointer ends below the heap |
| `Liballoc.BlockFits` | src/liballoc/liballoc_1_1.c:241-280 | a block fits its minor if and only if the alignment allowance does not wrap |
| `Liballoc.LivePlace` | src/liballoc/liballoc_1_1.c:20-44 | a live block is aligned, behind its header, inside its minor and its major |
| `Liballoc.LiveApart` | src/liballoc/liballoc_1_1.c:241-584 | no two live blocks share a byte |
| `Liballoc.LiveClearOfHeaders` | src/liballoc/liballoc_1_1.c:241-584 | no live block touches a header |
| `Liballoc.GapBound` | src/liballoc/liballoc_1_1.c:338-360 | no free stretch is longer than the bytes not in use, so skipping a full major loses nothing |
| `Liballoc.Allocator.Malloc` | src/liballoc/liballoc_1_1.c:241-584 | exactly one new live block of the size asked for; NULL only when no stretch of any major is long enough and no pages can be had |
| `Liballoc.Allocator.Free` | src/liballoc/liballoc_1_1.c:594-717 | exactly that block is no longer live; NULL changes nothing |
| `TaskProofs.SpawnKeeps` | src/proc/task.c:70-173 | creating a task with a fresh id keeps the invariant |
| `TaskProofs.SpawnExact` | src/proc/task.c:180-395 | creating a task goes well if and only if it takes no slot or the next id is nonzero and in no other slot |
| `TaskProofs.SomeoneReady` | src/proc/task.c:404-456 | the walk always finds a ready task |
| `TaskRuns.StepKeeps` | src/proc/task.c:404-554 | every step keeps the invariant |
| `TaskRuns.RunKeeps` | src/proc/task.c:404-554 | so does every run |
| `TaskRuns.EveryRun` | src/proc/task.c:37-68 | from boot, every run with fewer than 2^32 - 1 spawns keeps it, and the next id is fresh |
| `TaskRuns.WakesExactly` | src/proc/task.c:464-516 | a waiting task is woken by the step after which its target is terminated or detached and by no other; only being killed ends its wait otherwise |
| `TaskRuns.Fair` | src/proc/task.c:404-456 | a task on the ring that stays ready is passed over by at most 14 scheduling calls, whatever else happens |
| `TaskRuns.IdCounterWraps` | src/proc/task.c:70-173 | a run from boot reaches a state in which the second spawn puts a task with id 0 on the ring |
| `TaskRuns.LinkedExact` | src/proc/task.c:361-389 | every used slot stays on the ring unless a descriptor table could not be had for a slot never used |
| `TaskRuns.StrandedForever` | src/proc/task.c:361-389 | a used slot off the ring never runs again |
| `TaskRuns.StrandedTask` | src/proc/task.c:361-389 | such a slot, and a ready task in it |
| `TaskCodes.EndRecords` | src/proc/task.c:464-485 | ending a task records its code in its own slot, wakes those who wait for it and changes no other record |
| `TaskCodes.CodeKept` | src/proc/task.c:464-554 | in every later state of every run a slot that still has the ended task's id is terminated with its code, and waiting for it answers that code unless it had detached |
| `TaskCodes.ResumedAnswer` | src/syscall.c:577-590 | a wait that blocked answers that code when it resumes while the slot still has the id |
| `TaskCodes.StaleAnswer` | src/syscall.c:565-590 | a run from boot in which a waiter answers the exit code of a task it did not wait for |
| `TaskCodes.KernelEndsItself` | src/proc/task.c:533-554 | a kernel task is ended by nobody but itself |
| `TaskCodes.SpawnRecords` | src/proc/task.c:70-173 | a spawn makes one task of the kind asked for and changes no other record but the running task's link |
| `TaskCodes.WaitRecords` | src/syscall.c:565-581 | a wait blocks its caller for that id or changes nothing |
| `TaskCodes.DetachRecords` | src/syscall.c:548-562 | a detach marks its caller, wakes who waits for it and changes nothing else |
| `Scheduler.Kernel.Create` | src/proc/task.c:70-173 | refines the model's spawn, with the id returned |
| `Scheduler.Kernel.Terminate` | src/proc/task.c:464-516 | refines the model's end of a task |
| `Scheduler.Kernel.Kill` | src/proc/task.c:533-554 | refines the model's kill, with its three results |
| `Scheduler.Kernel.Wait` | src/syscall.c:565-581 | blocks exactly when the target stands, otherwise answers at once that there is none, that it detached, or its exit code |
| `Scheduler.Kernel.WaitResumes` | src/syscall.c:583-590 | the answer after the yield, from the slot found before it |
| `Scheduler.Kernel.Detach` | src/syscall.c:548-562 | refines the model's detach |
| `Scheduler.Kernel.Schedule` | src/proc/task.c:404-456 | refines the model's scheduling step and turns the ring |
| `KRings.KRing.Push` | src/utils/kring.c:19-30 | appends, or refuses when full |
| `KRings.KRing.Pop` | src/utils/kring.c:32-41 | takes the oldest byte, or refuses when empty |
| `KRings.KRing.Used` | src/utils/kring.c:49-55 | counts what is in the ring |
| `Pipes.Pipe.ReadSegment` | src/fs/pipe.c:122-146 | takes the oldest bytes, yields when empty, fails when the pipe is gone |
| `Pipes.Pipe.WriteSegment` | src/fs/pipe.c:148-169 | appends what fits, yields when full |
| `Pipes.Interleave` | src/fs/pipe.c:122-169 | over any interleaving of readers and writers every segment moves exactly the block its request, the ring and the state of the pipe give, and what was there and what was written is what was read and what is there, in order |
| `KLog.KernelLog.Commit` | src/lib.c:147-161 | the ring holds the last 1024 lines |
| `KLog.KernelLog.PutAll` | src/lib.c:163-173 | logging characters is feeding an unbounded log |
| `KLogText.LogIsText` | src/lib.c:147-173 | the log of a text is the text's lines without carriage returns, each cut at 159 characters, the last one pending |
| `KLog.KernelLog.SnapshotSize` | src/lib.c:251-260 | the length of the snapshot |
| `KLog.KernelLog.ReadBytes` | src/lib.c:262-302 | any slice of the snapshot |
| `KLog.KernelLog.ReadAll` | src/lib.c:262-302 | reading in chunks of any size rebuilds the snapshot |
| `PathLaws.ResolveNormal` | src/fs/vfs.c:137-207 | a resolved path is absolute and free of empty, `.` and `..` parts |
| `PathLaws.ResolveFixes` | src/fs/vfs.c:137-207 | a normal path resolves to itself from anywhere |
| `PathLaws.ResolveIdempotent` | src/fs/vfs.c:137-207 | resolving twice is resolving once |
| `PathLaws.ResolveComposes` | src/fs/vfs.c:137-207 | resolving `b` from where `a` resolves to is resolving `a/b`, when that fits the buffer |
| `PathLaws.CutBreaksComposition` | src/fs/vfs.c:137-207 | a path cut at 63 characters resolves elsewhere |
| `PathLaws.ResolveIsStack` | src/fs/vfs.c:137-207 | within buffer and depth, resolution is the plain stack of components |
| `Paths.ResolvePath` | src/fs/vfs.c:137-207 | the buffer code computes that resolution |
| `Division.ScaleUp` | userland/tinycc/tcc_builtins.c:3-15 | the divisor is shifted up without losing a bit |
| `Division.UDivMod64` | userland/tinycc/tcc_builtins.c:3-28 | quotient and remainder of any two 64-bit numbers, both 0 for divisor 0 |

## Left out

- Liballoc.Allocator.Malloc: requires the request to be in range, the condition `AskExact` and `BlockFits` prove exact; what happens beyond it is not followed further.
- Liballoc.Allocator.Free: a pointer that is not live (freed twice, or never given out) is not modelled; neither are `calloc` and `realloc`.
- FatFs.FileSystem.Open: at most one handle per file; `O_TRUNC` or removal of a file that is open is not modelled.
- FatFs.FileSystem.Truncate: the shrinking half; the growing half is `FatGrow.Grow`, on the volume, without the record of the new size that follows it.
- FatGrow.Grow: when it fails, the clusters appended stay on the chain while the recorded size does not change; runs that go on from there are not followed.
- FatGrow.ExtendTo: for intact chains.
- FatCore.FreeChain: for intact chains; the step bound that stops on a corrupt, cyclic one is not modelled.
- FatFiles.EnsureCluster: an index at most one past the end, as the write loop asks for; any other index is `FatGrow.ExtendTo`.
- FatFs.FileSystem.Unlink: a file that is open is not modelled.
- FatFs.FileSystem.Mkdir: the `.` and `..` records written into the new cluster are left out.
- FatFs.FileSystem.Rmdir: the scan of the directory's own sectors is a parameter; directory records are a map from location to entry, so long names, `.` and `..` records, `rename` and `readdir` are out.
- FatVolume.MountIsSound: a table long enough for its clusters, a table not at sector 0 and a data area below 2 GiB are left to whoever made the image.
- Disk errors: every sector read and write succeeds.
- PathLaws.ResolveComposes: one way only; a path that is cut can still resolve to the same place by chance.
- AsLink.ObjectLinksToFlat: `.bss` is not part of the image; several objects linked together are covered by the relocation results, not by this one.
- AsMachine.Assembler.ProcessStmt: source lines are taken as parsed statements, names are not cut at 63 characters, and encoding is computed as a value and then emitted.
- AsMachine.Assembler.EmitBytes: a buffer that cannot grow is not modelled.
- AsMachine.Assembler.AssembleProgram: running out of memory is modelled only as sections that cannot fit a 32-bit address space together.
- AsMeaning.EncodeSays: constants are compared modulo the operand width, and a label that an object leaves to the linker is covered by `AsObject.EncodeMatches` instead; mnemonic spellings are taken as parsed.
- LdElf.ReadElf: the byte layout of headers, symbol and relocation tables, of the linker's own object format and of archives is not modelled.
- LdElf.ElfRelocationMeaning: for relocation sites that do not overlap.
- Toolchain.AssembleLinkLoad: the ELF header bytes ld86 writes are a parameter; the entry point is not followed.
- Loader.AddressSpace.LoadElf: the temporary copy of the file is a value; page directories are maps; the ELF header checks are out.
- TaskCodes.ResumedAnswer: one way only; a later task in the slot can have ended with the same code.
- TaskRuns.Fair: for tasks on the ring; a stranded slot has no turn.
- Pipes.Interleave: names, descriptors and directory listing of pipes are out.
- Network, graphics, drivers, paging structures, shell and other user programs.
