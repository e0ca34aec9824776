# Obliteration: physical memory, protocols, linking and allocators, verified

This project models parts of Obliteration, a PlayStation 4 kernel with its virtual machine monitor,
as Dafny code and proves what they compute. `dafny verify dfyconfig.toml` checks all of it.

**Physical memory at boot.** `BootMap` folds the boot memory map into `physmap`, a flat array of
start and end addresses. `PhysMap` takes aligned blocks out of it and gives parts back, shifting the
array in place. `DirectMemory` is the state machine of these steps, with `Dmem::new` as one run of
it. `PhysAvail` walks the result page by page into the tables of available and dumpable memory.
`Setup` puts the stages together, from the boot map to the page counts of `Vm::new`, and `BootRun`
follows a family of boot maps through all of them.

**Codecs and protocols.** `EnvBuffer` is the environment buffer that the GUI writes and the kernel
parses. `Gdb` is the remote debugging session: framing, acknowledgment mode and arbitrary chunks of
input. `VPath` is the absolute paths of the virtual filesystem.

**Linker and loader.** `Relocation` is repeated relocation passes with marks over words in memory.
`Tls` is the assignment of indices and offsets for thread-local storage, of which section 3 of
Drepper's "ELF Handling For Thread-Local Storage" describes the layout. `KernelImage` is the segment
check and the relocation of the kernel image, with `R_X86_64_RELATIVE` as in section 4.4.1 of the
System V ABI AMD64 supplement.

**Identifiers, generator and size classes.** `Mounts` is the search for a free mount identifier on a
wrapping counter. `Arc4` is the random byte generator. `SizeClasses` is the lookup tables of the
kernel heap and of UMA buckets. `Keg` is the layout of a slab.

`Machine`, `Ranges`, `Search` and `Words` hold what the others share: aborting runs and bit masks,
lists of address ranges, searching a sequence, and little-endian words in memory.

## How the model reads

Loops and in-place updates are methods over arrays and classes; each is proved to do what a function
on values does, and the properties are proved about that function. Integers are unbounded, so every
64-bit limit is written out. Arithmetic that overflows, an index out of bounds, a `todo!()` and a
panic end a run with `Aborts` and the kind of fault; overflow is checked, as in a debug build.
Bitwise operations are defined digit by digit on natural numbers.

The processor, the clock, the network, the hypervisor, symbol resolution, the ELF reader and the
configuration are parameters. In `Setup.Run` they are the record `Boot`; in `Relocation` a pass carries
a function from symbols to what they resolve to.

## What the proofs found

- `reserve_phys` returns 0 for "nothing fits", but underflows instead when the scan reaches an entry
  that ends below the size (`PhysMap.ReserveFindsNothing`). A block taken at address 0 is reported the
  same way as failure, and is lost; `PhysMap.ZeroMeans` says exactly when, and
  `PhysMap.ZeroLosesMemory` gives a map on which it happens.
- Taking the last remaining entry whole underflows `physmap_last`, and splitting an entry of a full
  array writes past it (`PhysMap.ReserveAborts`), as on the maps of `PhysMap.OnlyEntryUnderflows` and
  `PhysMap.FullMapOverruns`.
- When `load_memory_map` gives up on a full array, the index it leaves makes the loops behind it read
  out of bounds; the model aborts there (`BootMap.InsertFate`), as on the map of
  `BootMap.TooManyRegions`. Its first entry always starts at 0, so the panic for a missing boot area
  cannot happen.
- `setup` writes the page size over the start of the first entry. On an arbitrary map this can add
  pages that are not RAM; `Setup.OverwriteExact` says exactly when. On a map that starts at 0, as
  every map of the pipeline does, it only drops page 0.
- `Vm::new` looks for a pair that ends at 0 and reads past the array exactly if the table holds 30
  ranges, which is as many as `setup` may write (`Setup.CountPages`). `BootRun.BootOutcome` follows a
  boot map on which everything before the count succeeds and the count does not; with one page of RAM
  less the same boot finishes.
- An empty console buffer whose address is not that of a page keeps the page it lies in out of the
  available memory, although it takes no byte of it (`PhysAvail.SparedBytes`).
- `load_mode` can give the base mode 6, with which `Dmem::new` runs into an unimplemented branch; only
  3, 4 and 5 get through (`DirectMemory.SupportedModes`).
- `extend_env` starts writing behind the first entry, so a buffer with two or more entries loses the
  others as soon as one is written (`EnvBuffer.ExtendKeepsAll`, `EnvBuffer.SecondIsLost`).
- `is_valid` never looks at the last component, so `/..` is accepted, and it refuses the root, which
  is where every path starts (`VPath.ValidIsBuilt`, `VPath.ValidSurprises`). So the parent of a valid
  path with one component, which `parent` takes to be valid, is not (`VPath.ParentValid`).
- Segments are sorted by address with an unstable sort, and an empty segment at the address of
  another one is accepted in one order and refused in the other (`KernelImage.TieMatters`);
  `KernelImage.OrderMattersExactly` says exactly for which segments the order decides. An empty
  segment strictly inside another one is refused in every order, although it shares no address
  (`KernelImage.Verdict`).
- The rounding of TLS offsets aligns only for powers of two, and nothing checks that the alignment is
  one; blocks are disjoint in any case (`Tls.AlignsExactly`, `Tls.RunKeeps`).
- The search for a mount identifier never ends if all 65536 identifiers of a type are taken, and ends
  in every other case (`Mounts.SearchEnds`); `Mounts.Exhausted` is the run that gets there.
- The one-page test of a keg looks at the item size before it is rounded up, so large alignments give
  slabs that hold no item; the kernel heap creates such kegs for every alignment above a page
  (`Keg.OnePageLayout`, `Keg.AlignedAway`).

## Model

| member | source | states |
|---|---|---|
| `PhysMap.ScanExact` | kernel/src/dmem/mod.rs:159-206 | on a sorted map, for any prefix of entries, the downward scan stops at the greatest aligned address whose block fits in one entry, or nothing fits, and it underflows only if the lowest entry ends below the size |
| `PhysMap.ReserveTakesGreatest` | kernel/src/dmem/mod.rs:159-206 | whenever some aligned block fits and the call returns, the result is the greatest such address and the map loses exactly that block |
| `PhysMap.ReserveAborts` | kernel/src/dmem/mod.rs:159-206 | where some block fits, the call underflows exactly if it takes the sole entry whole, indexes past the array exactly if the array is full and the greatest block touches neither end of its entry, and returns in every other case |
| `PhysMap.OnlyEntryUnderflows` | kernel/src/dmem/mod.rs:159-206 | a map of one entry on which taking it whole underflows |
| `PhysMap.FullMapOverruns` | kernel/src/dmem/mod.rs:159-206 | a full array of thirty entries on which a reservation in the middle of the last one indexes past it |
| `PhysMap.ZeroMeans` | kernel/src/dmem/mod.rs:159-206 | a call that returns has returned 0 exactly if nothing fits or the greatest block that fits is at address 0; it has then changed the map exactly in the second case, which is that an entry starts at 0 with room for the block at no higher place and no entry above has room |
| `PhysMap.ZeroLosesMemory` | kernel/src/dmem/mod.rs:159-206 | a map of two entries on which the block at 0 is taken and 0 is returned |
| `PhysMap.ReserveFindsNothing` | kernel/src/dmem/mod.rs:159-206 | if no block fits, the result is 0 and the map is unchanged when the lowest entry ends at or above the size, and an underflow otherwise |
| `PhysMap.AdjustAdds` | kernel/src/dmem/mod.rs:212-264 | giving back a range that is not free succeeds if and only if some entry starts below it, none ends right at its start and none starts inside it, and either an entry starts right at its end or all start below it and there is room for one more; it then leaves a sorted map with exactly its addresses and bytes added |
| `PhysMap.AdjustFate` | kernel/src/dmem/mod.rs:212-264 | on any sorted map, when a give-back succeeds and when it indexes past the array, in terms of the map alone; the number of entries stays the same if an entry starts at the end of the range, and grows by one otherwise |
| `PhysMap.TakeWhole` | kernel/src/dmem/mod.rs:170-175 | shifting the tail of the array down removes one entry and nothing else |
| `PhysMap.TakeMiddle` | kernel/src/dmem/mod.rs:177-184 | shifting the tail up and writing two words splits one entry around the block and keeps all others |
| `PhysMap.TakeEdge` | kernel/src/dmem/mod.rs:186-196 | moving one end of an entry cuts the block off it and keeps all others |
| `PhysMap.MemoryInfo.ScanPhys` | kernel/src/dmem/mod.rs:159-206 | the loop over the array stops where the scan over the list of ranges does |
| `PhysMap.MemoryInfo.Take` | kernel/src/dmem/mod.rs:167-197 | the four array updates leave the map without the block, and abort exactly when the last entry would vanish or the array is full |
| `PhysMap.MemoryInfo.ReservePhys` | kernel/src/dmem/mod.rs:159-206 | on the array: the address, the new map and every abort are those of the reservation on the list of ranges |
| `PhysMap.MemoryInfo.AdjustPmap` | kernel/src/dmem/mod.rs:212-264 | on the array: the new map and every abort are those of the give-back on the list of ranges |
| `DirectMemory.RunConserves` | kernel/src/dmem/mod.rs:21-141 | over any run of reservations and give-backs of parts of held blocks, free and held addresses partition the original RAM with equal byte totals, the map stays sorted and held blocks stay disjoint |
| `DirectMemory.RunGrounded` | kernel/src/dmem/mod.rs:21-141 | a map whose first entry, and no other, starts at 0 keeps that over any run |
| `DirectMemory.RunHolds` | kernel/src/dmem/mod.rs:21-141 | what is held at the end of any run is what was held before plus the bytes reserved minus the bytes given back, and the free bytes shrink by the same amount |
| `DirectMemory.GiveBackConserves` | kernel/src/dmem/mod.rs:127-134 | a give-back of part of a held block moves exactly those addresses to the free map |
| `DirectMemory.UnkHolds` | kernel/src/dmem/mod.rs:99-125 | after whatever has been reserved and given back before it, the `unk1` loop moves exactly `unk1` bytes from the free map to the held blocks, for every positive amount |
| `DirectMemory.SettledHolds` | kernel/src/dmem/mod.rs:21-141 | on every sorted map and with every configuration for which `Dmem::new` finishes, the blocks held in the end have as many bytes as a closed formula of the configuration and the mode says, and the free map has lost exactly those |
| `DirectMemory.PlanPlaces` | kernel/src/dmem/mod.rs:21-125 | every block of `Dmem::new`, in order and with its number, size and alignment, is the greatest one that fits in what is free when its turn comes |
| `DirectMemory.HighEndsMap` | kernel/src/dmem/mod.rs:23-27 | the high block, which has no alignment, ends where the map ends if the last entry is long enough |
| `DirectMemory.SupportedModes` | kernel/src/dmem/mod.rs:21-125 | of the base modes 0 to 7 only 3, 4 and 5 get through all reservations, with any of the four flag words |
| `DirectMemory.WindowIsFree` | kernel/src/dmem/mod.rs:127-134 | after `Dmem::new` every address of the flexible-memory window is free and part of the original RAM |
| `DirectMemory.HighIsFree` | kernel/src/dmem/mod.rs:127-134 | after `Dmem::new` the first 12 MB of the high block are free, or all 16 MB with a flag set |
| `DirectMemory.Stuck` | kernel/src/dmem/mod.rs:21-141 | once a step of a run cannot be taken, no continuation of the run exists |
| `DirectMemory.TakeUnk` | kernel/src/dmem/mod.rs:99-125 | the loop ends, having taken the planned pieces in order, or aborts exactly because `unk1` is 0 or the plan cannot be carried out |
| `DirectMemory.MiniApp` | kernel/src/dmem/mod.rs:47-67 | the mini-app address is the greatest aligned one in front of the flexible memory, and exists exactly if there is room for it |
| `DirectMemory.MiniOkIs` | kernel/src/dmem/mod.rs:47-67 | in the modes with a mini-app, room for it is 128 MB or 2 MB, as a setting says, in front of it and of the flexible memory |
| `DirectMemory.TakeAll` | kernel/src/dmem/mod.rs:21-125 | the reservations succeed exactly if the mode is supported and the plan can be carried out, and end in the state of the plan |
| `DirectMemory.New` | kernel/src/dmem/mod.rs:21-141 | returns exactly if the mode is supported and every step of the plan succeeds; then map and held blocks are those of the plan, the end address is that of the game block, the end page is that of the map, and on a sorted map the bytes held are those of the closed formula and the free bytes are the rest |
| `BootMap.OverlapExact` | kernel/src/main.rs:321-338 | looking at the first entry that ends above a region decides whether the region overlaps any entry |
| `BootMap.InsertFate` | kernel/src/main.rs:308-370 | what becomes of a RAM region, each outcome with its exact condition on the regions accepted before it: dropped if and only if it overlaps one of them, given up if the array is full and it is next to none, too long, in a gap, or kept |
| `BootMap.InsertExact` | kernel/src/main.rs:308-370 | a RAM region that is kept leaves a map that covers exactly the accepted regions and itself, in both merging cases and when appended, with one more entry exactly if it is next to no accepted region |
| `BootMap.LoadExact` | kernel/src/main.rs:308-370 | the loop finishes exactly on the boot maps whose RAM regions end inside the address space and, where next to no accepted region, lie above all of them with an entry left; the regions it kept are then those of an independent greedy selection, and the map is sorted and covers exactly their union |
| `BootMap.AscendingLoads` | kernel/src/main.rs:308-370 | every boot map in ascending order with at most 29 RAM regions inside the address space can be loaded, overlapping or not |
| `BootMap.TooManyRegions` | kernel/src/main.rs:308-370 | 31 separate pages of RAM fill the array and leave an index past it |
| `BootMap.InitialSizeFinishes` | kernel/src/main.rs:379-397 | the initial memory size can be computed exactly if no entry starts in the last page of the address space |
| `BootMap.WholeBytesExact` | kernel/src/main.rs:393-396 | what an entry adds to the initial memory size is the longest run of whole pages inside it |
| `BootMap.InitialSizeFits` | kernel/src/main.rs:379-397 | the initial memory size is a number of whole pages and at most the size of the map, so that adding it up cannot overflow |
| `BootMap.InitialMemory` | kernel/src/main.rs:379-397 | the loop over the array gives the whole pages of the map in bytes, or its overflow |
| `BootMap.InsertRegion` | kernel/src/main.rs:308-370 | one iteration on the array does what the insertion on the list of ranges does, aborts included |
| `BootMap.LoadRegions` | kernel/src/main.rs:308-370 | the loop on the array does what the fold over the boot map does, aborts included |
| `BootMap.AdjustBootArea` | kernel/src/main.rs:476-494 | the tables start on a page boundary at least three pages below the end of the boot area, at the address the need decides, or the subtraction underflows |
| `BootMap.TablesExact` | kernel/src/main.rs:476-494 | for every size of the boot area and need: where the tables start, with the mask resolved to the offset in a 4 KB page |
| `BootMap.TotalSize` | kernel/src/main.rs:426-433 | the alternating sum from the top is the number of bytes of the map |
| `BootMap.LoadedExact` | kernel/src/main.rs:300-408 | for every boot map and need: whether a map is loaded, and that it is the accepted one with the boot area cut down to the tables |
| `BootMap.LimitPagesExact` | kernel/src/main.rs:411-416 | the end page is the greatest that neither the map nor `hw.physmem` is too small for |
| `BootMap.LoadMemoryMap` | kernel/src/main.rs:300-468 | returns exactly if the fold finishes, the first entry is not empty, the initial size can be computed and the tables fit; the map is then the accepted RAM without the cut boot area, with the end page that `hw.physmem` may lower, the initial size and whether it is 8 GB or more |
| `PhysAvail.PutAdds` | kernel/src/main.rs:191-218 | adding a page at the end of a table keeps the ranges page-aligned and separated by real gaps, and adds that page only |
| `PhysAvail.WalkExact` | kernel/src/main.rs:185-226 | walking any span of pages adds to both tables exactly the pages it should as long as no table is full, only such pages otherwise, and counts every page added; a page is kept out of `phys_avail` exactly if it starts in the memory the kernel uses or is not wholly below or above the console buffer |
| `PhysAvail.UsableExact` | kernel/src/main.rs:187-191 | for pages, the test with the rounded console address keeps out exactly those that start in the memory the kernel uses or are not wholly below or above the buffer |
| `PhysAvail.SparedBytes` | kernel/src/main.rs:187-191 | a page that is not kept out shares no byte with the console buffer, and a page that shares none is not kept out for it, unless the buffer is empty and has its address inside the page |
| `PhysAvail.BoundsExact` | kernel/src/main.rs:182-185 | the bounds of the page loop pick exactly the pages wholly inside the entry and below the limit |
| `PhysAvail.FirstExact` | kernel/src/main.rs:181-227 | over all entries, `phys_avail` holds exactly the pages of the map that avoid the memory the kernel uses and the console buffer, and `dump_avail` page 0 and every page of the map, as long as neither is full, and never any other page |
| `PhysAvail.WalkSpan` | kernel/src/main.rs:185-226 | a span of usable pages, however long, extends the last range of `phys_avail` or adds one range, if there is room for it |
| `PhysAvail.TabularWalked` | kernel/src/main.rs:181-227 | a map of whole usable pages below the limit, with gaps between its entries, comes back as `phys_avail`, range for range |
| `PhysAvail.WalkFinishes` | kernel/src/main.rs:181-183 | the walk finishes exactly if no entry starts in the last page of the address space |
| `PhysAvail.AddPage` | kernel/src/main.rs:191-218 | on the array: extends the last pair or writes a new one, and reports whether there was room |
| `PhysAvail.WalkEntry` | kernel/src/main.rs:185-226 | the inner loop on the two arrays does what the walk on the lists of ranges does, including the early stop when the first table is full |
| `PhysAvail.WalkMap` | kernel/src/main.rs:181-227 | the outer loop on the arrays does what the walk over all entries does, aborts included |
| `PhysAvail.TrimCounts` | kernel/src/main.rs:233-246 | cutting the message buffer off the last range removes exactly its pages |
| `Setup.TrimMsgbuf` | kernel/src/main.rs:233-246 | on the array: the last range is shortened by the message buffer, or the guard that it be more than a page longer fails |
| `Setup.CountPages` | kernel/src/vm/mod.rs:46-75 | the counts are the numbers of pages of the table outside and inside the window; a list of blocked pages stops the loop at the first page, and otherwise it indexes past the array exactly if the table has 30 ranges |
| `Setup.OverwriteDropsFirst` | kernel/src/main.rs:174-174 | on a map whose first entry starts at 0, writing the page size over that start drops page 0 and nothing else |
| `Setup.OverwriteExact` | kernel/src/main.rs:174-174 | on any sorted map, the overwrite adds no page if and only if the first entry starts within the first page or is too short or too high to gain one |
| `Setup.TablesExact` | kernel/src/main.rs:161-227 | from a map as `Dmem::new` leaves it: both tables are canonical, `physmem` is the number of pages in `phys_avail`, and their pages are exactly those of the map, without those in use by the kernel or touching the console buffer in the first, while no table is full |
| `Setup.Populate` | kernel/src/main.rs:161-227 | on the arrays: fills the two tables of the map, or aborts exactly if the walk does |
| `Setup.TrimmedCounts` | kernel/src/main.rs:233-246 | counting a trimmed table: the two counts and the message-buffer pages add up to the pages of the table, and each count is that of the pages below the new end inside or outside the window |
| `Setup.CountAvailable` | kernel/src/main.rs:161-246 | returns exactly if the tables can be filled, trimmed and counted; then the counts are those of the usable pages of the map, and with the message-buffer pages they add up to the `physmem` counted while the tables were filled |
| `Setup.Run` | kernel/src/main.rs:97-246 | from the boot map to the page counts: returns exactly if every stage does, in the mode that the memory size and the processor select; then map and held blocks are those of `Dmem::new` in that mode, the counts add up to the usable free pages less the message buffer, and those inside the window are counted apart |
| `Setup.AvailableIsSafe` | kernel/src/main.rs:161-227 | every byte of a counted page lies in a RAM region accepted from the boot map, outside the boot tables, in no block still reserved and outside the console buffer, and the page does not start in the memory the kernel uses |
| `Setup.SafeIsAvailable` | kernel/src/main.rs:161-227 | and every whole page of the free map from the second on that avoids the memory the kernel uses and the console buffer is counted |
| `BootRun.MapLoads` | kernel/src/main.rs:300-468 | the map loaded from these boot maps, with the boot area cut short for the tables |
| `BootRun.BlockSettles` | kernel/src/dmem/mod.rs:21-141 | what `Dmem::new` leaves free of any map whose last entry is that large block, with the reservations and give-backs of one mode and configuration |
| `BootRun.BootOutcome` | kernel/src/main.rs:97-246 | one family of boot maps followed through every stage: with up to 26 single pages between the boot area and a large block the run finishes, with 27 the map loads, the reservations succeed and the message buffer fits, but the table has 30 ranges and the run does not finish |
| `Mounts.PackAgrees` | legacy/src/fs/mount.rs:50-70 | the word put together before the loop and the one put together inside it are the same |
| `Mounts.PackInjective` | legacy/src/fs/mount.rs:50-70 | for a given type, different 16-bit counters give different packed words |
| `Mounts.PackIs` | legacy/src/fs/mount.rs:53-69 | the whole word: low byte of the counter, all ones, high byte of the counter, low byte of the type |
| `Mounts.SearchEnds` | legacy/src/fs/mount.rs:50-70 | the search ends if and only if one of the 65536 identifiers of the type is free; otherwise every candidate it ever tries is taken |
| `Mounts.Pigeonhole` | legacy/src/fs/mount.rs:50-70 | with fewer than 65536 mounts some identifier of any type is free |
| `Mounts.RunKeepsDistinct` | legacy/src/fs/mount.rs:28-70 | over any sequence of pushes, removals and swaps, all identifiers stay pairwise distinct |
| `Mounts.ListSteps` | legacy/src/fs/mount.rs:28-42 | a removal closes the gap and a swap exchanges two identifiers; neither touches the others or the counter |
| `Mounts.PushEnds` | legacy/src/fs/mount.rs:28-70 | with fewer than 65536 mounts a push ends, whatever the counter and the type |
| `Mounts.Exhausted` | legacy/src/fs/mount.rs:28-70 | after 65536 pushes of one type, from any counter, no identifier of that type is free and the next push never ends |
| `Mounts.Mounts.FindId` | legacy/src/fs/mount.rs:50-70 | the loop settles on the first free candidate and leaves the counter one past it |
| `Mounts.Mounts.SetId` | legacy/src/fs/mount.rs:50-70 | the mount gets the first free candidate from the counter on, and the counter ends one past it |
| `Mounts.Mounts.Push` | legacy/src/fs/mount.rs:28-34 | the list grows by the mount, its identifiers make the step of a push, and they stay distinct |
| `Mounts.Mounts.Remove` | legacy/src/fs/mount.rs:36-39 | exactly the mount is removed, by identity, and the other mounts and identifiers keep their order |
| `Mounts.Mounts.Swap` | legacy/src/fs/mount.rs:41-43 | two mounts change places, and their identifiers with them |
| `Gdb.ReplyIsRead` | gui/src/gdb/client.rs:49-123 | any payload without `#` that is framed and checksummed for sending is taken off again by the reader, with whatever follows left over |
| `Gdb.UnframeExtends` | gui/src/gdb/client.rs:49-77 | more input behind a complete packet does not change how it is taken off |
| `Gdb.PayloadPlain` | gui/src/gdb/state.rs:13-71 | no reply payload, for any number and order of features, holds the character that ends a packet |
| `Gdb.PumpConsumes` | gui/src/gdb/client.rs:26-124 | every response consumes input, so pumping ends; a pump that needs more changes nothing |
| `Gdb.PumpExtends` | gui/src/gdb/client.rs:26-124 | a pump that does something does the same with more input behind |
| `Gdb.DrainSplits` | gui/src/gdb/client.rs:26-124 | pumping to exhaustion after each of two deliveries gives what one delivery gives |
| `Gdb.ChunkingIrrelevant` | gui/src/main.rs:822-833 | however the input is cut into chunks, the responses, the state, the bytes left over and the error are the same |
| `Gdb.NoAckForever` | gui/src/gdb/client.rs:26-124 | once no-acknowledgment mode has been accepted, it stays so and no later response starts with `+` or `-` |
| `Gdb.ResponseShape` | gui/src/gdb/client.rs:26-124 | every response is empty, a request to send again in acknowledgment mode, or a packet that reads back, acknowledged exactly in acknowledgment mode |
| `Gdb.ModeChanges` | gui/src/gdb/state.rs:9-21 | the mode after any pump: being left exactly after an intact `QStartNoAckMode` with no acknowledgment missing, settled exactly by the `+` after it, and unchanged otherwise; the other flag is set exactly by `QThreadSuffixSupported` |
| `Gdb.Handshake` | gui/src/gdb/client.rs:26-124 | at any packet boundary of any session, `QStartNoAckMode` and a `+` are answered with `OK` and nothing, whatever follows is answered as in the settled mode, and no later response starts with `+` or `-` |
| `Gdb.CommandsAre` | gui/src/gdb/client.rs:104-114 | payload and new state of each command; nothing else is handled |
| `Gdb.PacketAnswered` | gui/src/gdb/client.rs:92-123 | an intact packet is answered with the payload of its command, framed, with a `+` in front exactly in acknowledgment mode, or is an error if an acknowledgment is missing |
| `Gdb.AckTaken` | gui/src/gdb/client.rs:30-42 | a `+` is taken silently, settles a mode that is being left, and is an error once it is settled |
| `Gdb.DamagedDropped` | gui/src/gdb/client.rs:58-91 | a packet with a bad checksum is dropped and changes nothing; it is asked for again exactly in acknowledgment mode and an error otherwise |
| `Gdb.SupportedAlone` | gui/src/gdb/state.rs:23-31 | without a list of features the reply to `qSupported` is the fixed feature |
| `Gdb.SupportedReplies` | gui/src/gdb/state.rs:23-65 | for every list of client features: answered exactly if all have one of six known names; the parts of the reply are then the fixed feature and, in the order of the request, `swbreak+` and one `xmlRegisters=` for each such feature |
| `Gdb.GetChecksum` | gui/src/gdb/client.rs:14-22 | the accumulating loop computes the sum of the bytes modulo 256 |
| `Gdb.ChecksumIsSum` | gui/src/gdb/client.rs:14-22 | the wrapping checksum is the sum of all bytes modulo 256 |
| `Gdb.OkBytes` | gui/src/gdb/client.rs:115-123 | the bytes of the reply `OK` |
| `Gdb.GdbSession.ParseSupported` | gui/src/gdb/state.rs:23-65 | the feature loop appends the answers in order, or stops at a feature that is not handled |
| `Gdb.GdbSession.Step` | gui/src/gdb/client.rs:26-124 | one pump on the buffers does what the pump on values does, errors included |
| `Gdb.GdbSession.Serve` | gui/src/main.rs:808-836 | buffering a chunk and pumping until nothing is left gives the drained session without its empty responses, errors included |
| `Gdb.SentBytes` | gui/src/main.rs:822-833 | leaving the empty responses out does not change the bytes that are sent |
| `EnvBuffer.Utf8Unmarked` | config/src/lib.rs:63-104 | no byte of a UTF-8 string is as high as one of the two marks |
| `EnvBuffer.NextReads` | config/src/lib.rs:135-163 | an encoded entry at the front of a buffer is read back and leaves what follows it |
| `EnvBuffer.NextInverse` | config/src/lib.rs:135-165 | whatever is read off the front of any buffer is what its bytes are, with the separator and the end mark in place; the end is an empty buffer or the end mark, and any other front is a panic |
| `EnvBuffer.DecodeHeld` | config/src/lib.rs:135-163 | a buffer that holds a list of UTF-8 entries is read back as that list |
| `EnvBuffer.ExtendHolds` | config/src/lib.rs:63-104 | extending a buffer writes the longest prefix that fits, hands back the rest, and leaves a buffer that holds the first old entry and that prefix |
| `EnvBuffer.ExtendKeepsAll` | config/src/lib.rs:63-104 | extending reads back as all old entries and the new ones if and only if there was at most one old entry, or there is no new one that fits behind the first old one |
| `EnvBuffer.SecondIsLost` | config/src/lib.rs:63-104 | any two entries written to a cleared buffer read back; extending by any third then reads back as the first and the third, in every buffer with room for all three |
| `EnvBuffer.RoundTrip` | config/src/lib.rs:63-108 | clearing, extending and iterating yields exactly the longest prefix that fits, and the rest is handed back |
| `EnvBuffer.EndToEnd` | kernel/src/config/mod.rs:59-67 | of a list of any length, the longest prefix that fits is handed to the kernel, which finds a name in it with its first value, or not at all, as in that prefix |
| `EnvBuffer.Config.ClearEnv` | config/src/lib.rs:106-108 | every byte of the array becomes the end mark |
| `EnvBuffer.Config.ExtendEnv` | config/src/lib.rs:63-104 | on the array: the new bytes, what is handed back and the abort are those of the extension on values |
| `EnvBuffer.Config.Append` | config/src/lib.rs:63-104 | an entry is written exactly if it fits, with an end mark behind it if there is room, and everything else is as before |
| `EnvBuffer.LoadEnv` | kernel/src/config/mod.rs:123-125 | collecting the iterator gives the decoded list or its abort |
| `EnvBuffer.Env` | kernel/src/config/mod.rs:59-67 | the search gives the first value stored under the name |
| `Relocation.StoreSound` | legacy/src/rtld/mod.rs:818-920 | relocating one unmarked entry leaves every slot holding its original word or a value computed from that word |
| `Relocation.PassMarks` | legacy/src/rtld/mod.rs:794-974 | an entry that a pass marks gets its mark and its word from that pass and the word it found |
| `Relocation.MarkedForever` | legacy/src/rtld/mod.rs:794-974 | once marked, an entry keeps its mark and its word through every later pass |
| `Relocation.PassesSound` | legacy/src/rtld/mod.rs:794-974 | after any number of passes with changing symbols, an unmarked slot holds its original word; a marked one was unmarked until one pass, holds what that pass computed from the original word, also where the relocation reads the word it overwrites, and kept it through every later pass; no other byte has changed |
| `Relocation.PassFate` | legacy/src/rtld/mod.rs:794-974 | one pass aborts exactly at a faulty unmarked entry it gets to, reports exactly the first entry it cannot handle, and marks exactly the entries it gets to whose symbols resolve |
| `Relocation.PassesFate` | legacy/src/rtld/mod.rs:794-974 | a run of passes finishes exactly if no pass gets to a faulty entry that no earlier pass has settled, and then exactly the settled entries are marked; faulty and settled are said of the module, the original words and the symbols alone |
| `Relocation.FinalWords` | legacy/src/rtld/mod.rs:794-974 | after any number of passes, the word and the mark of every entry, kind by kind, from the word its slot held at the start and what its symbol resolves to in the first pass that settles it: address plus addend for 64 and `JUMP_SLOT`, the address for `GLOB_DAT`, the word plus the index for `DTPMOD64`, the word plus symbol value plus addend for `DTPOFF64`; an entry no pass settles is unmarked and its slot as it was |
| `Relocation.PassAgain` | legacy/src/rtld/mod.rs:794-974 | repeating a pass with the same symbols changes nothing and ends the same way |
| `Relocation.ApplyEntry` | legacy/src/rtld/mod.rs:818-920 | one entry on memory and mark arrays: words, marks, how the loop goes on and every abort are those of the step on values |
| `Relocation.RunLoop` | legacy/src/rtld/mod.rs:818-974 | the loop on the arrays does what the loop on values does, errors and aborts included |
| `Relocation.RelocateSingle` | legacy/src/rtld/mod.rs:794-815 | the two loops one after the other, the second only if the first had no error |
| `Words.PutGet` | legacy/src/rtld/mod.rs:818-920 | a stored word reads back |
| `Words.PutElsewhere` | legacy/src/rtld/mod.rs:818-920 | storing a word leaves every word that does not overlap it unchanged |
| `KernelImage.ScanExact` | gui/src/vmm/mod.rs:154-169 | the scan accepts exactly the lists in which every segment ends at or before the start of every later one and inside the address space, and its length is the last end |
| `KernelImage.AcceptedDisjoint` | gui/src/vmm/mod.rs:154-169 | accepted segments share no address and lie below the kernel length |
| `KernelImage.SortedAccepted` | gui/src/vmm/mod.rs:101-169 | sorted segments are accepted if and only if they end inside the address space and none starts inside an earlier one |
| `KernelImage.DisjointAccepted` | gui/src/vmm/mod.rs:101-169 | sorted segments of which none is empty are accepted if and only if no two share an address and all end inside the address space |
| `KernelImage.OrderMattersExactly` | gui/src/vmm/mod.rs:101-169 | sorting the same segments by address in another way changes the verdict if and only if an empty segment has the address of one that is not, all end inside the address space and no two overlap in either order |
| `KernelImage.Verdict` | gui/src/vmm/mod.rs:101-169 | sorted segments of which two overlap in either order, an empty one strictly inside another included, or one ends outside the address space, are refused; any others without a tie are accepted |
| `KernelImage.EmptyFirstAccepted` | gui/src/vmm/mod.rs:101-169 | unless two segments overlap in either order or one ends outside the address space, putting empty segments first among equal addresses is accepted |
| `KernelImage.TieMatters` | gui/src/vmm/mod.rs:101-101 | for every address and length, an empty segment and one of that length there are accepted in one order and refused in the other |
| `KernelImage.KernelLength` | gui/src/vmm/mod.rs:154-169 | the loop gives the end of the last segment or the error of the first offending one |
| `KernelImage.ApplyExact` | gui/src/vmm/mod.rs:562-587 | with slots separate from each other and from the entries read, the loop leaves base plus addend in the slot of every relative entry before the one it stops at and every other byte unchanged; it calls the table valid exactly if it got to its end or to an empty entry, and overflows exactly if the entry it stops at would end outside the address space |
| `KernelImage.KernelRelocated` | gui/src/vmm/mod.rs:513-589 | a kernel with separate slots is relocated up to where its table ends, and nothing else changes; whether that is valid is decided by where it ends |
| `KernelImage.EntryFields` | gui/src/vmm/mod.rs:567-575 | an entry read from the image is its first word, its second word modulo 2^32 and its third word |
| `KernelImage.KernelWords` | gui/src/vmm/mod.rs:562-587 | in words of the original image at their byte positions: the slot named by the first word of a relative entry before the stop ends up as the base plus the third word, and the type is the second word modulo 2^32 |
| `KernelImage.KernelUntouched` | gui/src/vmm/mod.rs:513-560 | when nothing is relocated, and whether that is an error, in terms of the dynamic section |
| `KernelImage.TagsAreLast` | gui/src/vmm/mod.rs:535-548 | the table address and size are the values of the last entries with their tags before the first end entry, or missing if there is none |
| `KernelImage.FindTags` | gui/src/vmm/mod.rs:535-548 | the loop gives the table address and size that the dynamic entries give |
| `KernelImage.ApplyAll` | gui/src/vmm/mod.rs:562-587 | the loop on the array, reading entries from the image it is changing, does what the loop on values does |
| `KernelImage.RelocateKernel` | gui/src/vmm/mod.rs:513-589 | on the array: the image, whether it was valid and every abort are those of the relocation on values |
| `Tls.RoundUpAbove` | legacy/src/rtld/mod.rs:715-747 | rounding up never goes below its argument, for any alignment |
| `Tls.AlignsExactly` | legacy/src/rtld/mod.rs:715-747 | the rounding aligns every size it can round up if and only if the alignment is a power of two, or so large that only 0 can be rounded up to it |
| `Tls.FindIndexFree` | legacy/src/rtld/mod.rs:230-255 | the search ends at the least index from the start that no module has, and the maximum grows to it if need be |
| `Tls.LoadGives` | legacy/src/rtld/mod.rs:229-287 | a load gives index 0 without TLS and the least unused index otherwise, adds the module exactly if mapping succeeds, and changes nothing else |
| `Tls.AssignPlaces` | legacy/src/rtld/mod.rs:715-747 | for an alignment that is a power of two: the offset is the least aligned one with room past the last block, or from the start for the application; a block beyond the static space is passed over, and the sum aborts exactly above 64 bits |
| `Tls.LoadKeeps` | legacy/src/rtld/mod.rs:229-287 | loading a module, whether or not mapping it succeeds, keeps the invariant of indices and blocks |
| `Tls.AssignFirstKeeps` | legacy/src/rtld/mod.rs:715-747 | assigning offsets to any number of main modules keeps the invariant |
| `Tls.RunKeeps` | legacy/src/rtld/mod.rs:120-130 | in every run of loads and offset assignments, non-zero indices are distinct and at most the maximum, and assigned blocks are disjoint, above their size, and aligned where the alignment is a power of two |
| `Tls.Linker.SearchIndex` | legacy/src/rtld/mod.rs:230-255 | the loop gives the index and the maximum of the search, and the index is free and not that of the application |
| `Tls.Linker.LoadModule` | legacy/src/rtld/mod.rs:229-287 | the state is that of the load on values and keeps the invariant |
| `Tls.Linker.ProcessNeeded` | legacy/src/rtld/mod.rs:715-747 | the state is that of the assignment over all main modules and keeps the invariant, or the abort is the same |
| `VPath.PushRenders` | legacy/src/fs/path.rs:171-194 | pushing an allowed name onto a rendered path gives the path with one more component; an empty name, `.` and `..`, and a name with a separator are refused with their own errors |
| `VPath.PushUndone` | legacy/src/fs/path.rs:58-80 | `parent` and `file_name` give back what a push was applied to and what it added |
| `VPath.ComponentsOfRendered` | legacy/src/fs/path.rs:301-319 | the iterator yields the components a path was rendered from |
| `VPath.BuildComponents` | legacy/src/fs/path.rs:171-194 | whatever is pushed from the root, the components of the result are the accepted names in order |
| `VPath.ValidIsRendered` | legacy/src/fs/path.rs:92-117 | every string that is accepted equals its non-empty components, each behind a separator, of which all but the last may be pushed |
| `VPath.RenderedIsValid` | legacy/src/fs/path.rs:92-117 | every list of that kind renders to a string that is accepted |
| `VPath.ValidIsBuilt` | legacy/src/fs/path.rs:92-117 | an accepted string can be built by some pushes if and only if its last component is neither `.` nor `..` |
| `VPath.ParentValid` | legacy/src/fs/path.rs:58-70 | the parent of an accepted string is accepted if there is more than one component, and otherwise it is the root, which is not |
| `VPath.ValidSurprises` | legacy/src/fs/path.rs:92-117 | `/..` is accepted and the root is not |
| `VPath.CheckPath` | legacy/src/fs/path.rs:92-117 | the loop accepts exactly the strings the description of valid paths accepts |
| `VPath.VPathBuf.PushName` | legacy/src/fs/path.rs:171-194 | the string becomes that of the push, or is unchanged and the error is that of the push |
| `VPath.ComponentIter.Next` | legacy/src/fs/path.rs:301-319 | yields the first remaining component and leaves the others, or nothing at the end |
| `Arc4.StepUndone` | legacy/src/arnd.rs:33-40 | a step can be undone from the state after it |
| `Arc4.StepOutput` | legacy/src/arnd.rs:33-40 | the byte of a step in terms of the box before it |
| `Arc4.UnstepRedone` | legacy/src/arnd.rs:33-40 | every state is the result of a step from exactly that predecessor |
| `Arc4.RunInjective` | legacy/src/arnd.rs:29-40 | runs of equal length from different states end in different states |
| `Arc4.RunOnto` | legacy/src/arnd.rs:29-40 | every state is where some run of a given length ends |
| `Arc4.FirstRepeatIsStart` | legacy/src/arnd.rs:29-40 | a run that meets a state twice has come back to where it started |
| `Arc4.ReachableIsSound` | legacy/src/arnd.rs:20-54 | after any number of bytes the box is a permutation of the byte values and `i` has counted the bytes |
| `Arc4.FirstBytes` | legacy/src/arnd.rs:20-54 | the first bytes of the generator, which is never seeded |
| `Arc4.NeverShort` | legacy/src/arnd.rs:20-54 | no run from the initial state enters one of the short cycles in which a 1 is carried in front of `i` |
| `Arc4.FillSplits` | legacy/src/arnd.rs:29-31 | filling `n` and then `m` bytes gives the bytes and the state of filling `n + m` |
| `Arc4.Generator.constructor` | legacy/src/arnd.rs:43-54 | the initial state, with the box in order |
| `Arc4.Generator.RandByte` | legacy/src/arnd.rs:33-40 | on the array: the state makes one step and the byte is read from the new state |
| `Arc4.Generator.RandBytes` | legacy/src/arnd.rs:29-31 | the buffer holds the stream of its length and the state has made as many steps |
| `SizeClasses.LookupAgrees` | kernel/src/malloc/vm.rs:35-67 | for any classes that are multiples of the step, looking up a rounded request gives what linear search gives for the request, in bounds exactly if some class fits |
| `SizeClasses.AgreesExactly` | kernel/src/malloc/vm.rs:35-67 | for increasing classes this holds on every request if and only if every class is a multiple of the step |
| `SizeClasses.FirstIsLeast` | kernel/src/malloc/vm.rs:35-67 | among increasing classes the one found is the smallest that fits |
| `SizeClasses.EnterClass` | kernel/src/malloc/vm.rs:60-63 | the inner loop enters the class at exactly the requests for which it is the first that fits |
| `SizeClasses.HeapTable` | kernel/src/malloc/vm.rs:35-67 | the nested loops build a table that answers every request as linear search does |
| `SizeClasses.HeapIndexRounds` | kernel/src/malloc/vm.rs:96-108 | the masks round a request up to a multiple of 16 |
| `SizeClasses.HeapZoneFits` | kernel/src/malloc/vm.rs:96-108 | every request up to a page, and no other, gets a zone, and it is the smallest power of two from 16 up that holds it |
| `SizeClasses.BucketKeys` | kernel/src/uma/mod.rs:55-82 | the loops build a table that answers every count as linear search does |
| `SizeClasses.CountIs` | kernel/src/uma/zone.rs:74-108 | over any number of misses the count is the initial one plus the misses up to the greatest bucket, or fixed for mbuf zones, and never above the greatest bucket |
| `SizeClasses.CountsByName` | kernel/src/uma/zone.rs:74-108 | the counts in numbers, by name and flags, after any number of misses |
| `SizeClasses.BucketFits` | kernel/src/uma/zone.rs:281-282 | for every zone after any number of misses, the bucket lookup is in bounds exactly if the zone has a key table, as the bucket zones do not, and then gives the smallest bucket that holds the count |
| `SizeClasses.Zone.constructor` | kernel/src/uma/zone.rs:74-108 | type and initial count are those of the configuration |
| `SizeClasses.Zone.Miss` | kernel/src/uma/zone.rs:207-284 | a miss grows the count as described and gives a bucket that holds it; four kinds of zones have no such path, and a zone without a key table indexes past it |
| `Keg.RoundedLeast` | kernel/src/uma/keg.rs:114-120 | the rounded size is the least multiple of the alignment not below the item size and the smallest unit |
| `Keg.OnePageLayout` | kernel/src/uma/keg.rs:52-165 | for every size that fits a page and every power-of-two alignment: when the layout succeeds, and that the slab has the least aligned size, fits items, cells and header in the page with the items in front and no room for one more, and holds no item exactly if the rounded size with its cell is more than the room beside the header |
| `Keg.RefusedIs` | kernel/src/uma/keg.rs:118-133 | a one-page layout is refused as wasteful, in a keg neither internal nor cache-only, if 1638 bytes or more are left over and one more item would fit the bare page |
| `Keg.AlignedAway` | kernel/src/uma/keg.rs:94-133 | every alignment above a page gives a slab without items |
| `Keg.WholeCovers` | kernel/src/uma/keg.rs:94-111 | an item with pages of its own gets the least number of whole pages that covers it |
| `Keg.WholeDecides` | kernel/src/uma/keg.rs:94-165 | when an item with pages of its own gets a slab, flag by flag, and whether the header is on its pages |
| `Keg.WholeFits` | kernel/src/uma/keg.rs:157-165 | with the header on the same pages, the item stays clear of it if and only if the last page has room for it |

## Left out

- The branches that are `todo!()` in the source: middle insertion in the boot map, the other give-back
  cases, memory tests, blacklisted pages, VM heap blocks above a page, bucket and slab fetching. They
  end a run with `Aborts(Unimplemented)`.
- The values of the direct-memory configurations and how the mode is read: sizes and base mode are
  parameters, and a configuration is taken to have its flexible memory inside the game block.
- The text of the start-up log, the CPU model test and the parsing of environment values in
  `load_memory_map`.
- The end page that `setup` recomputes after trimming the message buffer, and the overflow of the
  debug-console end address for values near the end of the address space.
- The physical page allocator and the other parts of `Vm::new`; its free counts are the page counts
  outside the window and are not kept apart.
- Setup.Run: with memory tests switched on the model aborts after the walk, the source inside it,
  so the tables differ at the point of the abort.
- The already-loaded and name checks of `load`, the `relocate` loop over all modules, memory protection
  around it, and the last-size field of the TLS allocator.
- Tls.RunKeeps: alignment is stated for powers of two only, because the source does not align to
  anything else; `Tls.AlignsExactly` says so for every alignment.
- Relocation.PassesSound: asks for slots that do not overlap, because two entries on one word make
  the second read what the first wrote.
- Reading from and writing to the debugger's socket, and the end of the connection on an empty read.
  Bytes are characters.
- `VPathBuf::set_extension`, `join`, and comparison and formatting of paths.
- Reseeding of the generator, which the source does not do either, and the lock around it.
- Which alignment indexes the zone table: the tables of all alignments are built alike, and only one
  is modelled. Allocation statistics are left out.
- SizeClasses.Zone.Miss: models a miss with empty caches and no full or free bucket, up to the choice
  of the bucket zone, with buckets enabled; locks and per-CPU caches are left out.
- Kegs that spread their items over cache lines, and `fetch_slab`.
- The GUI, the hypervisor, devices, system calls, traps, and everything that only touches hardware.
