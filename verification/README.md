# Ribon: verified models of the boot runtime and its host tools

Ribon is a bounded boot runtime in C with host tools in Python. This project models its
most stateful parts in Dafny and proves what they promise. `dafny verify dfyconfig.toml`
checks everything.

| modules | what they model |
|---|---|
| `FatVolume`, `FatUpdate`, `FatAllocation`, `FatNames`, `FatStore`, `FatWriter` | the FAT32 composer of the host tools: an image changed in place, with one invariant over all chains, directories and files |
| `FatReader`, `FatDevice`, `FatAgreement`, `FatPublish` | the bounded FAT32 reader of the boot runtime, its agreement with the composer, and the disk between them byte for byte |
| `PluginGraph`, `PluginRegistry` | provider resolution, the dependency graph and its traversal |
| `MemoryMap` | normalization of physical memory maps |
| `BootTransaction` | the staged boot protocol, for every call sequence and every callback answer |
| `Elf64`, `ElfWriter`, `Placement` | ELF64 analysis, an independent writer of such images, and placement of the segments in physical memory |
| `BootConfig`, `BootConfigParser`, `BootConfigGrammar`, `BootConfigLaws`, `BootConfigSelect` | the boot configuration parser, the grammar it accepts, printer and selection |
| `UpdateLayout`, `UpdateIdentity`, `UpdateManifest`, `UpdateOffsets`, `Records` | update media layout, its identity record, the update manifest codec, and both formats by absolute offsets |
| `Crc32c` | the checksum of the update formats |
| `UpdateJournal` | the update journal under power cuts |
| `Bytes` | little-endian scalars and small facts used everywhere |

The main results, in the system's own terms:

- **FAT32.** Storing a file or creating a directory keeps the volume invariant (chains acyclic,
  ended and pairwise disjoint, directories quiet behind their end mark, no two files on one chain).
  It changes the map from (directory, name) to contents at exactly one place. A file that is in the
  map is opened by the boot-time reader under its path, and every read returns its exact bytes. So after
  putting a file, writing boot sector, both tables and clusters to a disk and mounting that disk, the
  stored path loads the stored bytes and every other file what it held before. Storing succeeds exactly when owned and free clusters suffice. The reader reports
  a cycle exactly for a directory that loops and never answers the search.
- **Registry.** A registry graph is accepted exactly when every requirement has its standing provider, in
  phase order, without a dependency cycle; the visiting order is then a start order.
- **Memory map.** Normalization yields the one canonical list of the source's address map, so two
  sources normalize alike exactly when they describe the same map.
- **Boot transaction.** Over any call sequence control leaves at most once, only behind a durable
  attempt record, and a direct transfer only behind a closed environment with the entry of the last
  complete plan. Nothing is read, planned or left but what the selection allows, said without the code's
  own checks. All budgets hold, including any number of refreshes.
- **ELF64.** An image is accepted exactly when it is loadable, and a refusal has the status of the first
  fault. Whatever a writer of the format puts down is analyzed to exactly that, and only that is loadable.
  Placement, also of a payload inside the window, loads every memory correctly exactly when no
  segment is placed over file bytes that a later segment still needs; a payload outside the window
  always satisfies that.
- **Boot configuration.** A text is accepted with exactly the entries that its lines spell by the grammar,
  and refused for its first faulty line. There are one to four complete entries with distinct ids;
  printing and parsing is the identity; blank lines, comments and line endings do not matter.
- **Update formats.** The manifest codec is a bijection between valid models and accepted byte
  strings, with every field at its published offset. A calculated layout tiles the medium and survives its identity record. CRC32C notices
  every change confined to 32 consecutive bits.
- **Update journal.** Whatever a power cut keeps of an unconfirmed write, the journal opens to the
  old or the new record. Over a whole life of commits, with a restart after a failure or without one
  while the journal still shows the old record, the record chain is exactly the commits that took effect.

Some promises turned out not to hold of the code. Each has a concrete failure and the exact condition
under which the promise does hold:

- An image placed from inside the window can be loaded wrongly: `Placement.PayloadInWindowFails`, and
  `Placement.PlacementExact` for when it cannot.
- A strict maximum of the priorities can be called ambiguous: `BootConfigSelect.OrderMatters`, and
  `BootConfigSelect.SelectExact`.
- Going on after a failed commit can lose the journal: `UpdateJournal.StaleRun` is such a run, and by
  `UpdateJournal.ContinueExact` it is safe, whatever became of the last flush, exactly when the journal
  still shows the record from before the commit.
- An interrupted initialization can leave a journal that never opens again: `UpdateJournal.BrickedRun`
  with `UpdateJournal.TornStaysCorrupt`, and `UpdateJournal.FirstCutExact` and `UpdateJournal.SecureIs`
  for when it cannot: before the first selector is touched, or once it is confirmed.

## Decisions

- A FAT volume is the table, as raw 32-bit words, and the data clusters; byte offsets inside the image
  become (cluster, index) pairs. The invariant takes as given what the composer's constructor does not
  check: the table covers every cluster, and directory bytes behind the end mark are zero.
- The catalogue of chains is ghost state. It names every chain and which of them are directories.
- Block devices may fail any read. A device marked `reliable` never does; the flag is part of the modelled
  device, not something the reader looks at.
- Masks of 64 plugins are numbers read bit by bit, with proofs that they stay within 64 bits.
- Provider callbacks of the boot transaction are parameters: every theorem holds for every answer.
  The log records which callbacks were made. The code never returns from a transfer; the model allows
  further calls and proves that they can do no harm.
- The journal idealises digests: a digest is the record it was taken of, and a torn area decodes to
  nothing. Writes may be lost or torn until a flush succeeds; a failed flush may keep any part.
- Where documentation and code differ the model follows the code. The header of the boot configuration
  says that ties are refused as ambiguous; the code also refuses a tie below the maximum when it comes
  first (src/config/boot_config.c:357-367). The layout decoder divides by the alignment before checking
  it, so a zero alignment ends in an exception; the model treats that as a refusal.

## Model

| member | source | states |
|---|---|---|
| FatWriter.Fat32Image.SetFatEntry | tools/compose_freebsd_uefi.py:139-144 | replaces the low 28 bits of one table word, keeps its top four bits and every other word, and refuses numbers out of range |
| FatWriter.Fat32Image.Chain | tools/compose_freebsd_uefi.py:151-167 | returns the complete chain from a cluster, and fails exactly when no acyclic, ended chain starts there |
| FatVolume.ChainUnique | tools/compose_freebsd_uefi.py:151-167 | two complete chains with one first cluster are the same chain |
| FatWriter.Fat32Image.DirectoryEntries | tools/compose_freebsd_uefi.py:169-185 | lists every slot of the chain with its place, as zeros behind the first end mark |
| FatWriter.Fat32Image.Allocate | tools/compose_freebsd_uefi.py:234-253 | succeeds exactly when owned and free clusters suffice, takes the owned chain first and then the lowest free clusters, and changes nothing on failure |
| FatAllocation.AllocatedIsChain | tools/compose_freebsd_uefi.py:234-253 | the table after an allocation holds the chosen clusters as one chain in the chosen order |
| FatAllocation.FreeConservation | tools/compose_freebsd_uefi.py:234-253 | free clusters change by exactly the clusters owned less the clusters taken |
| FatAllocation.NotEnough | tools/compose_freebsd_uefi.py:241-248 | an allocation that fails had fewer owned and free clusters than it asked for |
| FatAllocation.EnoughIff | tools/compose_freebsd_uefi.py:237-248 | an allocation succeeds exactly when the request is not empty and free and owned clusters cover it |
| FatAllocation.AllocationKeepsChains | tools/compose_freebsd_uefi.py:249-253 | an allocation over one chain leaves every other chain intact and all chains disjoint |
| FatWriter.Fat32Image.WriteClusters | tools/compose_freebsd_uefi.py:255-264 | the clusters hold the bytes followed by zeros, and no other cluster changes |
| FatNames.MadeEntry | tools/compose_freebsd_uefi.py:267-284 | a directory entry decodes to the name, attributes, cluster and size it was made from |
| FatWriter.Fat32Image.FreeDirectorySlot | tools/compose_freebsd_uefi.py:286-296 | yields the first vacant slot, growing a full directory by one zeroed cluster, and keeps the invariant and every file; fails exactly when the directory and the volume are both full |
| FatUpdate.ExtendDirectory | tools/compose_freebsd_uefi.py:291-296 | linking a zeroed cluster behind a full directory keeps the invariant and every lookup |
| FatUpdate.StoredNodes | tools/compose_freebsd_uefi.py:320-337 | rewriting one chain and one slot makes the named file hold the new bytes and leaves every other lookup unchanged |
| FatWriter.Fat32Image.CreateFile | tools/compose_freebsd_uefi.py:331-337 | a new file is found with exactly its bytes and nothing else changes; succeeds exactly when free clusters cover the file and, for a full directory, one more |
| FatWriter.Fat32Image.ReplaceFile | tools/compose_freebsd_uefi.py:331-337 | a rewritten file holds exactly the new bytes, longer or shorter, and nothing else changes; succeeds exactly when its own and the free clusters cover them |
| FatWriter.Fat32Image.PutFile | tools/compose_freebsd_uefi.py:320-337 | keeps the volume invariant; on success the map changes at exactly (directory, name) to the given bytes; on failure no lookup changes; succeeds exactly when the name is free or the only one and of a file, and the clusters suffice |
| FatWriter.Fat32Image.CreateDirectory | tools/compose_freebsd_uefi.py:312-318 | adds one empty directory at (parent, name), whose own entries lead to itself and to the parent, keeps the invariant and every other lookup; succeeds exactly when one free cluster, or two for a full parent, are left |
| FatWriter.Fat32Image.EnsureDirectory | tools/compose_freebsd_uefi.py:298-318 | finds the only directory of the name without a change, or creates it with entries leading to itself and to the parent; keeps the invariant; exactly when it succeeds |
| FatDevice.MountVolume | src/filesystems/fat32.c:249-328 | mounts exactly the boot sectors that describe a consistent FAT32 volume inside the partition, with the geometry they describe |
| FatDevice.MountGeometry | src/filesystems/fat32.c:304-328 | after mounting, every block derived from a cluster number lies inside the partition |
| FatDevice.MountPlaces | src/filesystems/fat32.c:304-328 | table words are read from the first table, no block of a cluster lies in any table copy, and the clusters end less than one cluster before the volume |
| FatDevice.ClusterFirstBlock | src/filesystems/fat32.c:52-71 | on a mounted volume the overflow guards never fire: it fails exactly for numbers that are no data cluster |
| FatDevice.NextCluster | src/filesystems/fat32.c:74-105 | follows the table word of a cluster: next cluster, end of chain, or corrupt |
| FatDevice.FindDirectoryEntry | src/filesystems/fat32.c:159-217 | without an I/O failure the bounded block-wise search is the scan of the presented volume |
| FatReader.ScanOfChain | src/filesystems/fat32.c:166-216 | on a proper chain the bounded scan finds the first visible entry of the name and the bound never shows |
| FatReader.FoundIsPlain | src/filesystems/fat32.c:179-200 | what a search finds carries the name and is neither vacant, nor part of a long name, nor a volume label |
| FatReader.CycleIsReal | src/filesystems/fat32.c:166-216 | a scan reports a cycle only if its walk visits a cluster twice |
| FatReader.LoopGoesOn | src/filesystems/fat32.c:166-216 | a walk that revisits a cluster goes on for ever |
| FatReader.CycleExact | src/filesystems/fat32.c:159-216 | a scan reports a cycle exactly when the directory loops and no cluster it ever visits holds the name or an end mark |
| FatDevice.MakeShortName | src/filesystems/fat32.c:108-157 | yields the padded upper-case name of exactly the accepted components |
| FatReader.ReaderNameBytes | src/filesystems/fat32.c:108-157 | the short name byte by byte: letters in upper case, both halves filled up with spaces |
| FatReader.NamesAgree | tools/compose_freebsd_uefi.py:49-64 | the reader accepts exactly the composer's names without back quotes and braces, and maps them alike |
| FatDevice.Open | src/filesystems/fat32.c:332-393 | without an I/O failure opening a path is the component-wise resolution of the presented volume |
| FatDevice.ReadFile | src/filesystems/fat32.c:395-478 | without an I/O failure a read returns the specified bytes or the specified fault, and touches nothing behind the request |
| FatReader.ReadExact | src/filesystems/fat32.c:402-477 | exactly when a read succeeds, and that it returns that slice of the concatenated cluster walk |
| FatReader.ReadCycleIsReal | src/filesystems/fat32.c:433-477 | a read reports a cycle only if its walk visits a cluster twice |
| FatReader.ReadCycleExact | src/filesystems/fat32.c:433-477 | a read reports a cycle exactly when the file loops and the request spans more clusters than the volume has |
| FatReader.ReadOfChain | src/filesystems/fat32.c:402-477 | on a chain long enough for the file every request succeeds, so the step bound never fails a read |
| FatReader.SplitRead | src/filesystems/fat32.c:395-478 | two adjacent reads return the halves of one read |
| FatAgreement.ScanIsLookup | src/filesystems/fat32.c:159-216 | the reader's scan of a directory is the lookup of the name in the file-system map |
| FatAgreement.StoredFileIsRead | src/filesystems/fat32.c:332-478 | every non-empty file of the map is opened under its path, with its size, and every read of it returns its bytes |
| FatAgreement.OpenExact | src/filesystems/fat32.c:332-393 | exactly which acceptable paths open, in terms of the file-system map, and with which status the others are refused |
| FatAgreement.ResolveSame | tools/compose_freebsd_uefi.py:320-337 | while the directories of the map stay, every directory path leads to the same directory |
| FatAgreement.FlushedPresents | tools/compose_freebsd_uefi.py:339-343 | a device that holds the flushed table and clusters presents exactly the composed volume |
| FatAgreement.Load | src/filesystems/fat32.c:332-478 | a file that is readable on the presented volume arrives in the buffer exactly, or a read failed |
| FatAgreement.FlushedReadable | src/filesystems/fat32.c:332-478 | on a device flushed from a volume every non-empty file of the map is readable under its path |
| FatAgreement.PutForReader | tools/compose_freebsd_uefi.py:320-337 | a file put where a path leads is shown there with its bytes, and every other file as before; succeeds exactly when the clusters suffice |
| FatAgreement.PutThenLoad | tools/compose_freebsd_uefi.py:320-343 | a file put where a path leads is loaded with exactly its bytes from any device flushed afterwards, and every other file with the bytes it held before |
| FatPublish.BootReads | src/filesystems/fat32.c:286-297 | the reader sees every field of a written boot sector |
| FatPublish.BootAccepted | src/filesystems/fat32.c:297-326 | of the boot sectors the composer accepts the reader mounts exactly those with a power-of-two cluster, no fixed root directory, a cluster count of FAT32 and a root inside |
| FatPublish.DiskIsFlushed | tools/compose_freebsd_uefi.py:102-105 | on the written disk table and clusters stand exactly where the mounted reader looks for them |
| FatPublish.PublishAndMount | src/filesystems/fat32.c:249-328 | a composed disk mounts exactly when the further checks of the reader pass, and then presents the composed volume |
| FatPublish.ComposeAndBoot | tools/compose_freebsd_uefi.py:320-352 | put a file, write the disk, mount it, load any path: mounts exactly when the further checks of the reader pass; then the stored path loads the stored bytes and every other file what it held before |
| PluginRegistry.IsSelectedProvider | src/core/registry.c:45-59 | true exactly when the plugin provides the capability and a selection names its kind and id |
| PluginRegistry.ResolutionMeaning | src/core/registry.c:128-172 | a capability resolves to a plugin exactly when that is its only provider or, without authority, the only selected one |
| PluginRegistry.RefusalMeaning | src/core/registry.c:128-172 | which providers and selections lead to each refusal: none provides it, two provide an authority, or the selection is not single |
| PluginRegistry.FindProvider | src/core/registry.c:128-172 | one pass over the registry computes the resolution, with the status of every refusal |
| PluginRegistry.VerdictMeans | src/core/registry.c:278-309 | a requirement is judged exactly as the plugins and the product call for, said without the resolution |
| PluginRegistry.Aggregate | src/core/registry.c:232-232 | the union mask has a bit exactly when some plugin provides it |
| PluginRegistry.LinkConsumer | src/core/registry.c:278-309 | enters exactly the standing providers one consumer depends on, counts them, and reports the first fault with its reason |
| PluginRegistry.BuildGraph | src/core/registry.c:278-309 | masks and indegrees describe exactly the resolved dependencies, or the first fault in order is reported |
| PluginGraph.SetBitFits | src/core/registry.c:305-308 | setting the bit of a plugin below the limit keeps a mask within its width |
| PluginGraph.CollectRoots | src/core/registry.c:312-316 | the ready stack starts with exactly the plugins without predecessors |
| PluginGraph.Release | src/core/registry.c:318-329 | visiting a plugin lowers exactly its consumers, never below zero, and the stack stays within the plugin count |
| PluginGraph.TopologicalIsAcyclic | src/core/registry.c:312-333 | an order of all nodes with predecessors first excludes every cycle |
| PluginGraph.StuckIsCyclic | src/core/registry.c:317-333 | nodes that each have a predecessor among themselves contain a cycle |
| PluginGraph.Traverse | src/core/registry.c:312-333 | visits all nodes exactly when the graph has no cycle, in topological order |
| PluginRegistry.ValidateGraph | src/core/registry.c:278-333 | accepted exactly when every requirement has a standing provider in phase order and no dependency cycle exists; the order is then a start order; otherwise the first fault or the cycle is reported |
| PluginRegistry.PhasesAscend | src/core/registry.c:301-304 | along every chain of dependencies of an accepted registry the phases never decrease |
| MemoryMap.CanonicalUnique | src/core/memory.c:115-144 | an address map has at most one sorted, disjoint, maximally merged list |
| MemoryMap.InsertStep | src/core/memory.c:93-112 | insertion keeps order, members, overlaps and usable bytes |
| MemoryMap.MergedIs | src/core/memory.c:115-144 | merging an ordered list gives its canonical list, with the same map and usable bytes |
| MemoryMap.OrderedIsDisjoint | src/core/memory.c:130-132 | in a sorted list two regions intersect exactly when two neighbours do |
| MemoryMap.MutableMemoryMap.InsertSorted | src/core/memory.c:93-112 | inserts in place behind every region that does not start later, or reports a full map unchanged |
| MemoryMap.MutableMemoryMap.MergeAdjacent | src/core/memory.c:115-144 | merges in place; overlap exactly when neighbours overlap; the overflow statuses never occur |
| MemoryMap.MutableMemoryMap.Normalize | src/core/memory.c:146-166 | every status exactly: bad argument, out of capacity, overlap if and only if two source regions intersect; success yields the normal form |
| MemoryMap.NormalFormsAgree | src/core/memory.c:93-166 | two sources normalize to the same list exactly when they describe the same address map |
| MemoryMap.UsableFits | src/core/memory.c:169-187 | disjoint valid regions never hold more usable bytes than 64 bits count |
| MemoryMap.UsableBytes | src/core/memory.c:169-187 | the saturating sum of usable lengths, which never saturates for disjoint valid regions |
| BootTransaction.Transaction.constructor | src/common/boot.c:434-487 | a fresh transaction has consumed nothing; one that failed initialization is not live |
| BootTransaction.Transaction.Fail | src/common/boot.c:49-69 | failure is the terminal stage, with a receipt of exactly what was consumed |
| BootTransaction.AdmittedMayRead | src/common/boot.c:496-565 | what passes the capture, environment and source checks is exactly what the selection lets be read |
| BootTransaction.Transaction.ReadSource | src/common/boot.c:577-591 | succeeds exactly if one of the first maximum-plus-one reads does, reads no more often, and logs exactly the reads made |
| BootTransaction.Transaction.LayoutPlan | src/common/boot.c:263-382 | the exact status of laying out a plan: deadlines, transition tables, handoff within the rest of the budget, in this order |
| BootTransaction.Transaction.SealEntry | src/common/boot.c:383-426 | the exact status of a terminal request, and which entry is sealed, with the transition root if bridged |
| BootTransaction.PlannableIs | src/common/boot.c:263-431 | what can be planned is exactly what the selection lets be planned, within the rest of the output budget |
| BootTransaction.Transaction.PreparePlan | src/common/boot.c:263-431 | success exactly when plannable, otherwise the first failing condition's status; the plan's artifact is charged once and its entry is the one logged |
| BootTransaction.Transaction.Prepare | src/common/boot.c:490-656 | success exactly when live, in the capture stage and preparable, otherwise the status of the first failing stage; the log is exactly the reads made and the plan, so no durable state is touched |
| BootTransaction.Transaction.CommitAttempt | src/common/boot.c:666-714 | success exactly from the prepared stage with write and flush done, in that order; on failure the status and exactly the callbacks made |
| BootTransaction.RecordReads | src/common/boot.c:689-703 | the attempt record carries its mark, the stage, the protocol version, the consumed input, the artifact size and both entry addresses |
| BootTransaction.Transaction.RefreshAfterCommit | src/common/boot.c:717-740 | the exact status; rebuilds only the handoff plan, within the remaining output budget, and stays committed |
| BootTransaction.Transaction.QuiesceEnvironment | src/common/boot.c:743-771 | success exactly from the committed stage of a direct entry with a quiesced environment, and which status otherwise |
| BootTransaction.Transaction.ExecuteTerminal | src/common/boot.c:774-829 | launches exactly from the committed stage of a managed image, and the transaction is over afterwards, timed out or failed |
| BootTransaction.Transaction.TransferControl | src/common/boot.c:846-864 | transfers exactly from the quiesced stage with a sealed entry |
| BootTransaction.Run | src/common/boot.c:490-864 | any calls with any answers: control leaves at most once and only as the protocol allows, everything read, planned and left is what the selection allows, and every budget holds |
| BootTransaction.RunAfterFailure | src/common/boot.c:49-69 | after a failure no call sequence makes another callback or leaves the failed stage |
| Elf64.ExtentHull | src/image-formats/elf64.c:236-259 | the load, virtual and linked physical ranges are the tight hulls of what they span, and the linked range exists exactly when a segment has a linked address |
| Elf64.ExtentEntry | src/image-formats/elf64.c:260-265 | an entry address exists exactly when an executable segment holds the entry; it is the entry's offset in the last such segment |
| Elf64.CheckSegment | src/image-formats/elf64.c:184-221 | the status of one header: format, alignment, overflow, truncation, overlap, capacity, in this order |
| Elf64.ScanTable | src/image-formats/elf64.c:165-266 | records exactly the loadable headers in order, pairwise disjoint, or refuses an image that is not loadable with the status of its first faulty header |
| Elf64.Analyze | src/image-formats/elf64.c:97-306 | accepted exactly when loadable; the plan then describes the image: sound disjoint segments, tight hulls, placed entry; otherwise the status of the header, of the first faulty program header, or of a missing segment or entry |
| ElfWriter.ImageReads | src/image-formats/elf64.c:141-174 | every field of every header of a written image is read back |
| ElfWriter.HeaderExact | src/image-formats/elf64.c:130-156 | the accepted file headers are exactly the written ones with at least one program header |
| ElfWriter.WrittenIsLoadable | src/image-formats/elf64.c:97-306 | the image of any writable, disjoint segments with an executable entry is loadable as exactly those |
| ElfWriter.LoadableIsWritten | src/image-formats/elf64.c:97-306 | every loadable image has a written file header and only writable, disjoint segments with an executable entry |
| ElfWriter.AnalyzeWritten | src/image-formats/elf64.c:97-306 | analyzing a written image of disjoint segments gives exactly those segments and the entry |
| Placement.PlaceSegment | products/bootmgr/raw_fdt_main.c:138-154 | the destination holds the file bytes followed by zeros and nothing else changes, also for a segment already in place |
| Placement.PlacementExact | products/bootmgr/raw_fdt_main.c:116-167 | every memory is loaded correctly exactly when no segment is placed over bytes a later one still needs |
| Placement.PayloadInWindowFails | products/bootmgr/raw_fdt_main.c:146-151 | an image of two segments that passes every check, placed from inside the window, has its second segment loaded wrongly |
| Placement.OutsideIsUndisturbed | products/bootmgr/raw_fdt_main.c:129-137 | a payload outside the window is never disturbed |
| Placement.HoldsSlices | products/bootmgr/raw_fdt_main.c:152-153 | a correctly loaded segment is its file slice followed by zeros |
| Placement.PlacePayload | products/bootmgr/raw_fdt_main.c:116-167 | success exactly when every segment is placeable and synced; writes stay inside the window |
| Placement.LoadImage | products/bootmgr/raw_fdt_main.c:116-167 | succeeds exactly when the image is loadable and every segment placeable and synced; then memory is the placement of its segments, in place or copied, the runtime entry lies in an executable segment, and every segment is loaded if none is disturbed, as with a payload outside the window |
| BootConfigParser.ParsePriority | src/config/boot_config.c:73-92 | the decimal value of a digit string that fits 32 bits, and nothing else |
| BootConfigParser.PathIsValid | src/config/boot_config.c:42-70 | true exactly for absolute paths of one to eight components of allowed bytes, none made of dots alone |
| BootConfigParser.ApplyKey | src/config/boot_config.c:103-194 | the effect of one key on the entry, or its status; `ApplyExact` says which field that is |
| BootConfigGrammar.ApplyExact | src/config/boot_config.c:103-194 | a key sets exactly its own field, or is refused for its own reason |
| BootConfigParser.ApplyLine | src/config/boot_config.c:268-336 | the effect of one line on the parser state, or its status |
| BootConfigParser.Parse | src/config/boot_config.c:246-343 | the result of a text is the fold of its lines; `ParseExact` says which entries that is |
| BootConfigGrammar.ParseExact | src/config/boot_config.c:246-343 | a text is accepted with exactly the entries its lines spell as blocks of keys, each complete, with distinct ids |
| BootConfigGrammar.RefusalExplained | src/config/boot_config.c:246-343 | every refusal is that of the first faulty line, or of an entry left open or missing |
| BootConfigLaws.ParsedIsSound | src/config/boot_config.c:246-343 | every accepted text has one to four complete entries, distinct ids, canonical paths and modules within capacity |
| BootConfigLaws.BlankLineIgnored | src/config/boot_config.c:272-275 | a blank or comment line at any line boundary changes nothing |
| BootConfigLaws.LineEndingsAgree | src/config/boot_config.c:269-271 | turning every LF of a CR-free text into CRLF changes nothing |
| BootConfigLaws.Print | tools/make_boot_config.py:32-46 | writes the lines of one entry, each ended by a line feed |
| BootConfigLaws.RoundTrip | tools/make_boot_config.py:32-46 | parsing the printed text of any well-formed entry yields exactly that entry |
| BootConfigSelect.Select | src/config/boot_config.c:346-370 | success exactly when complete and without a tie with the best so far; the selected entry is the strict maximum |
| BootConfigSelect.SelectExact | src/config/boot_config.c:357-367 | success is exactly a strict maximum with no tie among the entries in front of it |
| BootConfigSelect.OrderMatters | src/config/boot_config.c:357-367 | priorities 1, 1, 5 are ambiguous although 5 is the strict maximum, while 5, 1, 1 are not |
| BootConfigSelect.PrintedIsSelected | tools/make_boot_config.py:32-46 | printing an entry, parsing the text and selecting gives back the entry and selects it |
| BootConfigSelect.SelectParsed | src/config/boot_config.c:246-370 | among accepted texts selection refuses exactly those with a tie, as ambiguous |
| UpdateLayout.MaskRounds | tools/update_layout.py:77-82 | adding and masking with a power of two is rounding up to the next multiple |
| UpdateLayout.WrapIsTooLarge | tools/update_layout.py:80-81 | a scalar whose rounding would wrap is too large for every 64-bit capacity |
| UpdateLayout.CalculateLayout | tools/update_layout.py:108-142 | a layout exists exactly when the rounded regions fit; it tiles the medium, aligned and non-empty, each region under its own kind and covering its own request, with equal slots and the requested tail |
| UpdateIdentity.EncodeIdentity | tools/update_layout.py:145-174 | writes the canonical 512-byte record of eleven regions |
| UpdateOffsets.IdentityFields | tools/update_layout.py:145-174 | every field of an identity record by its absolute offset |
| UpdateIdentity.EncodedIsCanonical | tools/inspect_qemu_update_disk.py:35-61 | the record of every tiling is accepted and yields the same regions |
| UpdateIdentity.ReencodesIff | tools/inspect_qemu_update_disk.py:38-46 | the fixed bytes are right exactly when re-encoding what was read reproduces the record |
| UpdateIdentity.LayoutRegions | tools/inspect_qemu_update_disk.py:35-61 | accepts exactly the records that are the encoding of a tiling |
| UpdateIdentity.CalculateAndDecode | tools/update_layout.py:108-174 | every calculated layout is read back by the independent decoder |
| UpdateManifest.EncodeManifest | tools/update_manifest.py:314-393 | writes the canonical bytes; only a generation not above its predecessor is refused |
| UpdateManifest.CodecIsBijective | tools/update_manifest.py:314-393 | the encoding of every valid model is accepted and read back field by field |
| UpdateManifest.ReencodesIff | tools/update_manifest.py:423-464 | the fixed bytes are right exactly when re-encoding what was read reproduces the input |
| UpdateManifest.ReadRows | tools/update_manifest.py:465-512 | accepts exactly rows with valid scalars, distinct identities, single singleton roles and disjoint ranges |
| UpdateManifest.ValidateManifest | tools/update_manifest.py:423-540 | accepts exactly the encodings of valid models and returns the model |
| UpdateOffsets.HeaderFields | tools/update_manifest.py:314-393 | every header field of a manifest by its absolute offset |
| UpdateOffsets.BindingFields | tools/update_manifest.py:314-393 | every field of the binding by its absolute offset |
| UpdateOffsets.ComponentFields | tools/update_manifest.py:314-393 | every field of a component row by its absolute offset |
| UpdateOffsets.AcceptedBytes | tools/update_manifest.py:423-512 | what an accepted manifest says in its bytes: generation above predecessor, hardware range, each component in order and within its bound |
| UpdateOffsets.AcceptedPairs | tools/update_manifest.py:465-512 | two components of an accepted manifest differ in identity, have disjoint ranges and share no singleton role, by absolute offsets |
| Crc32c.MaskedCrc | tools/update_layout.py:232-241 | the mask-selected loop computes the checksum |
| Crc32c.BranchingCrc | tools/inspect_qemu_boot_confirmation.py:25-31 | the branching loop computes the same checksum |
| Crc32c.AbsorbIsBijective | tools/update_layout.py:237-240 | the update by one byte is a bijection on 32-bit states |
| Crc32c.BurstDetected | tools/update_layout.py:232-241 | any change confined to 32 consecutive bits changes the checksum |
| Crc32c.BytesDetected | tools/update_layout.py:232-241 | strings of one length that differ only within four consecutive bytes have different checksums |
| Crc32c.EmptyCrc | tools/update_layout.py:232-241 | the empty string has checksum zero |
| Crc32c.ResidueIsConstant | tools/update_layout.py:232-241 | a string followed by its own checksum always has the checksum 0x48674BC7 |
| UpdateJournal.OpenedIsStable | src/update/transaction.c:403-468 | opening succeeds exactly on stable media above the replay floor, and yields what is stable |
| UpdateJournal.Journal.Open | src/update/transaction.c:403-468 | the outcome of reading both selectors and the chosen record, or the status of the first failing read |
| UpdateJournal.Journal.StoreRecord | src/update/transaction.c:517-545 | the exact store and status after every answer; success means the next record is durable and read back; the slot in use is never touched |
| UpdateJournal.Journal.SwitchSelector | src/update/transaction.c:546-562 | the exact store and status after every answer; success means the other selector durably names the next record; while it is not shown nothing of it is durable |
| UpdateJournal.Journal.CommitRecord | src/update/transaction.c:472-578 | the exact store and the exact status, also of a failing reopen; success opens to the next record; failure from agreeing media leaves only states between the old and the next record |
| UpdateJournal.CommitPends | src/update/transaction.c:511-562 | a commit from media that agree on the current record leaves only states between the old and the next record |
| UpdateJournal.StillCalm | src/update/transaction.c:546-562 | a failed commit that still shows the old record has confirmed nothing else |
| UpdateJournal.CutIsAtomic | src/update/transaction.c:472-578 | whatever a power cut keeps, the journal opens to the old record or the next |
| UpdateJournal.Journal.Initialize | src/update/transaction.c:581-607 | anything but an empty journal is left alone, with its status; exactly when it succeeds; success opens to the first record |
| UpdateJournal.Run | src/update/transaction.c:472-578 | over any life of commits, failures, restarts and continuations the record chain is exactly the commits that took effect, with every reported one among them |
| UpdateJournal.FirstCut | src/update/transaction.c:581-607 | a power cut during initialization leaves an empty journal, the first record, or exactly for a torn first selector a corrupt journal |
| UpdateJournal.FirstCutExact | src/update/transaction.c:511-562 | which answers and which power cuts end in a corrupt journal; all others leave it empty or opening to the first record |
| UpdateJournal.SecureIs | src/update/transaction.c:545-562 | no power cut bricks the journal exactly when the first selector was not reached, not touched, or confirmed |
| UpdateJournal.InterruptedInitialize | src/update/transaction.c:581-607 | an initialization cut off anywhere is corrupt exactly as characterised, else it opens or is empty and can be tried again |
| UpdateJournal.BrickedRun | src/update/transaction.c:548-552 | a run on an empty journal whose torn selector write leaves it corrupt |
| UpdateJournal.TornStaysCorrupt | src/update/transaction.c:429-433 | with a torn first selector no later initialization succeeds |
| UpdateJournal.ContinueIffDurable | src/update/transaction.c:472-578 | going on behind what is read is safe for the whole next commit exactly when the confirmed media open to it, or no commit can follow |
| UpdateJournal.ContinueExact | src/update/transaction.c:472-578 | whatever became of the last flush, going on after a failed commit is safe exactly when the journal still shows the record from before, or one that no commit can follow |
| UpdateJournal.StaleRun | src/update/transaction.c:472-578 | a run of two commits without a restart between them, the first failing at its last flush, after which nothing opens |

## Left out

- The composer's own `find` and `read_file`, its partition table and FSInfo hints, and its seeks and writes on a file: the reader of the runtime covers reading, the written disk is one value, and its reserved sectors may hold anything.
- Upper-casing of names outside ASCII in the composer: components are byte strings, and the composer encodes names as ASCII.
- Aliasing of the scratch sector and of caller buffers in the FAT32 reader: blocks are values there.
- The parts of the registry validation before edge construction (descriptor shape, arena budget, counts of kinds, required capabilities): single-pass checks.
- Contents of a normalization target after a failed normalization, and a source that shares storage with the target.
- The fields of the boot plan that no decision depends on, the environment record beyond what the checks use, relocation of relative images, and the deadline arithmetic: a deadline is the status it returns.
- BootTransaction.Run: says nothing about components of managed images, which the code does not compare with the component limit.
- The power-of-two check of an ELF alignment is modelled by halving instead of masking.
- The envelope and the signed message of the update manifest, SHA-256 and Ed25519: digests are arbitrary nonzero strings of 32 bytes.
- In-place filling of byte buffers by the Python encoders: the encoders append pieces to a growing string.
- The byte formats of journal records and selectors, the slot metadata transitions and the installer around the journal.
- Firmware services, supervisors, packaging and report tools: process control, file and network access.
