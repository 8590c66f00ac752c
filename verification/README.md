# AeroOS in Dafny

A model of the parts of AeroOS in which something can go wrong that no single function shows: who owns a page frame,
what a process sees after `fork`, what a disk holds after a write, who runs next, and which window a pixel belongs to.
Every operation is a method or a function with the branches, constants and error paths of the code it models, and
every main result is a statement about all inputs, all runs or all reachable states.

## How the project is laid out

| files | part of the system |
|---|---|
| `Wrappers`, `Bytes`, `Paging` | results, little-endian integers, page-table words |
| `Spaces`, `Ownership`, `VirtualMemory` | page tables as trees, frame ownership, address translation |
| `AddressSpace`, `Boot`, `Fork`, `Reclaim`, `Isolation`, `MemoryRuns` | the frame allocator and address spaces, updated in place |
| `ElfFormat`, `ElfImage`, `Loading`, `ElfLoader` | the ELF loader |
| `Disk`, `FatTable`, `FatFile`, `FatLayout`, `FatDir`, `FatScan`, `FatTree`, `FatState`, `FatSearch`, `Fat32` | the disk and the FAT32 driver |
| `FatImage`, `FatBoot`, `FatRemount` | the build script's partition, booting from it, and mounting it again after a write |
| `Processes`, `Kernel`, `KernelSafety`, `KernelFairness`, `ForkResume` | processes, scheduling, signals, kernel stacks |
| `Windows`, `Compositor`, `Dragging` | the window manager |
| `Bresenham`, `Mounts` | line drawing, mount resolution |

State that the program updates in place is a class (`Machine`, `Driver`, `ProcessTable`, `KernelStack`, `WindowList`,
`Screen`, `InputRouter`, `Vfs`, `Ata`); each method states its new state as a function of the old one or outright, and
the laws are lemmas about those functions. Ghost state (the tree of a space, the chain of an inode) records what the
code only implies.

## What the model takes for granted

- Frames are named by their number (address / 4096); a frame's content is 512 words or, equivalently, 4096 bytes.
- The 512-entry loops of clone and dealloc, nested four deep in the code, are one method per entry and one per table,
  which call each other; the loop over the entries is a loop.
- `map_to` of the `x86_64` crate creates clean intermediate tables, adds flags to existing ones, refuses huge entries and
  pages that are already mapped, and sets the leaf. The processor grants a right only if every level of the walk does.
- Some PML4 slots are the kernel's (`kernelSlots`, never slot 0): present and not user accessible in every space. User
  pages lie in other slots below 256. The active page table (CR3) is a parameter.
- One interrupt, system call or disk command is one step. In particular `fork` is atomic, although the code enables
  interrupts between making the child Ready and building its stack (`kernel/src/syscalls/mod.rs:1128-1138`), and locks
  are always free.
- Pids, window ids, z-orders and inode numbers do not overflow.

## What the code does that its comments do not say

Where a member is named, it proves the fact, with the exact condition where there is one.

- A process's stack lies under PML4 slot 255, and `dealloc_user` walks slot 0 only: the stack is never given back
  (`MemoryRuns.StackIsLeaked`).
- A page that a read-only segment shares with a later writable one stays read-only: the loader reuses the mapping and its
  flags (`Loading.GrantedIff`). Every page is executable, whatever its segment says (`ElfLoader.LoadElf`).
- `write` picks the cluster by `(pos - offset) / bpc` and the place in it by `pos % bpc`: it is an overwrite of the flat
  file exactly when the offset is 0 or the write ends in the first cluster (`FatFile.WriteCorrectIff`).
- A directory entry's first cluster is never rewritten. After a write or truncation it names the file exactly if the chain
  was empty before and after, or neither (`FatState.EntryNamesIff`). So a file that is created, written and opened again
  by name is empty (`Fat32.Driver.CreateWriteReopen`), and a file truncated to nothing leaves an entry that names a free
  cluster (`Fat32.Driver.TruncateThenLookup`).
- All files without clusters share one inode: two creates in a row return the same one (`Fat32.Driver.CreateTwice`).
- `unlink` frees the chain its directory entry names, whoever has it. A file keeps its chain exactly when none of those
  clusters is in it (`FatState.ClearKeepsIff`); a stale entry destroys another file (`FatState.StaleEntryDestroys`).
- The allocator hands out 26 clusters that lie behind the data area (`FatBoot.PhantomClusters`).
- An empty SYSUTILS would share README's first cluster and so its inode (`FatBoot.HeadsDistinctIff`).
- The build script counts boot sectors before padding: the MBR points at the partition exactly when the boot image is a
  whole number of sectors (`FatBoot.AppendPartition`).
- `exec` refills the caller's time slice: a process that calls it every four ticks is never preempted, for any number of
  rounds (`KernelFairness.ExecStarves`); in general an exec costs a waiting process one slice (`KernelFairness.TickBound`).
  It also revives a caller that was killed (`KernelSafety.ExecRevivesIff`).
- `exit` by pid 0 turns a free slot into a zombie (`KernelSafety.ExitKeepsIff`).
- Signals above 32 wrap: 41, 47, 73 and so on set the pending bits of SIGKILL and SIGTERM, and then the timer kills
  (`KernelSafety.KillQuietIff`).
- `waitpid(-1)` waits for the child in the first slot even if another one is dead (`KernelSafety.WaitAnyReapsIff`).
- `deliver_pending_into` says that it clears the other pending signals; it clears only bits 8 and 14, which are clear by then
  (`KernelSafety.DeliverClearsNothing`).
- Windows less than 12 wide paint outside their bounds (`Compositor.PaintsInsideIff`), and every window lets the ones
  below shine through in two columns and a few rows of its frame, and where its content buffer is too short
  (`Compositor.ShowsThroughIff`).
- `set_focus(0)` marks every empty slot as focused, so only live windows count (`Windows.FocusNone`). `destroy(0)` empties an
  empty slot and miscounts (`Windows.DestroyKeepsIff`).

## Model

| member | source | states |
|---|---|---|
| `AddressSpace.Machine.Init` | kernel/src/memory/frame_allocator.rs:41-67 | boot pushes only whole frames of usable regions, each once, and all of them if the stack has room; the ownership invariant holds |
| `AddressSpace.Machine.AllocateFrame` | kernel/src/memory/frame_allocator.rs:76-87 | pops the top frame, zeroed and owned by nobody; fails only on an empty stack; no space changes |
| `AddressSpace.Machine.DeallocateFrame` | kernel/src/memory/frame_allocator.rs:90-96 | pushes the frame, or drops it when the stack is full |
| `Ownership.NotFull` | kernel/src/memory/frame_allocator.rs:90-93 | the full-stack branch is unreachable: an allocated frame of the pool always fits back |
| `Ownership.PopKeeps` | kernel/src/memory/frame_allocator.rs:76-87 | an allocation keeps the ownership invariant: no duplicate on the stack, no free frame in a space, spaces disjoint |
| `Ownership.HangKeeps` | kernel/src/memory/page_table.rs:290-320 | linking a frame nobody owns into a table keeps the invariant and the other spaces; a leaf adds exactly one page to the flat map |
| `Ownership.RelinkKeeps` | kernel/src/memory/page_table.rs:290-320 | adding rights to the entry of an existing table keeps the invariant: pages, other spaces, kernel slots, and that no entry denies what one below it grants |
| `Reclaim.PushKeeps` | kernel/src/memory/frame_allocator.rs:90-96 | returning a frame that no space owns keeps the invariant, so nothing is freed twice |
| `AddressSpace.Machine.NewUser` | kernel/src/memory/page_table.rs:116-163 | a new space: a fresh PML4 with no user page, whose kernel slots hold the very words of the active table; everything else untouched; fails only without a free frame |
| `AddressSpace.Machine.MapUserPage` | kernel/src/memory/page_table.rs:290-320 | maps exactly one new page of one space, or fails without changing any page; it fails only when out of frames, when the page is mapped, or at a huge page; the frame keeps its bytes, and only free frames become tables |
| `AddressSpace.Machine.MapUserPageAlloc` | kernel/src/memory/page_table.rs:327-351 | maps a zeroed frame nobody else owns; a failed mapping leaks the frame and changes no page |
| `VirtualMemory.SplitOfPage` | kernel/src/memory/page_table.rs:245-249 | splitting the address that clone composes from four indices gives the indices back |
| `VirtualMemory.PageOfSplit` | kernel/src/memory/page_table.rs:357-362 | composing the indices of an address gives its page back |
| `VirtualMemory.OrIsPlus` | kernel/src/memory/page_table.rs:245-248 | the shifted indices occupy different bits, so or-ing them is adding them |
| `VirtualMemory.TranslateFlat` | kernel/src/memory/page_table.rs:357-391 | the four-level walk of `translate` finds an address exactly when the flat map of the space has its page |
| `VirtualMemory.AccessFlat` | kernel/src/memory/page_table.rs:290-320 | the rights at a mapped page, asked at every level of the walk, are those of its leaf entry: no table entry takes one away |
| `AddressSpace.Machine.CloneUserSpace` | kernel/src/memory/page_table.rs:182-273 | on success the child maps exactly the parent's user pages, same flags and bytes, on frames of its own, its kernel slots are the active table's words, and nothing else changes; it fails only when out of frames or at a huge page, and then no space changes |
| `AddressSpace.Machine.CloneTable` | kernel/src/memory/page_table.rs:195-264 | cloning one table copies exactly the user pages below it |
| `Fork.ForkedFromClone` | kernel/src/memory/page_table.rs:182-273 | a finished copy of the whole region is a fork |
| `Isolation.StoreThenLoad` | kernel/src/memory/page_table.rs:357-391 | a byte stored through one space is seen at that address of that space and nowhere else |
| `Isolation.WritesArePrivate` | kernel/src/memory/page_table.rs:182-273 | for any interleaving of stores by all spaces, what a space reads depends on its own stores only |
| `Isolation.ForkedLoadsAgree` | kernel/src/memory/page_table.rs:182-273 | right after fork, parent and child read the same at every user address, from different frames |
| `Isolation.ForkedReadable` | kernel/src/memory/page_table.rs:182-273 | a user address is readable in the child if and only if its page was a user page of the parent |
| `Isolation.ForkedAccess` | kernel/src/memory/page_table.rs:182-273 | and has there the rights it has in the parent, at every level of the walk |
| `AddressSpace.Machine.DeallocUser` | kernel/src/memory/page_table.rs:398-451 | returns exactly the PML4 and the frames below slot 0, and raises the free count by that many; the rest of the space stays allocated, other spaces are as before |
| `AddressSpace.Machine.DeallocTable` | kernel/src/memory/page_table.rs:409-446 | everything below a table is returned once, deepest first |
| `Reclaim.ReclaimedFrom` | kernel/src/memory/page_table.rs:398-451 | counts and contents of the stack after the walk |
| `MemoryRuns.Accounting` | kernel/src/memory/frame_allocator.rs:41-96 | free, owned and leaked frames add up to the pool |
| `MemoryRuns.Run` | kernel/src/memory/page_table.rs:116-451 | every run of create, map, clone, store and destroy from boot, with the page table of any live process active, keeps the invariant, the accounts, and the boot table's kernel slots in every live space |
| `MemoryRuns.KernelTranslates` | kernel/src/memory/page_table.rs:143-163 | so in the kernel slots every live space translates every address as the boot table does |
| `MemoryRuns.StackIsLeaked` | kernel/src/userproc.rs:332-353 | every mapped stack page of a reaped process is among the leaked frames |
| `Paging.WordRoundTrip` | kernel/src/memory/page_table.rs:237-243 | splitting a page-table word into flags and frame loses nothing |
| `Paging.BytesRoundTrip` | kernel/src/memory/page_table.rs:251-260 | a frame read as words and as bytes is the same frame |
| `ElfFormat.ParseElfSegments` | kernel/src/userproc.rs:149-215 | the header checks in order, then exactly the loadable headers that lie in the file |
| `ElfFormat.ParseEncoded` | kernel/src/userproc.rs:149-215 | parsing what an encoder of ELF64 and program headers wrote gives the entry point and the loadable segments back, in order, wherever the table lies and whatever its stride; a table that leaves the file is cut there |
| `ElfFormat.AcceptsIff` | kernel/src/userproc.rs:149-172 | a file is accepted iff it has 64 bytes with the magic, class, byte order, type and machine |
| `ElfImage.CopyFits` | kernel/src/userproc.rs:277-321 | no copy leaves its page or the segment's file range |
| `ElfImage.PageAfterAt` | kernel/src/userproc.rs:277-322 | a page after one segment: the file byte where the segment covers it, else what was there |
| `ElfImage.ImageMeaning` | kernel/src/userproc.rs:222-326 | with disjoint segments the image is the file byte on each segment's file part and zero elsewhere |
| `ElfLoader.MapElfPage` | kernel/src/userproc.rs:249-323 | one page of one segment: mapped with the segment's write permission, or reused with its old one when shared, and patched; no other page changes; fails only when out of frames |
| `ElfLoader.MapElfSegment` | kernel/src/userproc.rs:222-326 | after each segment the space holds the image of the segments so far |
| `ElfLoader.MapUserStack` | kernel/src/userproc.rs:332-353 | maps zeroed, writable stack pages up to and including the page at the top |
| `ElfLoader.LoadElf` | kernel/src/userproc.rs:47-71 | a new space that holds the image and the stack and nothing else, with the kernel's slots; a page is writable iff it is the stack's or the first segment that visits it asks for it; the other spaces are untouched; fails only on a bad header, without frames, or when a segment lies in the stack area |
| `ElfLoader.DoneMeaning` | kernel/src/userproc.rs:222-353 | every user address of the loaded space reads the right file byte, or zero on other mapped pages, or is unmapped |
| `ElfLoader.LoadedAccess` | kernel/src/userproc.rs:236-353 | at every level of the walk the program may read each of its pages, and write to the stack and the pages whose first segment asks for it |
| `Loading.GrantedIff` | kernel/src/userproc.rs:236-323 | every segment that asks to write a page may, iff the first visitor of the page asks or no later one does: a page shared with an earlier read-only segment stays read-only |
| `Disk.ProgramRoundTrip` | kernel/src/ata.rs:116-130 | the drive decodes the sector number and the count the driver programmed, 256 as count byte 0 |
| `Disk.Ata.ReadSectors` | kernel/src/ata.rs:93-148 | chunked reading returns exactly the requested sectors in order |
| `Disk.Ata.WriteSectors` | kernel/src/ata.rs:151-208 | chunked writing changes exactly the requested sectors; past the end of the disk it fails, with only leading sectors written |
| `Disk.Ata.WriteThenRead` | kernel/src/ata.rs:93-208 | what was written is read back, however both transfers were split |
| `FatTable.WalkLinked` | kernel/src/fs/fat32.rs:179-195 | the chain walk recovers every properly linked chain |
| `FatTable.GuardSuffices` | kernel/src/fs/fat32.rs:183-194 | the million-step guard never cuts a chain of a table with at most a million entries |
| `FatTable.LinkKeeps` | kernel/src/fs/fat32.rs:491-501 | allocating and linking a cluster appends to one chain, uses one free cluster and keeps all other chains |
| `FatTable.CutKeeps` | kernel/src/fs/fat32.rs:745-760 | truncating keeps a prefix, frees exactly the rest and keeps all other chains |
| `FatTable.ForestDisjoint` | kernel/src/fs/fat32.rs:179-214 | no cluster is in two chains or twice in one |
| `FatTable.FreePlusUsed` | kernel/src/fs/fat32.rs:198-214 | free clusters, clusters of the chains and unclaimed ones add up to the table; none is counted twice |
| `FatFile.ReadIsSlice` | kernel/src/fs/fat32.rs:442-473 | the read loop returns the slice of the concatenated clusters |
| `FatFile.IndexAgrees` | kernel/src/fs/fat32.rs:475-542 | write and read pick the same cluster everywhere if and only if the offset is 0 or the write ends in the first cluster |
| `FatFile.GoodWriteIsOverwrite` | kernel/src/fs/fat32.rs:475-542 | in those cases the write loop is a flat overwrite |
| `FatFile.WriteCorrectIff` | kernel/src/fs/fat32.rs:475-542 | and in no other: outside them some file is corrupted |
| `FatFile.BadWrite` | kernel/src/fs/fat32.rs:513-525 | the byte in front of the offset that such a write hits |
| `FatLayout.FatRoundTrip` | kernel/src/fs/fat32.rs:133-176 | loading a flushed table gives the table back |
| `FatLayout.SetClusterFrame` | kernel/src/fs/fat32.rs:107-130 | writing a cluster changes that cluster and no FAT copy |
| `FatLayout.FlushOne` | kernel/src/fs/fat32.rs:133-153 | writing a FAT copy keeps the other copies and all clusters |
| `FatLayout.CoherentKept` | kernel/src/fs/fat32.rs:123-153 | cluster writes keep every FAT copy equal to the cached table |
| `FatDir.PackRoundTrip` | kernel/src/fs/fat32.rs:360-373 | a packed entry reads back field by field, time stamps included |
| `FatScan.ScanDirectory` | kernel/src/fs/fat32.rs:217-262 | the slot loop reports the first matching slot in directory order |
| `FatScan.ScanFirst` | kernel/src/fs/fat32.rs:217-262 | a hit has no earlier match in its cluster or any earlier one, and all of those were readable |
| `FatScan.ScanComplete` | kernel/src/fs/fat32.rs:217-262 | a search that reports nothing has looked at every slot |
| `FatTree.TreeKept` | kernel/src/fs/fat32.rs:835-880 | changes outside the directory tree, and size updates inside it, leave the tree as it was |
| `FatTree.TreeWithin` | kernel/src/fs/fat32.rs:835-880 | when chains grow by at most one cluster and only one new subdirectory is listed, the tree gains those clusters at most |
| `FatTree.NamedKept` | kernel/src/fs/fat32.rs:600-619 | size updates do not change the outcome of a search by name |
| `FatSearch.TreeChainIs` | kernel/src/fs/fat32.rs:835-880 | the clusters the size update searches are exactly those of the directory tree |
| `FatSearch.PatchedListed` | kernel/src/fs/fat32.rs:835-880 | after the size update the first entry found for the file has the new size |
| `FatSearch.SearchKept` | kernel/src/fs/fat32.rs:835-880 | changing a file's data and chain leaves the search for any entry as it was, if the directories are apart from the files |
| `Fat32.Driver.constructor` | kernel/src/fs/fat32.rs:957-982 | mounting loads the first FAT copy and interns the root directory as inode 1 |
| `Fat32.Driver.FlushFat` | kernel/src/fs/fat32.rs:133-153 | afterwards every FAT copy decodes to the cached table; no cluster changed |
| `Fat32.Driver.AllocCluster` | kernel/src/fs/fat32.rs:198-206 | the first free cluster, marked as the end of a chain; fails only when none is free |
| `Fat32.Driver.ExtendChain` | kernel/src/fs/fat32.rs:484-506 | the file's chain grows to the needed length by free clusters only; all other chains stay |
| `Fat32.Driver.Read` | kernel/src/fs/fat32.rs:442-473 | the slice of the file's chain up to its size; errors and empty results as in the code |
| `Fat32.Driver.Write` | kernel/src/fs/fat32.rs:475-542 | chains, size and FAT coherence after a write; data as the write loop over the old data; the first entry in the tree that starts at the file's first cluster has the new size. If the directories are apart from the files they stay so, and no other file changes. Fails only on a directory or unknown inode, without clusters, at an unreadable cluster, or when the tree cannot be searched |
| `Fat32.Driver.WriteThenRead` | kernel/src/fs/fat32.rs:442-542 | directories apart, file readable, offset 0 or end in the first cluster: after a successful write a read returns the buffer, and no other file changed |
| `Fat32.Driver.Truncate` | kernel/src/fs/fat32.rs:732-767 | the chain is cut to what the size needs, exactly the rest is freed, the FATs are coherent; the file's first entry in the tree has the new size; directories stay apart and no other file changes |
| `FatState.KeepLeast` | kernel/src/fs/fat32.rs:739-752 | what the size needs: as few clusters as hold it, or the whole chain when that does not |
| `Fat32.Driver.UpdateSize` | kernel/src/fs/fat32.rs:835-880 | new size bytes in the first entry, in the order of the search, that starts at the cluster, and nothing else; Ok(false) iff there is none; an error only at an unreadable cluster or too deep a directory; never a FAT |
| `Fat32.Driver.WriteDirEntry` | kernel/src/fs/fat32.rs:268-318 | the entry is in the directory afterwards, every other slot is as before or free; only the directory's chain may grow |
| `Fat32.Driver.RemoveDirEntry` | kernel/src/fs/fat32.rs:321-357 | marks the first removable entry of that name free, and nothing else |
| `Fat32.Driver.Intern` | kernel/src/fs/fat32.rs:421-438 | the lowest inode with this first cluster and kind, or a new one; the table stays sound iff there was one or the chain is adoptable |
| `Fat32.Driver.Lookup` | kernel/src/fs/fat32.rs:600-619 | the inode of the first entry with this short name, or an error and no change; the table stays sound iff the entry's chain is interned or adoptable |
| `Fat32.Driver.Create` | kernel/src/fs/fat32.rs:621-655 | a new entry without clusters, refused if the name exists; the inode is an old one iff some file without clusters has one; FATs coherent, other chains unchanged; fails only on a bad directory or an existing name, without clusters, or when the directory is empty or unreadable |
| `Fat32.Driver.CreateTwice` | kernel/src/fs/fat32.rs:621-655 | two creates in a row return the same inode |
| `Fat32.Driver.CreateWriteReopen` | kernel/src/fs/fat32.rs:475-655 | create, write, open again: the name leads to another inode, from which nothing can be read |
| `Fat32.Driver.TruncateThenLookup` | kernel/src/fs/fat32.rs:600-767 | truncate to nothing, then look up: the new inode names a free cluster and the table is no longer sound |
| `Fat32.Driver.Mkdir` | kernel/src/fs/fat32.rs:657-730 | a new directory with its dot entries on a cluster that was free; only that cluster and the parent change; FATs coherent |
| `Fat32.Driver.Unlink` | kernel/src/fs/fat32.rs:769-820 | one entry of that name is marked free and no other cluster changes; the table stays sound iff no remaining file has a cluster of the freed chain; on an error the disk is unchanged |
| `FatState.LinkTableOk` | kernel/src/fs/fat32.rs:491-506 | linking keeps every inode at the head of its own chain |
| `FatState.CutTableOk` | kernel/src/fs/fat32.rs:745-760 | cutting keeps it and frees exactly the cut clusters |
| `FatState.UnlinkTableOk` | kernel/src/fs/fat32.rs:799-818 | removing a file keeps it, frees exactly the file's chain, and no other inode has its head |
| `FatState.AdoptTableOk` | kernel/src/fs/fat32.rs:421-438 | a new inode for a chain of its own keeps the forest |
| `FatState.ClearKeepsIff` | kernel/src/fs/fat32.rs:799-802 | freeing clusters keeps a file's chain iff none of them is in it |
| `FatState.StaleEntryDestroys` | kernel/src/fs/fat32.rs:491-502 | a truncated file's stale entry names a cluster that another file got: unlinking it breaks the other file |
| `FatState.RemoveClearedIff` | kernel/src/fs/fat32.rs:799-818 | after an unlink the table is sound iff the remaining files have none of the freed clusters |
| `FatState.AdoptTableIff` | kernel/src/fs/fat32.rs:421-438 | a new inode keeps the table sound, for some choice of chains, iff the chain it starts is a proper one and nobody's |
| `FatState.EntryNamesIff` | kernel/src/fs/fat32.rs:475-542 | after a write or truncation the file's entry names its first cluster iff the chain is empty before and after, or neither |
| `FatState.CreateApart` | kernel/src/fs/fat32.rs:621-655 | creating a file keeps the directories apart from the files |
| `FatState.MkdirApart` | kernel/src/fs/fat32.rs:657-730 | so does making a directory |
| `FatState.UnlinkApart` | kernel/src/fs/fat32.rs:769-820 | and unlinking a file |
| `FatState.ApartKept` | kernel/src/fs/fat32.rs:475-542 | writing a file moves no directory, and the directories stay apart from the files |
| `FatImage.MakeBpb` | build.rs:106-140 | the kernel parses the built boot sector to the intended geometry |
| `FatImage.MakeFat` | build.rs:143-176 | the built table decodes to the intended chains |
| `FatImage.DecodeFatPut` | build.rs:147-150 | setting four bytes sets one entry of the decoded table |
| `FatImage.MakeRoot` | build.rs:180-250 | the root directory holds the label and the four files, with their first clusters and sizes |
| `FatImage.MakeData` | build.rs:275-300 | every cluster holds its part of its file, padded with zeros |
| `FatImage.MakePartition` | build.rs:258-310 | the partition, sector by sector; fails exactly when a file does not fit |
| `FatBoot.AppendPartition` | build.rs:330-356 | the image ends with the partition and the MBR announces it; at the right place iff the boot image has no partial sector |
| `FatBoot.FindPartition` | kernel/src/fs/fat32.rs:888-908 | start and size of the last FAT32 entry of the MBR; none exactly when there is none or no signature |
| `FatBoot.Mount` | kernel/src/fs/fat32.rs:912-982 | mounting the built image succeeds, with coherent FATs |
| `FatBoot.ChainLinked` | build.rs:151-172 | the built table links each file's clusters in order |
| `FatBoot.HeadsDistinctIff` | build.rs:159-172 | the files have different first clusters if and only if SYSUTILS is not empty |
| `FatBoot.RootScan` | kernel/src/fs/fat32.rs:600-618 | the directory search finds each file's own slot |
| `FatBoot.FileFlat` | build.rs:275-300 | a file's chain holds the file, followed by padding |
| `FatBoot.ShortNames` | kernel/src/fs/fat32.rs:376-393 | the 8.3 conversion leaves the image's names alone |
| `FatDir.ShortRoundTrip` | kernel/src/fs/fat32.rs:376-418 | a name of up to eight characters, a dot and up to three more is stored and shown as it was, in upper case |
| `FatDir.PlainRoundTrip` | kernel/src/fs/fat32.rs:376-418 | so is a name of up to eight characters without a dot |
| `FatDir.CaseIgnored` | kernel/src/fs/fat32.rs:376-393 | names that differ in case only are stored the same |
| `FatBoot.PhantomClusters` | kernel/src/fs/fat32.rs:198-206 | 26 allocatable clusters lie behind the data area: exactly those from 16102 on cannot be read or written |
| `FatBoot.LookupAndRead` | kernel/src/fs/fat32.rs:442-619 | any file, any spelling of its name, any range, in any order: the bytes of the payload |
| `FatBoot.BootedApart` | build.rs:180-250 | in the built image the root directory is the whole tree, apart from all files |
| `FatBoot.LookupWriteRead` | kernel/src/fs/fat32.rs:442-619 | overwriting a file of the image from its start and reading it returns the new bytes |
| `FatRemount.WriteThenRemount` | kernel/src/fs/fat32.rs:475-982 | overwrite a file of the image from its start, mount the disk again, look it up and read it: the new bytes and, if the file was not longer, no more; within its own clusters the overwrite always succeeds |
| `FatBoot.BuildBootRead` | build.rs:258-356 | build, boot, look up, read: the payload comes back |
| `Kernel.ProcessTable.constructor` | kernel/src/process.rs:162-168 | an empty table |
| `Kernel.ProcessTable.AllocSlot` | kernel/src/process.rs:171-199 | the first free slot gets the next pid, Blocked, under the given parent; no other slot changes |
| `Kernel.ProcessTable.Spawn` | kernel/src/userproc.rs:94-120 | a Ready process with its address space and a stack to start from, in the first free slot, or nothing when the table is full |
| `Kernel.ProcessTable.ForkCurrent` | kernel/src/syscalls/mod.rs:1075-1132 | exactly one slot changes, a free one: it holds the next pid, the caller as parent, the cloned address space, Ready, nothing pending, a prepared stack; or -38 or -12, as in the code, and no change |
| `Kernel.ProcessTable.ExitCurrent` | kernel/src/syscalls/mod.rs:645-657 | the caller is a zombie with its exit code and the next Ready process runs |
| `Kernel.ProcessTable.FindNextReady` | kernel/src/scheduler.rs:241-262 | the first Ready process after the current slot, around the table once |
| `Kernel.ProcessTable.ContextSwitch` | kernel/src/scheduler.rs:338-430 | the new process runs with a full slice, a running old one is Ready, all others are as before; an unprepared Ready one is Blocked instead |
| `Kernel.ProcessTable.ScheduleNext` | kernel/src/scheduler.rs:268-290 | switch to the next Ready process, if any |
| `Kernel.ProcessTable.TimerTick` | kernel/src/scheduler.rs:200-237 | one tick: slice, signal delivery, dead current process |
| `Kernel.ProcessTable.SendSignal` | kernel/src/signal.rs:32-60 | 9 and 15 make a live target a zombie with code 128 + signal at once, others set the bit (signal - 1) mod 32; true exactly for a live target; no other process changes |
| `Kernel.ProcessTable.DeliverPending` | kernel/src/signal.rs:71-111 | bit 8 kills the current process with 137, else bit 14 with 143, else nothing changes |
| `Kernel.ProcessTable.WaitOnce` | kernel/src/syscalls/mod.rs:1200-1241 | one round of waitpid: reap, yield or no such child |
| `Kernel.ProcessTable.ExecCurrent` | kernel/src/syscalls/mod.rs:801-831 | the caller restarts on a new stack |
| `Kernel.ProcessTable.ReapZombies` | kernel/src/process.rs:249-258 | exactly the zombies' slots are freed |
| `Kernel.ProcessTable.HandleOom` | kernel/src/oom.rs:19-67 | reaps the dead, else kills the first Ready process above pid 2; says whether anything was reclaimed |
| `KernelSafety.StepKeeps` | kernel/src/process.rs:161-258 | every step keeps: pids unique and below the next one, parents older, only the current process Running, runnable ones have a stack; dead ones stay dead until freed |
| `KernelSafety.RunKeeps` | kernel/src/process.rs:161-258 | the same over every run |
| `KernelSafety.OneRuns` | kernel/src/scheduler.rs:399-418 | at most one process runs, the current one |
| `KernelSafety.AncestryDescends` | kernel/src/process.rs:171-199 | from child to parent pids strictly fall, so ancestry ends |
| `KernelSafety.DeadForever` | kernel/src/process.rs:203-258 | over any run a zombie is never revived and a freed pid never returns |
| `KernelSafety.WaitReaps` | kernel/src/syscalls/mod.rs:1200-1227 | waitpid returns a dead child of the caller with its exit code, and frees it |
| `KernelSafety.ExitCodeReturned` | kernel/src/syscalls/mod.rs:645-1227 | from exit to waitpid, whatever runs in between with signals up to 32: if waitpid returns the pid, it returns the code given to exit, provided the dead process does not exit again |
| `KernelSafety.ReturnedOnce` | kernel/src/syscalls/mod.rs:1200-1241 | over any run, waitpid returns each pid at most once |
| `KernelSafety.SpacesApartRun` | kernel/src/syscalls/mod.rs:1085-1132 | over every run in which clone, spawn and exec bring in spaces that nobody has, no two processes share a nonzero cr3 |
| `KernelSafety.OomFrees` | kernel/src/oom.rs:19-67 | running out of memory frees exactly the zombies' slots or, when there is none, that of the first process that may be killed |
| `KernelSafety.WaitAnyReapsIff` | kernel/src/syscalls/mod.rs:1206-1217 | waitpid(-1) reaps iff the first child slot is a zombie |
| `KernelSafety.ExecRevivesIff` | kernel/src/syscalls/mod.rs:803-828 | exec revives its caller iff it is a zombie in the table |
| `KernelSafety.ExitKeepsIff` | kernel/src/syscalls/mod.rs:645-657 | exit, with its switch, keeps the table sound iff there is a current process or no free slot |
| `KernelSafety.KillQuietIff` | kernel/src/process.rs:226-236 | a signal sets a termination bit iff the target lives and the number wraps to 9 or 15 |
| `KernelSafety.DeliverHarmless` | kernel/src/signal.rs:71-111 | without those bits, delivery kills nobody |
| `KernelSafety.DeliverClearsNothing` | kernel/src/signal.rs:71-111 | and changes nothing at all: other pending signals stay pending |
| `KernelSafety.QuietRun` | kernel/src/signal.rs:32-111 | over runs with signals 1 to 32 the bits are never set, so the timer never kills |
| `KernelFairness.ScanStops` | kernel/src/scheduler.rs:254-261 | the scan stops no later than at any given Ready slot |
| `KernelFairness.StepCloser` | kernel/src/scheduler.rs:200-430 | at every switch a waiting process gets strictly closer; no step but exec pushes its tick bound back, and exec by one slice at most |
| `KernelFairness.SwitchBound` | kernel/src/scheduler.rs:200-430 | a process that stays Ready waits through at most 31 switches |
| `KernelFairness.TickBound` | kernel/src/scheduler.rs:200-430 | through less than 32 default slices of ticks, plus one slice for every exec |
| `KernelFairness.TickKills` | kernel/src/scheduler.rs:200-237 | a tick within the slice delivers a pending kill: the current process is dead with its code, and another one runs if any is Ready |
| `KernelFairness.ExecStarves` | kernel/src/syscalls/mod.rs:801-831 | any number of rounds of four ticks and an exec: no switch, and every other process keeps waiting; only the caller's address space changes |
| `ForkResume.SaveRestore` | kernel/src/scheduler.rs:33-69 | what is pushed in one order and popped in the opposite one comes back |
| `ForkResume.SwitchRoundTrip` | kernel/src/scheduler.rs:33-69 | switching away and back restores rbp, rbx, r12, r13, r14 and r15, the stack pointer and the return address |
| `ForkResume.EntryContext` | kernel/src/syscall_trampoline.rs:27-118 | the dispatcher's context holds exactly the user's registers and frame |
| `ForkResume.EpilogueLoads` | kernel/src/syscall_trampoline.rs:56-75 | the epilogue loads every register and the frame from the context |
| `ForkResume.SyscallReturns` | kernel/src/syscall_trampoline.rs:27-75 | a system call returns with all registers unchanged except the result in rax |
| `ForkResume.KernelStack.BuildChild` | kernel/src/syscalls/mod.rs:1137-1189 | the child's stack; resuming from it enters user mode as the parent, with rax 0 |
| `ForkResume.ForkResumes` | kernel/src/syscalls/mod.rs:1137-1189 | for every context: restore, return and epilogue give the parent's registers, flags, rip and rsp except rax = 0, and consume all 27 words |
| `ForkResume.KernelStack.SetupInitial` | kernel/src/scheduler.rs:135-155 | a fresh stack: entry point and six zeros |
| `ForkResume.FreshResumes` | kernel/src/scheduler.rs:135-155 | the first switch to a fresh process returns to its entry point with an empty stack and the same six registers zero |
| `Windows.WindowList.CreateWindow` | wm/src/window.rs:155-197 | one free slot holds the new window: where and as large as asked for, shown, draggable, above all others, not in focus; refused exactly when all slots are used |
| `Windows.WindowList.DestroyWindow` | wm/src/window.rs:200-209 | the window's slot is empty and the count lower; the list stays sound iff the id is not 0 or no slot is empty |
| `Windows.WindowList.MoveWindow` | wm/src/window.rs:212-221 | only the position changes |
| `Windows.WindowList.RaiseToTop` | wm/src/window.rs:224-233 | the window gets the highest z-order and nothing else changes |
| `Windows.RaisedOnTop` | wm/src/window.rs:224-233 | a raised window is above every other |
| `Windows.WindowList.SetFocus` | wm/src/window.rs:236-240 | exactly the slots with this id are focused |
| `Windows.FocusNone` | wm/src/window.rs:236-240 | clearing the focus marks exactly the empty slots |
| `Windows.WindowList.FocusedId` | wm/src/window.rs:243-250 | a focused live window, or 0 when there is none |
| `Windows.WindowList.HitTest` | wm/src/window.rs:253-267 | a window that shows at the point with nothing higher there, or 0 when none shows |
| `Windows.WindowList.ZOrder` | wm/src/window.rs:290-317 | every showing window once, in stacking order |
| `Windows.WindowList.InsertOne` | wm/src/window.rs:301-310 | one insertion round keeps the prefix sorted, duplicate-free and complete |
| `Windows.CreateKeeps` | wm/src/window.rs:155-197 | ids and z-orders stay distinct, the count stays right |
| `Compositor.Screen.PutPixel` | wm/src/compositor.rs:98-120 | one pixel, if it is on screen and in the buffer |
| `Compositor.Screen.FillRect` | wm/src/compositor.rs:123-131 | exactly the pixels of the rectangle |
| `Compositor.Screen.DrawOutline` | wm/src/compositor.rs:134-141 | exactly the frame of the window |
| `Compositor.Screen.BlitContent` | wm/src/compositor.rs:211-244 | exactly the content pixels that the buffer has |
| `Compositor.Screen.PaintWindow` | wm/src/compositor.rs:159-245 | each pixel shows the last layer that covers it, or what was there |
| `Compositor.ContentShown` | wm/src/compositor.rs:211-244 | content pixel (row, column) shows its four bytes, from offset 4 * (row * width + column), 2 right and 24 + row below the corner |
| `Compositor.Decoration` | wm/src/compositor.rs:148-190 | logo, title bar and frame show their colours at their places |
| `Compositor.Palette` | wm/src/compositor.rs:113-187 | the colours as the four bytes of a cell: blue, green, red, padding |
| `Compositor.Screen.Composite` | wm/src/compositor.rs:252-266 | each pixel shows the topmost window that paints it, else the desktop |
| `Compositor.PaintsInsideIff` | wm/src/compositor.rs:148-245 | a window paints inside its bounds iff its content is at least 12 wide |
| `Compositor.ShowsThroughIff` | wm/src/compositor.rs:159-245 | the exact points of a window, with or without a content buffer, that it does not paint |
| `Compositor.HitShows` | wm/src/window.rs:253-317 | where the window reported by the hit test paints, that is what the screen shows |
| `Compositor.DrawAndHit` | wm/src/compositor.rs:252-266 | after compositing, the hit test at any visible point names the window whose last paint is seen there, if it paints there |
| `Dragging.InputRouter.ProcessMouse` | wm/src/input_router.rs:86-148 | the cursor moves by the delta and stops at the edges; a press gives the window under it, and no other, the focus and the top place; the new session and the receiving window, given the hit test's answer |
| `Dragging.PressDrags` | wm/src/input_router.rs:110-148 | a press on the title bar of a draggable window starts a drag that holds it where it was taken, any other press none |
| `Dragging.InputRouter.constructor` | wm/src/lib.rs:91-92 | the cursor starts at the centre of the screen, nothing is dragged |
| `Dragging.StepKeeps` | wm/src/input_router.rs:70-148 | every event keeps the cursor on screen, at most one live window focused, a dragged window at its offset |
| `Dragging.RunKeeps` | wm/src/input_router.rs:70-148 | the same over every event sequence |
| `Dragging.DragFollows` | wm/src/input_router.rs:41-148 | while a live window is dragged its distance from the cursor is constant and the cursor stays in its title bar |
| `Dragging.Clamp` | wm/src/cursor.rs:82-86 | a coordinate on the screen |
| `Bresenham.DrawLine` | flutter_shell/src/render.rs:71-88 | terminates after max(dx, dy) + 1 points, from end to end, one step of the longer axis each, at most half a pixel off |
| `Bresenham.WideStep` | flutter_shell/src/render.rs:84-86 | on a wide line x always advances, and y exactly when that stays within half a pixel |
| `Bresenham.HighStep` | flutter_shell/src/render.rs:84-86 | the same on a high line |
| `Mounts.Vfs.MountAt` | kernel/src/fs/mod.rs:78-85 | the new mount is inserted, longest points first |
| `Mounts.Vfs.FindMount` | kernel/src/fs/mod.rs:87-107 | the longest mount that matches, and the path below it; none exactly when nothing matches |
| `Mounts.FirstIsLongest` | kernel/src/fs/mod.rs:84-107 | in a sorted list the first match is the longest, and any other of that length is the same point |
| `Mounts.ComponentsAre` | kernel/src/fs/mod.rs:116-117 | the path components are the nonempty parts between slashes |
| `Mounts.CreateInParentMount` | kernel/src/fs/mod.rs:109-149 | the create branch of open: the parent resolves in the mount used for create, the name is not empty, and it is not there yet |

## Left out

- Hardware: port I/O, interrupt controllers, timers, UART, VGA, GDT and IDT, PS/2 and USB; ATA status polling is an
  always-ready drive, and a failed disk command changes nothing.
- Concurrency inside a step: `try_lock` failures and the window in `fork` with interrupts enabled.
- `exec`'s argument stack (`kernel/src/syscalls/mod.rs:746-773`), its reading of the file, and the freeing of the old
  space while it is still active.
- Integer overflow: addresses and sizes near 2^64 in the ELF loader, window coordinates near 2^31, and counters (pids, ids,
  z-orders) are unbounded.
- Huge pages are entries that clone refuses and dealloc skips, as in the code; no space owns the memory behind them.
- tmpfs, devfs, file descriptors, permissions, time, the scancode ring and the Flutter adapter: they would add only easy
  members.
- The cursor sprite, the window title text and the framebuffer commit.
- `readdir`, which only reports.
- ElfLoader.LoadElf: segments must lie in user slots, which the code does not check; a failed load leaks the frames it used.
- AddressSpace.Machine.CloneUserSpace: a failed clone leaks the frames of the half-built child, as in the code.
- Mounts.Vfs.MountAt: the library's stable sort is modelled as the insertion it amounts to on a sorted list.
- Bresenham.DrawLine: the points are returned, not drawn; clipping is `put_pixel`'s.
- Fat32.Driver.UpdateSize: the directory recursion is bounded by a depth parameter, since a looping directory tree would
  recurse for ever.
- Fat32.Driver.Write: after a failure the chains, validity and the reason are stated, not the contents of the file.
- Fat32.Driver.Truncate: after a failure validity and the reason are stated.
- Fat32.Driver.Unlink: that the directories stay apart from the files is stated for files, not for unlinking a directory.
- Fat32.Driver.constructor: validity is stated for a partition with at least one FAT copy and a properly linked root directory.
- FatDir.ShortName: names are ASCII; `to_uppercase` is that of ASCII.
- AddressSpace.Machine.MapUserPage: flags must be present and user, as all callers pass; other flags would leave an entry that
  is neither unused nor a link.
- AddressSpace.Machine.MapUserPageAlloc: the same, for user addresses below 2^47 in slots that are not the kernel's.
- Kernel.ProcessTable.ForkCurrent: the record has no name, entry point, user stack pointer or file descriptors, which fork copies.
- VirtualMemory.AccessFlat: execute permission is not part of the rights; every mapped page is executable.
- Kernel.ProcessTable.SendSignal: signals above 32 wrap, as in a release build; a build with overflow checks stops instead.
