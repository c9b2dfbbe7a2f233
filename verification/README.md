# RootOS in Dafny

A model of the parts of RootOS whose state must refine something much simpler, and proofs
that it does. `dafny verify dfyconfig.toml` checks all of it.

**Filesystem.** `Paths` and `PathResolver` relate path texts to component lists. `FsTree` is
the abstract tree (path to directory or bytes) with its invariant and the meaning of move,
copy and remove; `FsTable` is the flat 256-slot node table those operations edit while they
scan it; `DiskFormat` and `RootFsDisk` are the sector-encoded slots; `FsCache` says when the
table in memory agrees with the disk; `BaseTree` is the initial tree. `FsOutcomes` says what
every call answers and which tree it leaves, as functions of the tree before. `FileSystem` is
the filesystem itself, and `FsRuns` any sequence of calls on it.

**Kernel heap.** `HeapBlocks` is the block list as a value, `HeapLinks` the headers that
spell it with links both ways, `HeapMemory` the bytes that hold the headers and the
payloads, `KernelHeap` the allocator on those bytes, `HeapRuns` whole runs of calls on block
lists, `HeapClient` every program that uses the allocator through the pointers it holds.

**Display.** `Pictures` has packed pixels, pictures and what each drawing call means,
`Raster` the pixel loops, `Display` the shadow framebuffer with damage, nested updates and
the software cursor. `Terminal` puts the scrollback ring and its incremental renderer on top
of that display; `TextCells` and `TextConsole` put text with a text cursor on top of those.

**Editor.** `EditHistory` has text, cursor, stacks and keys as values, `RootEdit` the in-place
buffer and the two snapshot rings.

**Loading.** `ElfLayout` and `ElfLoader` are the app loader from file bytes to relocated image,
`ElfFields` tells the same from the relocation entries of the file.
`Rle8` is the driver-pack codec, encoder and decoder.

**Network and PCI.** `Checksum`, `Packets` and `NetStack` are the one's-complement checksum,
the packets built and accepted, and the sending buffers. `PciBus` is bus discovery as graph
search. `Basics` has what these share.

A method is proved against a function that says what it answers and leaves; what that function
means is then proved of it apart from its own definition: when each answer is given, which
pixel, byte or index holds what, what a text names.

Imperative code is modelled imperatively: classes with the source's fields, arrays edited in
place, loops with invariants, each method tied to a function of the old state or to the
property itself.

## How the source is read

- C strings are texts without NUL; a buffer and its length are the text plus its terminator.
- 32-bit wrap-around, truncation and range tests are written out where they decide a branch
  (checksum sums, clip ends, header sizes, relocation fields, `count * size`).
- A device that may fail fails arbitrarily: `healthy` false makes every sector access succeed
  or not at will, `memory` false does so for content allocation. Results are stated for every
  outcome except what a call leaves behind after it has returned an I/O error.
- A volume is mounted in a state that denotes a tree (`VolumeOk`): records decode to canonical
  unique paths and well-formed types; or the load turns it down. The kernel writes no other as
  long as it meets no I/O error and no base directory with entries is a file.
- Block pointers given to free and realloc are `Genuine`: the word in front of them is not the
  magic number by accident. Live, freed, NULL and foreign pointers are.
- A packed pixel is its three disjoint colour fields. The layout test makes them disjoint, all
  other bits of a shadow word are zero, and the device receives only shadow words.
- A glyph is its width and its bitmap rows; the font is any function.
- Reads of PCI configuration space are a fixed function of the address.

Where code and documentation differ, the code is followed. Six promises do not hold of the
code as it stands, and are proved exactly where they do:

- A volume that was running can be mounted again. It can on healthy storage if and only if
  there is a free slot for every base node it lacks (`FileSystem.Remount`): after `/temp` is
  removed and the table filled, the next start shows an empty base tree in RAM instead
  (`BaseTree.FullVolumeCounterexample`). The stored files are not lost.
- A mounted tree is well formed. It is if and only if no base directory that holds base entries
  had been replaced by a file (`BaseTree.BaseInvariantIff`).
- Free neighbours are merged. A shrinking realloc splits without merging
  (`HeapRuns.ResizeCoalescedIff`).
- A packed driver module comes back. A literal of 129 bytes gets the control byte of a run
  (`Rle8.RoundTripIff`).
- k undos and k redos lead back. Beyond the entries to undo they do so only if there was
  nothing to redo (`EditHistory.UndoThenRedo`, `EditHistory.UndoRedoCounterexample`).
- Text is shown as a redraw would show it. A code point that counts as empty, such as NUL, is
  drawn with its glyph and then left out by the next redraw (`TextCells.CellShownIff`,
  `TextCells.NulCounterexample`).

`Packets.UdpWrongByteIff` says when a damaged UDP segment passes.

## Model

| member | source | states |
|---|---|---|
| `Paths.RenderRoundTrip` | source/lib/path.c:150-383 | Splitting the text of a canonical path at its slashes gives its components back. |
| `Paths.RenderInjective` | source/fs/filesystem.c:244-275 | Two canonical paths with the same text are the same path, so comparing strings compares paths. |
| `Paths.InsideIsPrefix` | source/fs/filesystem.c:785-828 | The textual test of path_is_inside holds of two canonical paths exactly when one component list is a prefix of the other; `/ab` is not inside `/a`. |
| `Paths.RebaseText` | source/fs/filesystem.c:2700-2785 | Replacing the text of the source by that of the destination is replacing the component prefix. |
| `Paths.ParentText` | source/fs/filesystem.c:837-914 | Cutting a path text at its last slash gives the text of the parent. |
| `Paths.ComponentsAppend` | source/lib/path.c:278-331 | Text up to a slash and text from it on are split separately. |
| `PathResolver.PathPop` | source/lib/path.c:24-74 | The cut buffer spells the path without its last component, "/" for the root. |
| `PathResolver.PathAppend` | source/lib/path.c:77-147 | Succeeds exactly when the longer text and its terminator fit, and then spells the path with the component added; otherwise the buffer is unchanged. |
| `PathResolver.Resolve` | source/lib/path.c:150-383 | From a canonical current directory: success exactly when every component and every intermediate path fits, and the result then is the canonical text of the component-list meaning and fits the buffer. |
| `PathResolver.RelativeMeans` | source/lib/path.c:262-383 | A text that starts neither with "/" nor with "~" alone or before a slash means, in a directory, exactly what it means as an absolute text behind the name of that directory, and resolves exactly when that text does. |
| `PathResolver.NamesMean` | source/lib/path.c:262-383 | Names joined by slashes lead from the current directory straight down, exactly when the whole path fits. |
| `PathResolver.HomeMeans` | source/lib/path.c:216-258 | "~" is /home/user and "~/rest" is /home/user/rest, from every directory. |
| `PathResolver.AbsoluteMeans` | source/lib/path.c:188-215 | A text that starts with "/" means the same in every directory. |
| `PathResolver.OneMore` | source/lib/path.c:278-383 | One more component: "." stays, ".." goes to the parent and stays at the root, any other name goes down; the longer text resolves exactly when the shorter does, the name is short enough and the new path fits. |
| `PathResolver.DotStays` | source/lib/path.c:333-344 | "." changes nothing. |
| `PathResolver.MeaningIsPath` | source/lib/path.c:150-383 | Whatever the input text, what a successful resolve yields is a canonical path. |
| `PathResolver.AbsoluteResolves` | source/lib/path.c:150-383 | An absolute canonical path resolves to itself from any current directory. |
| `PathResolver.ResolveIdempotent` | source/lib/path.c:150-383 | Resolving a result again, from any directory, gives the same result. |
| `PathResolver.NormaliseAppend` | source/lib/path.c:150-383 | Resolving a text in two pieces is resolving it in one. |
| `PathResolver.DotDotUndoes` | source/lib/path.c:24-74 | A name followed by `..` leaves the path as it was. |
| `FsTree.MoveKeepsInvariant` | source/fs/filesystem.c:2485-2800 | The image of a well-formed tree under a move is well formed: unique canonical paths, "/" a directory, every parent an existing directory. |
| `FsTree.MovedInjective` | source/fs/filesystem.c:2485-2800 | No two nodes collide after rebasing, for every tree and every legal move. |
| `FsTree.MoveUnique` | source/fs/filesystem.c:2485-2800 | The move relation determines the resulting tree. |
| `FsTree.MoveBack` | source/fs/filesystem.c:2485-2800 | Moving back restores the original tree. |
| `FsTree.CopyKeepsInvariant` | source/fs/filesystem.c:2146-2476 | A copied tree is well formed. |
| `FsTree.RemoveKeepsInvariant` | source/fs/filesystem.c:1965-2137 | Removing a whole subtree other than "/" keeps the tree well formed. |
| `FsTree.DirsKeepInvariant` | source/fs/filesystem.c:1015-1156 | Creating the missing directories of a path keeps the tree well formed. |
| `FsTree.WithDirsMeaning` | source/fs/filesystem.c:1015-1156 | Creating the directories of a path adds exactly its missing prefixes, as directories, and changes nothing else. |
| `FsTree.NoFileMeans` | source/fs/filesystem.c:1015-1156 | The walk from the root to a path meets no file exactly when every existing prefix of it is a directory. |
| `FsTree.ReadyToMove` | source/fs/filesystem.c:2485-2800 | After the destination directory has been ensured, the source and destination still satisfy what a move needs. |
| `FsTree.DirsSize` | source/fs/filesystem.c:1015-1156 | Creating the directories of a path takes exactly one slot for each missing prefix. |
| `FsTable.TreeSize` | source/fs/filesystem.c:305-330 | Slots are free or hold one node each: nodes of the tree plus free slots is the table. |
| `FsTable.RenamedTree` | source/fs/filesystem.c:2700-2785 | Renaming every slot under the source, one by one in the table being scanned, yields the moved tree and keeps paths unique. |
| `FsTable.ClearedTree` | source/fs/filesystem.c:2096-2137 | Clearing every slot under a path yields the tree without that subtree. |
| `FsTable.NeverRecopied` | source/fs/filesystem.c:2340-2476 | While the copy loop runs, a slot it has filled is never itself under the source, so it is not copied again. |
| `FsTable.TargetIsNew` | source/fs/filesystem.c:2340-2476 | The target of the next copy does not exist yet, so "already exists" cannot happen inside the loop. |
| `FsTable.CopyStep` | source/fs/filesystem.c:2340-2476 | One round of the loop keeps the state of a half-finished copy. |
| `FsTable.CopyDone` | source/fs/filesystem.c:2340-2476 | A finished loop has given every node under the source one twin, with equal type and bytes, and left all old nodes unchanged. |
| `DiskFormat.SlotsDisjoint` | source/fs/rootfs_disk.c:75-117 | Slots of different nodes share no sector, and every slot lies inside the device and above LBA 2048. |
| `DiskFormat.NodeRoundTrip` | source/fs/rootfs_disk.c:171-330 | Node metadata written and read back is the same: type, size and path. |
| `DiskFormat.EncodeFields` | source/fs/rootfs_disk.c:260-330 | Tag, version, flags, size, path length and path stand at their offsets of the record. |
| `DiskFormat.DecodeCases` | source/fs/rootfs_disk.c:171-258 | Which records read as an unused slot and which as damaged, byte by byte. |
| `DiskFormat.ClearedDecodes` | source/fs/rootfs_disk.c:511-537 | A cleared record decodes as no node. |
| `RootFsDisk.Volume.constructor` | source/storage/rootstorage.c:49-159 | A volume is ready only when a device is found and the header it holds passes the checks, and always then on a healthy device; its slots then lie on the device. |
| `RootFsDisk.Volume.ReadSector` | source/storage/rootstorage.c:221-243 | Only sectors of the device are read; a healthy device never fails inside the range. |
| `RootFsDisk.Volume.WriteSector` | source/storage/rootstorage.c:245-281 | Writes at or below LBA 2048 or past the device are refused; no write changes any other sector. |
| `RootFsDisk.Volume.ReadNode` | source/fs/rootfs_disk.c:171-258 | Returns what the slot decodes to, and refuses a malformed record. |
| `RootFsDisk.Volume.WriteNode` | source/fs/rootfs_disk.c:260-330 | The slot then decodes to that node; no other sector changes. |
| `RootFsDisk.Volume.ClearNode` | source/fs/rootfs_disk.c:511-537 | The slot then decodes to no node; no other sector changes. |
| `RootFsDisk.Volume.WriteFile` | source/fs/rootfs_disk.c:419-509 | After success the slot holds exactly these bytes, whatever tail sectors were there before; nothing outside the slot changes. |
| `RootFsDisk.Volume.ReadFile` | source/fs/rootfs_disk.c:332-417 | Returns exactly the bytes the slot holds, for every size up to 65536. |
| `RootFsDisk.Volume.WriteThenRead` | source/fs/rootfs_disk.c:332-509 | Writing any file of 0 to 65536 bytes and reading the slot returns exactly those bytes; on a healthy volume both always succeed. |
| `FsCache.CacheIsDisk` | source/fs/filesystem.c:361-457 | When cache and backing agree, the table in memory is exactly what the disk slots decode to. |
| `FsCache.AgreeingVolumeOk` | source/fs/filesystem.c:1202-1326 | A volume left by an agreeing cache is one that can be loaded again. |
| `FsCache.ReplaceNode` | source/fs/filesystem.c:361-430 | Writing one node through to its own slot keeps the agreement for all nodes. |
| `BaseTree.BaseInvariantIff` | source/fs/filesystem.c:1165-1193 | Completing a loaded tree with the missing base nodes gives a well-formed tree if and only if no base directory that holds base entries had been replaced by a file: create_initial_tree does not check parents. A file at `/temp` is harmless. |
| `BaseTree.PrefixKeepsInvariant` | source/fs/filesystem.c:1165-1193 | Every step of that completion, not only the last, gives a well-formed tree when no such directory is a file. |
| `BaseTree.BaseCounterexample` | source/fs/filesystem.c:1165-1193 | A tree whose completion is not well formed. |
| `BaseTree.BaseSize` | source/fs/filesystem.c:1165-1193 | Completing a tree adds exactly as many nodes as base paths are missing from it. |
| `BaseTree.CannotComplete` | source/fs/filesystem.c:1165-1193 | If the table is full when a missing base node is reached, the tree and its missing base nodes exceed the 256 slots. |
| `BaseTree.NoneMissing` | source/fs/filesystem.c:1165-1193 | A tree that has all base nodes is left as it is. |
| `BaseTree.FullVolumeCounterexample` | source/fs/filesystem.c:1165-1193 | A well-formed tree of 256 nodes without `/temp`, as removing it and creating files leaves: no slot for the missing base node, so it does not mount. |
| `FileSystem.Fs.constructor` | source/fs/filesystem.c:1335-1397 | From an absent volume, one that denotes a tree, or one the load turns down: on healthy storage a volume that denotes a tree is used if and only if there is a slot for every base node it lacks. The files then are the stored tree plus those nodes; otherwise the base tree in RAM, and the volume keeps its tree, possibly with some base nodes added, and can be mounted again unless a base directory was replaced by a file. A volume with a malformed slot, or used slots and no "/", is left untouched. The invariant holds unless a base directory was replaced by a file. |
| `FileSystem.Fs.LoadPersistent` | source/fs/filesystem.c:1202-1326 | The tree is exactly what the slots decode to plus the missing base nodes. On healthy storage a volume that denotes a tree is refused if and only if there is no slot for one of them; a volume with a malformed slot, or used slots and no "/", is always refused and not written. |
| `FileSystem.Fs.LoadNodes` | source/fs/filesystem.c:1202-1273 | For any volume whatever: on healthy storage the reading loop succeeds if and only if every slot decodes and every used one is acceptable, and then the table is exactly what the slots decode to. |
| `FileSystem.Fs.CreateInitialTree` | source/fs/filesystem.c:1165-1193 | Adds exactly the base nodes that are missing; without an I/O error it succeeds if and only if the tree and the missing base nodes fit into 256 slots, and a refusal leaves a prefix of them added. |
| `FileSystem.Fs.FindNode` | source/fs/filesystem.c:244-275 | Finds the slot that holds a path, or none exists. |
| `FileSystem.Fs.AddNode` | source/fs/filesystem.c:695-776 | Adds exactly one node, in memory and on disk; "already exists" and "no space" exactly when they apply. |
| `FileSystem.Fs.Persist` | source/fs/filesystem.c:361-430 | After success the slot decodes to the node being stored and the cache agrees with the disk. |
| `FileSystem.Fs.EnsureDirectory` | source/fs/filesystem.c:1015-1156 | Success if and only if no file is on the way and the missing prefixes fit into the free slots; then exactly those are added. A file on the way changes nothing; "no space" leaves the shortest missing prefixes that filled the table. |
| `FileSystem.GetParentPath` | source/fs/filesystem.c:837-914 | The text of the parent, with no parent for the root. |
| `FileSystem.Fs.Move` | source/fs/filesystem.c:2485-2800 | The answer is a function of the tree and the two names, and so is the tree each answer leaves. Success: created ancestors of the destination, every path under the source rebased, nothing else changed, the current directory rebased exactly when it was inside the source. "No space" if and only if the missing ancestors exceed the free slots. Refusals by name or by a file on the way change nothing; a path that would not fit leaves the ancestors, never the destination. |
| `FsOutcomes.MoveOkIff` | source/fs/filesystem.c:2485-2640 | A move succeeds exactly when the source exists and is not "/", the destination does not exist and is not under the source, nothing but directories stands on the way to it, the missing ones fit into the table, and every rebased path fits its buffer. Directories move as files do. |
| `FsOutcomes.MoveRefusedIff` | source/fs/filesystem.c:2485-2640 | Each refusal of a move has exactly one cause on the tree and the two paths, in the order of the checks. |
| `FileSystem.Fs.RenameAll` | source/fs/filesystem.c:2700-2785 | The in-place rename loop computes the simultaneous renaming. |
| `FileSystem.Fs.Copy` | source/fs/filesystem.c:2146-2476 | The same for copy: success gives every node under the source a twin and changes no old node; "no space" if and only if the missing ancestors, or they and the nodes under the source, exceed the free slots, and never inside the loop. |
| `FsOutcomes.CopyOkIff` | source/fs/filesystem.c:2146-2330 | A copy succeeds exactly when the source exists, the destination does not and is not under the source, nothing but directories stands on the way to it, the missing ones and the nodes under the source fit into the table, and every path fits its buffer. |
| `FsOutcomes.CopyRefusedIff` | source/fs/filesystem.c:2146-2330 | Each refusal of a copy has exactly one cause on the tree and the two paths. |
| `FsOutcomes.RefusedChangesNothing` | source/fs/filesystem.c:2485-2640 | A refused move or copy changes no node and adds at most empty directories on the way to the destination; none after "not found", "busy", "already exists", "not a directory" and the refusal to move a directory into itself. |
| `FileSystem.Fs.CopyNodes` | source/fs/filesystem.c:2340-2476 | With the free-slot check passed, the loop can end only in success or an I/O error. |
| `FileSystem.Fs.Remove` | source/fs/filesystem.c:1965-2137 | The answer is a function of tree, name and current directory: the node or its subtree is gone and nothing else, or the refusal has its cause (root, current directory inside, not empty, not found) and nothing changes. |
| `FsOutcomes.RemoveIff` | source/fs/filesystem.c:1965-2137 | A remove succeeds exactly when the node exists, the current directory is not in it, and the call is recursive or nothing else goes with the node; "not empty" exactly when a non-recursive call meets a child. |
| `FileSystem.Fs.ChangeDirectory` | source/fs/filesystem.c:1543-1589 | Succeeds exactly when the name resolves to a directory, which becomes current. |
| `FileSystem.Fs.CreateDirectory` | source/fs/filesystem.c:1798-1849 | Exact answers, as for the directories of a path; the invariant holds afterwards. |
| `FsOutcomes.MakeDirIff` | source/fs/filesystem.c:1798-1849 | Each answer has exactly one cause; success leaves the directory and adds only directories on the way, a full table is the only refusal that may leave some. |
| `FileSystem.Fs.CreateFile` | source/fs/filesystem.c:1858-1956 | Exact answers: success adds the missing parents and an empty file; "no space" if and only if the missing parents and the file exceed the free slots, and it never leaves anything at the path of the file. |
| `FsOutcomes.MakeFileIff` | source/fs/filesystem.c:1858-1956 | Each answer has exactly one cause: the root, an existing node, a file on the way, a table without room for directories and file. |
| `FileSystem.Fs.ReadFile` | source/fs/filesystem.c:2809-2923 | Returns exactly the bytes of the file when they fit with their terminator; every refusal has its cause; nothing changes. |
| `FsOutcomes.EveryFileFound` | source/fs/filesystem.c:2809-2923 | The name of any existing file opens it from every current directory, and that of a directory is refused as no file. |
| `FileSystem.Fs.WriteFile` | source/fs/filesystem.c:2932-3028 | The file then holds exactly these bytes, no other file changes; too large exactly beyond 65536; with reliable storage a present file is always written. |
| `FileSystem.Fs.AppendFile` | source/fs/filesystem.c:3037-3170 | The file then holds its old bytes followed by the new ones; too large exactly when the sum exceeds 65536. |
| `FsOutcomes.NoSlotLeft` | source/fs/filesystem.c:1015-1156 | Where creation stops for want of a slot: the missing directories did not fit, and those created filled the table. |
| `FsOutcomes.FileInTheWay` | source/fs/filesystem.c:1015-1156 | Where creation stops at a file everything before it existed, so nothing has been created. |
| `FsOutcomes.SameBelow` | source/fs/filesystem.c:2281-2300 | Creating the destination directory changes neither the number of nodes under the source nor whether they fit at the destination. |
| `FsOutcomes.MoveFinished` | source/fs/filesystem.c:2485-2800 | The two halves of a move, before and after the destination directory exists, make the outcome promised for the whole. |
| `FsOutcomes.CopyFinished` | source/fs/filesystem.c:2146-2476 | The two halves of a copy make the outcome promised for the whole. |
| `FsOutcomes.FileFinished` | source/fs/filesystem.c:1858-1956 | The two halves of creating a file make the outcome promised for the whole. |
| `FileSystem.Remount` | source/fs/filesystem.c:1335-1397 | Starting again from the sectors of a running filesystem: on healthy storage it stays on the volume if and only if there is a slot for every base node that has gone missing. The tree then is the old one plus those nodes, and exactly the old one when none is missing; otherwise the new tree is the bare base tree in RAM and the volume keeps the old one. |
| `FsRuns.Serve` | source/fs/filesystem.c:1543-3170 | Every call that meets no I/O error is a step of the tree machine and keeps the invariant; with reliable storage no call ends in an I/O error. |
| `FsRuns.Run` | source/fs/filesystem.c:1335-3170 | Every sequence of calls answers, up to its first I/O error, as the tree machine does and passes through its trees and current directories; on a volume the disk slots decode to exactly the table in memory at the end. |
| `FsRuns.StartAndServe` | source/fs/filesystem.c:1335-3170 | One start on a healthy volume and any calls: they work on the stored tree and the missing base nodes, or on the base tree in RAM while the volume keeps its tree; unless a base directory is then a file, the volume can be mounted again. |
| `FsRuns.Restarts` | source/fs/filesystem.c:1335-3170 | Any number of starts, each followed by any calls, up to the first that leaves a file in place of a base directory: each works on what the one before it left on the volume. |
| `HeapBlocks.BlocksDisjoint` | source/kernel/heap.c:157-306 | Blocks lie in the arena and distinct blocks do not overlap. |
| `HeapBlocks.Conservation` | source/kernel/heap.c:796-890 | used + free + 20 * blocks = 8 MiB. |
| `HeapBlocks.TakeLive` | source/kernel/heap.c:354-421 | Allocation makes exactly one block live, of at least the size asked, where none was live. |
| `HeapBlocks.TakeShape` | source/kernel/heap.c:280-421 | The block taken keeps at most 36 bytes beyond the request; the rest becomes one free block behind it and no other block changes. |
| `HeapBlocks.GiveLive` | source/kernel/heap.c:534-599 | Release makes exactly that block dead, through both merges. |
| `HeapBlocks.TakeCoalesced` | source/kernel/heap.c:354-421 | Allocation never creates free neighbours. |
| `HeapBlocks.GiveCoalesced` | source/kernel/heap.c:534-599 | Release never leaves free neighbours. |
| `HeapBlocks.NoGapFits` | source/kernel/heap.c:354-421 | In a coalesced heap a failing request has no contiguous free gap that could hold it, headers included. |
| `HeapLinks.LinksInverse` | source/kernel/heap.c:157-306 | previous and next are mutually inverse along the block list. |
| `HeapLinks.SplitLists` | source/kernel/heap.c:157-242 | The header stores of a split turn the list found in memory into the split list. |
| `HeapLinks.MergeLists` | source/kernel/heap.c:251-306 | The header stores of a merge turn the list found in memory into the merged list. |
| `HeapMemory.PayloadsDisjoint` | source/kernel/heap.c:354-421 | Payloads of distinct live blocks do not overlap. |
| `HeapMemory.SplitEffect` | source/kernel/heap.c:157-242 | A split changes no payload byte of another live block and keeps the front of its own. |
| `HeapMemory.MergeEffect` | source/kernel/heap.c:251-306 | A merge changes no payload byte of any live block. |
| `KernelHeap.Heap.Init` | source/kernel/heap.c:315-345 | One free block over the whole arena, nothing live. |
| `KernelHeap.Heap.SplitBlock` | source/kernel/heap.c:157-242 | The byte-level stores realise the split of the block list. |
| `KernelHeap.Heap.MergeNextBlock` | source/kernel/heap.c:251-306 | The byte-level stores realise the merge; the absorbed header loses its magic number. |
| `KernelHeap.Heap.Malloc` | source/kernel/heap.c:354-421 | NULL exactly when not initialised, for size 0, for a size whose rounding to 16 would wrap in 32 bits, or when no free block holds the size in whole 16-byte units, and then nothing changed; so an initialised heap with a free block of size + 15 bytes never refuses. Otherwise first fit, a new payload of at least the size, all other payloads byte for byte unchanged. |
| `KernelHeap.Heap.Scan` | source/kernel/heap.c:385-418 | Following the next links finds the first fitting block. |
| `KernelHeap.Heap.Calloc` | source/kernel/heap.c:430-488 | As malloc of the product, with the same exact condition for NULL and also when the product overflows 32 bits; the payload is zero. |
| `KernelHeap.Heap.SeesLive` | source/kernel/heap.c:497-525 | The guards of free and realloc recognise exactly the live pointers. |
| `KernelHeap.Heap.Free` | source/kernel/heap.c:534-599 | A live pointer becomes dead and no other payload changes; NULL, foreign and already freed pointers change nothing; afterwards a second free is harmless. |
| `KernelHeap.Heap.Realloc` | source/kernel/heap.c:608-787 | Fails exactly when it can neither shrink, grow into the next block nor allocate, and then changes nothing; never for a live pointer while some free block has size + 15 bytes. Otherwise the first min(old, new) bytes are kept and all other payloads are unchanged. |
| `KernelHeap.Heap.CountBytes` | source/kernel/heap.c:813-890 | The statistics are the sums over the block list. |
| `HeapRuns.EveryRunTiles` | source/kernel/heap.c:354-787 | After every run of malloc, calloc, free and realloc the blocks tile the arena and used + free + headers is 8 MiB. |
| `HeapRuns.RunCoalesced` | source/kernel/heap.c:354-599 | After every run of malloc, calloc and free no two neighbours are both free. |
| `HeapRuns.FreeingAllRestores` | source/kernel/heap.c:534-599 | A run of malloc, calloc and free that has freed everything ends in the single initial block. |
| `HeapRuns.FailureMeansNoGap` | source/kernel/heap.c:354-421 | After such a run, a request that fails and does not wrap in 32 bits has no contiguous free gap that would hold it, headers between free blocks counted. |
| `HeapBlocks.AlignMeans` | source/kernel/heap.c:71-99 | Rounding gives the next multiple of 16, and 0 exactly where the sum would wrap in 32 bits. |
| `HeapRuns.CanAllocIff` | source/kernel/heap.c:354-421 | Allocation succeeds exactly for sizes that do not wrap and that some free block holds in whole units of 16. |
| `HeapRuns.CanResizeIff` | source/kernel/heap.c:608-787 | Resizing a live block succeeds exactly when it, it and its free neighbour, or some free block holds the size. |
| `HeapRuns.ResizeCoalescedIff` | source/kernel/heap.c:685-697 | A realloc keeps "no free neighbours" if and only if it is not a shrink that splits in front of a free block. |
| `HeapRuns.ResizeCounterexample` | source/kernel/heap.c:685-697 | malloc(64) then realloc to 16 leaves two free neighbours. |
| `HeapClient.Act` | source/kernel/heap.c:354-787 | One action of a program on pointers it holds: it gets NULL if and only if the block list has no block for it, its payloads change only as the action says, byte for byte, no two held pointers share a block, every live block is held, and the block list is that of the calls the action makes. |
| `HeapClient.Play` | source/kernel/heap.c:354-787 | The same for every program: all payloads evolve by its own actions alone, the block lists are those of exactly the heap calls it makes and tile the arena, and a program without realloc that has given up everything leaves the single initial block. |
| `HeapClient.Start` | source/kernel/heap.c:315-787 | The same from heap_init on. |
| `HeapClient.TrackChange` | source/kernel/heap.c:608-787 | A resized pointer replaces the old one; every other pointer keeps its payload. |
| `HeapClient.TrackDrop` | source/kernel/heap.c:534-599 | Giving a pointer up removes its payload and no other. |
| `EditHistory.NothingForgotten` | source/editor/rootedit.c:327-378 | In every editing run, undo and redo push without dropping an entry. |
| `EditHistory.Run` | source/editor/rootedit.c:304-378 | Every run keeps undo + redo <= 24, and an open group implies an empty redo stack. |
| `EditHistory.WalkLaw` | source/editor/rootedit.c:327-378 | Any run of undos and redos moves along one fixed timeline; text, cursor and both stacks follow from the place reached. |
| `EditHistory.UndoThenRedo` | source/editor/rootedit.c:327-378 | k undos then k redos restore text, cursor and both stacks if and only if there were k entries to undo or nothing to redo. |
| `EditHistory.UndoRedoCounterexample` | source/editor/rootedit.c:327-378 | Type, undo, then one more undo and one redo: the text is not what it was before the last two keys. |
| `EditHistory.RedoThenUndo` | source/editor/rootedit.c:327-378 | The same with undo and redo exchanged. |
| `EditHistory.OneUndoPerGroup` | source/editor/rootedit.c:304-325 | However many characters are typed or erased in a row, one undo restores text and cursor from before the first, one redo the result. |
| `EditHistory.BackspaceUndoesInsert` | source/editor/rootedit.c:1607-1748 | Erasing what was typed restores text and cursor. |
| `EditHistory.InsertAt` | source/editor/rootedit.c:1607-1684 | By index: the code point stands at the cursor, everything behind it has moved up by one; a full buffer stays as it is. |
| `EditHistory.BackspaceAt` | source/editor/rootedit.c:1685-1748 | By index: the code point before the cursor is gone, everything behind it has moved down by one. |
| `EditHistory.DeleteAt` | source/editor/rootedit.c:1750-1831 | By index: the code point at the cursor is gone, everything behind it has moved down by one. |
| `EditHistory.TypedWord` | source/editor/rootedit.c:1607-1684 | Typing a word, in any state with room for it, puts it where the cursor is and the cursor behind it. |
| `EditHistory.SingleKeys` | source/editor/rootedit.c:2904-2938 | Enter types a newline and Tab four spaces, one undo takes either back; a cursor key changes the cursor only and closes the group. |
| `RootEdit.Ring.PushEntry` | source/editor/rootedit.c:210-252 | The ring is a bounded stack that forgets its oldest entry when full. |
| `RootEdit.Ring.Pop` | source/editor/rootedit.c:254-295 | Takes the newest entry off that stack. |
| `RootEdit.Editor.constructor` | source/editor/rootedit.c:2328-2368 | Opening a file: its text, cursor at the end, empty history. |
| `RootEdit.Editor.RecordUndo` | source/editor/rootedit.c:304-325 | Pushes the current text and clears redo, except inside the open group. |
| `RootEdit.Editor.UndoLast` | source/editor/rootedit.c:327-352 | Does to text, cursor and rings what the stack model says. |
| `RootEdit.Editor.RedoLast` | source/editor/rootedit.c:354-378 | Does to text, cursor and rings what the stack model says. |
| `RootEdit.Editor.InsertCodepoint` | source/editor/rootedit.c:1607-1683 | The in-place loop inserts at the cursor, or nothing when 4096 code points are full. |
| `RootEdit.Editor.EraseBefore` | source/editor/rootedit.c:1685-1748 | The in-place loop removes the code point before the cursor. |
| `RootEdit.Editor.EraseAfter` | source/editor/rootedit.c:1750-1808 | The in-place loop removes the code point at the cursor. |
| `RootEdit.Editor.PressKey` | source/editor/rootedit.c:2706-2958 | Each key, with nothing selected, does what the history model says and keeps its invariant. |
| `RootEdit.Edit` | source/editor/rootedit.c:2706-2958 | A whole session from an opened text: buffer, cursor and rings end as the history model says. |
| `Rle8.Pack` | tools/driverpack.py:12-26 | The encoder loops produce the chunk sequence. |
| `Rle8.Unpack` | source/driver/driver_store.c:97-119 | The decoder loops succeed exactly when the input decodes to the whole buffer, and then fill it so. |
| `Rle8.RoundTripIff` | tools/driverpack.py:12-26 | Decoding an encoded module returns it if and only if no literal chunk has 129 bytes. |
| `Rle8.NoTripleBreaks` | tools/driverpack.py:19-25 | A family of inputs whose first literal has 129 bytes and does not come back. |
| `Rle8.RoundTripCounterexample` | tools/driverpack.py:20-25 | A 129-byte input that does not come back. |
| `Rle8.EncodedSize` | tools/driverpack.py:12-26 | Encoding n bytes takes at most n + n/128 + 1 bytes. |
| `Rle8.RunFormat` | tools/driverpack.py:12-26 | 3 to 130 equal bytes become two, run + 125 and the byte, and are read back from them. |
| `Rle8.LiteralFormat` | source/driver/driver_store.c:97-130 | A control byte below 128 is followed by one byte more than it says, taken as they are. |
| `Checksum.FoldIsResidue` | source/network/udp.c:47-50 | Folding carries is reduction modulo 65535 with zero only for zero (RFC 1071, section 1). |
| `Checksum.WordsAre` | source/network/udp.c:32-51 | The sum is over big-endian words, a last single byte being the high half of one. |
| `Checksum.ChecksumAdd` | source/network/udp.c:32-51 | The 32-bit loop folds the exact word sum, without overflow up to 131072 bytes, odd lengths included. |
| `Checksum.OverflowBound` | source/network/udp.c:32-51 | One word beyond that the 32-bit sum can overflow. |
| `Checksum.Ipv4Checksum` | source/network/ipv4.c:38-58 | Folding after every word gives the complement of the same fold. |
| `Checksum.ChangedWordIff` | source/network/udp.c:239-256 | A message that checks still checks after one word changed exactly when the word is the same modulo 65535. |
| `Checksum.WrongByteDetected` | source/network/udp.c:239-256 | One wrong byte is always detected by the sum. |
| `Packets.UdpFieldChecks` | source/network/udp.c:53-73 | Every UDP segment checksummed by the sender checks, and its field is never 0. |
| `Packets.TcpFieldChecks` | source/network/tcp.c:58-73 | Every TCP segment checksummed by the sender checks. |
| `Packets.HeaderChecks` | source/network/ipv4.c:60-79 | Every IPv4 header built by the sender checks (RFC 791, section 3.1). |
| `Packets.UdpRoundTrip` | source/network/udp.c:147-256 | The segment built for a payload of any length is accepted and delivers that payload, whatever bytes follow it. |
| `Packets.TcpRoundTrip` | source/network/tcp.c:96-142 | Every segment built by send_segment is accepted by its addressee with the same fields (RFC 9293, section 3.1). |
| `Packets.Ipv4RoundTrip` | source/network/ipv4.c:86-224 | Every packet built is accepted by its addressee with its payload, whatever padding follows. |
| `Packets.UdpEndToEnd` | source/network/udp.c:147-260 | From udp_send_to through IPv4 and a padded Ethernet frame to the handler, every payload arrives unchanged. |
| `Packets.TcpWrongByte` | source/network/tcp.c:257-282 | An accepted segment with one wrong byte is never accepted. |
| `Packets.UdpWrongByteIff` | source/network/udp.c:239-256 | With one wrong byte outside the length field, an accepted segment is accepted if and only if the error set the checksum field to 0, which disables the check, or lies behind the length the segment states. |
| `Packets.UdpReceive` | source/network/udp.c:213-260 | Accepts and delivers exactly as the field checks and the checksum say. |
| `Packets.TcpReceive` | source/network/tcp.c:257-282 | Accepts exactly as the size checks and the checksum say. |
| `Packets.Ipv4Receive` | source/network/ipv4.c:173-210 | Accepts exactly unfragmented, well-sized, checked packets for this host. |
| `Packets.PseudoSum` | source/network/udp.c:58-69 | The pseudo header adds both addresses, the protocol and the length in 16 bits. |
| `Packets.UdpAcceptIff` | source/network/udp.c:213-260 | On bytes: a segment is taken exactly with both ports set, a stated length from 8 to its size, and no checksum or a sum divisible by 65535. |
| `Packets.TcpAcceptIff` | source/network/tcp.c:257-282 | On bytes: a segment is taken exactly by its addressee, with a header of at least 20 bytes inside it and a sum divisible by 65535. |
| `Packets.Ipv4AcceptIff` | source/network/ipv4.c:173-210 | On bytes: a packet is taken exactly when it is version 4, its header and length lie inside it, its header sums to a multiple of 65535, it is no fragment and it is for this host or for everybody. |
| `Packets.HeaderFields` | source/network/ipv4.c:58-80 | Every field of the header that is sent, at its offset. |
| `Packets.TcpFields` | source/network/tcp.c:97-137 | Every field of the segment that is sent, at its offset, with the maximum segment size in an opening one. |
| `NetStack.Stack.BuildHeader` | source/network/ipv4.c:60-79 | The field stores leave a complete header and advance the 16-bit identification. |
| `NetStack.Stack.SendPacket` | source/network/ipv4.c:86-129 | Hands a frame to the device exactly under the stated conditions, a ready device among them, and then the frame of that packet; takes an identification exactly when the packet passes its own checks. |
| `NetStack.Stack.SendEthernet` | source/network/net.c:98-140 | Refuses exactly an unready device and an oversized payload; otherwise the frame is header, payload and padding to 60 bytes. |
| `NetStack.Stack.SendUdp` | source/network/udp.c:147-196 | Sends exactly under the stated conditions, and then the frame of the checksummed segment. |
| `NetStack.Stack.SendTcp` | source/network/tcp.c:96-142 | Sends exactly under the stated conditions, and then the frame of the checksummed segment. |
| `NetStack.Exchange` | source/network/udp.c:147-260 | Between two hosts, through the sending buffers and the receiving checks: a datagram is handed to the device exactly under the stated conditions, and its payload then arrives unchanged. |
| `PciBus.Pci.Rescan` | source/drivers/pci/pci.c:305-383 | For every topology, cycles included, the loop ends; the buses scanned are exactly those reachable from bus 0, each once; the functions read are exactly those visible on them, and the table holds the first 128. |
| `PciBus.Pci.QueueBus` | source/drivers/pci/pci.c:283-303 | A bus is queued once; an unseen bus always finds room. |
| `PciBus.RoomForUnseen` | source/drivers/pci/pci.c:283-303 | Distinct bus numbers never use up the 256 entries while one is unseen. |
| `PciBus.SearchStep` | source/drivers/pci/pci.c:321-382 | Scanning one bus keeps: everything queued is reachable, everything scanned leads only to queued buses. |
| `PciBus.SearchDone` | source/drivers/pci/pci.c:321-382 | A used-up queue holds exactly the reachable buses. |
| `PciBus.OnBusesMeans` | source/drivers/pci/pci.c:325-381 | The scan order lists every visible function on the buses scanned, each once. |
| `PciBus.VisibleIff` | source/drivers/pci/pci.c:325-381 | Function 0 is seen when it is there; the other seven only if function 0 is there and has the multifunction bit. |
| `PciBus.TableComplete` | source/drivers/pci/pci.c:229-281 | With at most 128 functions the table lists each visible function on a reachable bus exactly once and nothing else. |
| `PciBus.Pci.StoreDevice` | source/drivers/pci/pci.c:229-281 | The table keeps the first 128 functions found. |
| `ElfLayout.LayoutPlaces` | source/app/elf_loader.c:343-410 | An accepted object gets aligned section ranges inside an image of at most 2 MiB, in order and so pairwise disjoint. |
| `ElfLayout.LayOutIff` | source/app/elf_loader.c:343-410 | The layout is refused exactly when some allocated section has an alignment that is no power of two up to 4096, ends beyond 2 MiB, or has contents outside the file. |
| `ElfLayout.PlacedTightly` | source/app/elf_loader.c:343-410 | Each section ends where the sections so far end: nothing lies between two of them but alignment. |
| `ElfLayout.LayOutSections` | source/app/elf_loader.c:343-410 | The loop computes that layout or the first error. |
| `ElfLayout.RuntimeAligned` | source/app/elf_loader.c:412-455 | At a base aligned to the largest alignment every section address is aligned as its header asks. |
| `ElfLayout.ImageFits` | source/app/elf_loader.c:412-430 | The aligned image lies inside the allocation. |
| `ElfLoader.ByteLoaded` | source/app/elf_loader.c:430-455 | Byte by byte, each section range holds its file contents, or zeros for NOBITS. |
| `ElfLoader.LoadSections` | source/app/elf_loader.c:430-455 | The copy loop builds that image. |
| `ElfLoader.FindSymbolTable` | source/app/elf_loader.c:457-514 | The first symbol table and its checks. |
| `ElfLoader.FirstSymbols` | source/app/elf_loader.c:457-514 | The first symbol table alone decides, whatever comes after it. |
| `ElfLoader.Relocate` | source/app/elf_loader.c:516-631 | The loop applies the patches the object asks for, in order, or reports the first error; neither depends on the load address. What the patches do to the bytes of the file is `ElfFields.FieldInMemory`. |
| `ElfLoader.FinalField` | source/app/elf_loader.c:601-622 | With fields that do not overlap, each ends as S + A or S + A - P in 32 bits with A from the file (Relocation section of chapter 4, System V ABI Intel386 supplement). |
| `ElfLoader.Untouched` | source/app/elf_loader.c:516-631 | Bytes outside every field stay as loaded. |
| `ElfLoader.BaseIndependent` | source/app/elf_loader.c:516-631 | Bytes that belong to no field are the same at every load address. |
| `ElfLoader.BaseShift` | source/app/elf_loader.c:516-631 | At two load addresses a section-relative R_386_PC32 field is identical and a R_386_32 field differs by the distance modulo 2^32; absolute symbols have weights 0 and -1. |
| `ElfLoader.SectionInMemory` | source/app/elf_loader.c:430-631 | For accepted files, at every load address: each byte of an allocated section that belongs to no field is its file byte, or zero for NOBITS. |
| `ElfLoader.PatchShift` | source/app/elf_loader.c:261-631 | The same for whole files: acceptance and size do not depend on the load address. |
| `ElfLoader.Load` | source/app/elf_loader.c:261-631 | From file bytes to relocated image, or the error, with an aligned base inside the allocation. |
| `ElfFields.AcceptedIff` | source/app/elf_loader.c:516-631 | A file is accepted exactly when its headers are and every relocation section and entry is in order: symbol in range and placed, field inside its section, type 0, 1 or 2. |
| `ElfFields.FieldInMemory` | source/app/elf_loader.c:516-631 | On the bytes of an accepted file whose fields do not overlap: the field of an entry of type 1 (R_386_32) is S + A and of type 2 (R_386_PC32) S + A - P, in 32 bits, with S from the symbol table entry, A the bytes the file has there and P the address of the field. |
| `ElfFields.LoadShift` | source/app/elf_loader.c:516-631 | At two load addresses: for a symbol in a section a type 2 field is the same word and a type 1 field differs by the distance; for an absolute symbol a type 1 field is the same and a type 2 field differs by the negative distance. |
| `ElfFields.HeaderBytes` | source/app/elf_loader.c:149-206 | The header an object must have, byte by byte. |
| `ElfFields.SectionFields` | source/app/elf_loader.c:330-342 | Each field of a section header stands at its offset of the table. |
| `Pictures.ChannelRoundTrip` | source/display/rootdisplay_legacy_impl.c:81-106 | pack(unpack(v)) = v for every channel width from 1 to 8 bits. |
| `Pictures.PackUnpack` | source/display/rootdisplay_legacy_impl.c:141-178 | Reading a packed pixel as a colour and packing it again gives the same pixel. |
| `Pictures.ClipMeans` | source/display/rootdisplay_legacy_impl.c:656-669 | The 32-bit wrap-around test clips exactly as unbounded addition would. |
| `Pictures.MonoDot` | source/display/rootdisplay_legacy_impl.c:569-638 | Dot (px, py) of a bitmap is bit 7 - px % 8 of byte py * stride + px / 8: where it is set the picture shows the packed foreground, elsewhere the packed background if the bitmap is opaque and what was there if not. |
| `Pictures.MonoElsewhere` | source/display/rootdisplay_legacy_impl.c:569-638 | Every pixel that is no dot of the bitmap stays. |
| `Pictures.FillPixel` | source/display/rootdisplay_legacy_impl.c:523-680 | A filled rectangle and a single pixel, pixel by pixel in unbounded arithmetic. |
| `Pictures.InvertPixel` | source/display/rootdisplay_legacy_impl.c:681-730 | Inverting changes exactly the covered pixels, and inverting again restores them. |
| `Pictures.ShiftPixel` | source/display/rootdisplay_legacy_impl.c:882-1020 | After a scroll or shift each row shows the row it came from, or the fill if that lies outside the region. |
| `Pictures.PackNearest` | source/display/rootdisplay_legacy_impl.c:141-161 | A packed colour has, in each channel, the nearest value the channel can show. |
| `Pictures.CursorPixel` | source/display/rootdisplay_legacy_impl.c:340-380 | Each letter of the cursor shape is black, white or what is underneath, at its place. |
| `Pictures.CursorElsewhere` | source/display/rootdisplay_legacy_impl.c:340-380 | Outside its box, or when it is off, the cursor shows nothing. |
| `Raster.ShiftUp` | source/display/rootdisplay_legacy_impl.c:729-778 | The forward row copy, overlapping itself, and the fill give the picture moved up. |
| `Raster.ShiftDown` | source/display/rootdisplay_legacy_impl.c:780-880 | The backward row copy, overlapping itself, and the fill give the picture moved down. |
| `Raster.Flush` | source/display/rootdisplay.c:208-268 | The device shows the shadow inside the rectangle and is unchanged outside. |
| `Display.Screen.Run` | source/display/rootdisplay.c:1222-1430 | Any run of draw, scroll, cursor and nested begin/end calls: the canvas is what the drawing calls alone make of it, and the display invariant holds. |
| `Display.Show` | source/display/rootdisplay.c:1222-1430 | The same from the start of the display: the canvas is what the drawing calls make of a black screen. |
| `Display.Screen.DeviceAgrees` | source/display/rootdisplay.c:208-274 | Once the whole screen has been damaged, at depth 0 every visible pixel of the device equals the shadow. |
| `Display.Screen.GetPixel` | source/display/rootdisplay_legacy_impl.c:551-567 | The packed value read is that of the cursorless canvas, wherever the cursor is. |
| `Display.Screen.Put` | source/display/rootdisplay_legacy_impl.c:523-549 | Changes exactly that pixel of the canvas, under the cursor too. |
| `Display.Screen.FillRectangle` | source/display/rootdisplay_legacy_impl.c:640-679 | Fills exactly the clipped rectangle of the canvas; cursor and device invariants are kept. |
| `Display.Screen.InvertRectangle` | source/display/rootdisplay_legacy_impl.c:681-727 | Inverts exactly the clipped rectangle of the canvas. |
| `Display.Screen.DrawMonoBitmap` | source/display/rootdisplay_legacy_impl.c:569-638 | Draws the bitmap in the clipped rectangle of the canvas and changes nothing else; which dots those are is `Pictures.MonoDot`. |
| `Display.Screen.ScrollScreen` | source/display/rootdisplay_legacy_impl.c:882-921 | Moves the canvas up and fills the rest. |
| `Display.Screen.ShiftRegion` | source/display/rootdisplay_legacy_impl.c:924-1007 | Moves a band of the canvas up or down and fills what is uncovered. |
| `Display.Screen.ClearScreen` | source/display/rootdisplay_legacy_impl.c:1009-1018 | Fills the canvas; from then on device agreement is known. |
| `Display.Screen.RestoreBackground` | source/display/rootdisplay_legacy_impl.c:283-315 | Erasing the cursor leaves the shadow equal to the canvas. |
| `Display.Screen.CaptureBackground` | source/display/rootdisplay_legacy_impl.c:317-342 | What is saved packs to the canvas under the cursor. |
| `Display.Screen.DrawCursor` | source/display/rootdisplay_legacy_impl.c:344-382 | The shadow becomes the canvas with the cursor over it, only at depth 0. |
| `Display.Screen.BeginUpdate` | source/display/rootdisplay_legacy_impl.c:498-507 | The cursor leaves the shadow without any damage, and the invariant still holds. |
| `Display.Screen.EndUpdate` | source/display/rootdisplay_legacy_impl.c:509-521 | At depth 0 the cursor is back and the damage is on the device. |
| `Display.Screen.CursorEnable` | source/display/rootdisplay.c:1375-1400 | Changes what is shown, never the canvas. |
| `Display.Screen.CursorMove` | source/display/rootdisplay.c:1402-1430 | Moves the clamped cursor, never changes the canvas. |
| `Display.Screen.Damage` | source/display/rootdisplay.c:108-156 | The damage rectangle grows to cover the call and stays on the screen. |
| `Display.Screen.FlushDamage` | source/display/rootdisplay.c:208-268 | Afterwards nothing is dirty and the agreement holds everywhere. |
| `Terminal.PushGrows` | source/terminal/terminal.c:389-402 | Pushing a line onto a ring with room appends it to the history. |
| `Terminal.PushTurns` | source/terminal/terminal.c:389-402 | Pushing onto a full ring drops the oldest of 1024 lines. |
| `Terminal.Graphics.VisibleRow` | source/terminal/terminal.c:241-273 | Each screen row shows its line of a window on (last 1024 lines pushed ++ live rows). |
| `Terminal.PageDots` | source/terminal/terminal.c:148-189 | A page shows ink exactly at the dots of the glyphs of its lines, read from their two-byte rows. |
| `Terminal.Graphics.RenderRow` | source/terminal/terminal.c:275-298 | Sets exactly the pixels the glyphs of the line mark in that row. |
| `Terminal.Graphics.RedrawView` | source/terminal/terminal.c:300-313 | A full redraw shows exactly the page of the window. |
| `Terminal.Graphics.ShiftView` | source/terminal/terminal.c:323-363 | The overlapping framebuffer shift plus drawing only the exposed rows leaves exactly that page. |
| `Terminal.Graphics.SetOffset` | source/terminal/terminal.c:365-387 | After any change of the offset the screen is pixel for pixel what a full redraw of the new view leaves. |
| `Terminal.Graphics.Scroll` | source/terminal/terminal.c:731-768 | One line enters the history, the live rows move up, and the screen shows exactly the new rows. |
| `Terminal.Graphics.ClearAll` | source/terminal/terminal.c:843-872 | Blank rows, the view at the bottom, history kept, and the screen shows it. |
| `Terminal.ShiftPage` | source/terminal/terminal.c:323-363 | Moving the pixels of the old view gives the new view in every row not exposed. |
| `TextCells.PageCell` | source/terminal/terminal.c:172-234 | In rows of one-cell glyphs, writing a cell changes exactly the pixels of that cell, to those of the new code point. |
| `TextCells.CellShownIff` | source/terminal/terminal.c:907-1014 | A code point written and drawn shows what a redraw would if and only if it does not count as empty or has an empty glyph. |
| `TextCells.NulCounterexample` | source/terminal/terminal.c:275-298 | NUL with a glyph of one dot: drawn when written, left out by a redraw. |
| `TextCells.NewlineMeans` | source/terminal/terminal.c:907-990 | A newline goes to the start of the next line of everything printed, which grows by a blank line at its end and otherwise stays. |
| `TextCells.ReturnMeans` | source/terminal/terminal.c:907-990 | A carriage return goes to the start of the line and changes nothing. |
| `TextCells.BackspaceMeans` | source/terminal/terminal.c:907-990 | Backspace blanks the cell before the cursor and goes there, and does nothing at the start of a line. |
| `TextCells.PlainMeans` | source/terminal/terminal.c:990-1024 | A code point is written at the cursor, which moves on by one cell. |
| `TextCells.WrapMeans` | source/terminal/terminal.c:990-1024 | The last cell of a line is written before the line is broken. |
| `TextCells.TextMeans` | source/terminal/terminal.c:1051-1083 | A text that ends before the line does stands in the line as it is, and nothing else changes. |
| `TextCells.TabMeans` | source/terminal/terminal.c:907-990 | A tab inside a line writes spaces up to the next multiple of four. |
| `TextCells.TabBreaks` | source/terminal/terminal.c:907-990 | A tab that reaches the end of the line fills it with spaces and breaks it. |
| `TextConsole.Console.RenderCell` | source/terminal/terminal.c:199-233 | Whatever was in a cell of the screen, it then shows what the cell holds, and the whole screen shows the page. |
| `TextConsole.Console.EraseCursor` | source/terminal/terminal.c:408-414 | Erasing the text cursor leaves exactly the page. |
| `TextConsole.Console.SetView` | source/terminal/terminal.c:365-387 | The text cursor disappears when the view leaves the live rows; the screen shows exactly the page of the new view. |
| `TextConsole.Console.ScrollUp` | source/terminal/terminal.c:1346-1360 | Moves the view back, at most to the oldest line kept, and shows it. |
| `TextConsole.Console.ScrollDown` | source/terminal/terminal.c:1362-1385 | Moves the view forward, at most to the live rows, where the text cursor is shown again. |
| `TextConsole.Console.WriteCell` | source/terminal/terminal.c:990-1014 | The code point is in the cell; the screen shows what a redraw would if and only if it does not count as empty or has an empty glyph. |
| `TextConsole.Console.PutCodepoint` | source/terminal/terminal.c:907-1024 | Every control character and every one-cell code point does to rows, history and text cursor what the text machine says, and the screen shows the new page. |
| `TextConsole.Console.Print` | source/terminal/terminal.c:1051-1083 | The same for a whole text, from any view: output returns to the live rows, and ends with the text cursor drawn where it now is. |
| `TextConsole.Console.Clear` | source/terminal/terminal.c:843-872 | Blank rows, text cursor in the corner, view at the bottom, history kept. |
| `TextConsole.Session` | source/terminal/terminal.c:843-1385 | In every session of printing, looking back, looking forward and clearing, the screen shows pixel by pixel what a full redraw of the view would, with the text cursor exactly when the view is at the bottom; rows, history and view are those of the text machine. |
| `TextConsole.PowerOn` | source/terminal/terminal.c:792-1385 | The same from a dark screen and an empty terminal. |

## Left out

- Behaviour after an I/O error: partial copies and removals are not rolled back by the source, and nothing is promised about them.
- FileSystem.Fs.AppendFile: the sum of the two sizes is taken without 32-bit wrap-around, because the data to append would have to lie within 65536 bytes of 4 GiB, more than a 32-bit address space with a kernel in it can hold.
- FileSystem.Fs.Persist: the flag that remembers failed storage is not modelled; nothing but a status query reads it.
- FileSystem.Fs.constructor: a volume whose slots all load but do not denote a tree (a path twice, an orphan, a path that is not canonical) is not covered, because no operation means anything on it; content allocation in RAM is an arbitrary success or failure, not the heap model.
- FileSystem.Fs.LoadPersistent: the same volumes are not covered.
- Listing, printing and size queries of the filesystem: read-only loops over the same table.
- RootFsDisk.Volume.WriteFile: sectors are whole values; the byte loop that fills one sector buffer is not modelled step by step.
- KernelHeap.Heap.Realloc: needs a `Genuine` pointer, since a pointer into a payload whose preceding word happens to be the magic number is taken for a block by the source; pointers are not claimed to be 16-byte aligned, because a 20-byte header makes them not so.
- KernelHeap.Heap.Free: needs a `Genuine` pointer, for the same reason.
- KernelHeap.Heap.SeesLive: needs a `Genuine` pointer, for the same reason.
- Display.Screen.Run: the update depth is unbounded, so 2^32 nested updates are not modelled; the fallback that draws to the device without a shadow is not modelled either.
- Raster.ShiftUp: rows are copied pixel by pixel; the 32-byte unrolled word copies and the padding bytes of the pitch are not modelled.
- Display initialisation from Multiboot, PAE mapping and cache policy: hardware set-up.
- Terminal.Graphics.SetOffset: starts from a screen whose text cursor has been erased, which `TextConsole.Console.SetView` does for text of one-cell glyphs; the selection highlight is not modelled.
- Terminal.Graphics.ClearAll: the text cursor is that of `TextConsole.Console.Clear`.
- TextConsole.Session: glyphs two cells wide are not modelled, because overwriting them can leave continuation cells whose cursor is then not erased; moving the text cursor freely, clearing one row, the selection and the decoding of UTF-8 are not events either.
- TextConsole.Console.PutCodepoint: needs code points of one cell, whose glyphs are 8 pixels wide, or without a glyph; see above.
- Terminal.Graphics.Scroll: output batches, which defer the redraw, are not modelled.
- Terminal.Graphics.RenderRow: rows of cells are values, so the column loops that copy them are not modelled.
- RootEdit.Editor.constructor: takes code points; the UTF-8 decoding of the file is not modelled.
- RootEdit.Editor.PressKey: selection, clipboard, mouse and drawing are not modelled; cursor keys are one Move.
- ElfLayout.LayOutSections: align_up and power_of_two are arithmetic, not bit masks; for powers of two they agree.
- ElfLoader.Load: reading the file with its 64 KiB limit, failure to allocate the image, the entry symbol and running the program are not modelled.
- Packets.UdpWrongByteIff: a wrong byte in the length field is left out, because the sum is then taken over other bytes and may come out either way.
- Packets.TcpReceive: connection states, and the handlers and bindings behind UDP, are not modelled.
- NetStack.Stack.SendPacket: address resolution and the readiness of the device are arguments, and what the device answers is not modelled; ARP, DHCP, DNS and polling are not modelled.
- NetStack.Stack.SendEthernet: what the device answers to the frame is not modelled.
- NetStack.Stack.SendUdp: the same.
- NetStack.Stack.SendTcp: the same.
- PciBus.Pci.StoreDevice: BARs and the other registers of a stored device are not modelled.
- The CRC and matching of driver packs, the driver module loader (a near copy of the app loader), USB, input, shell, processes and packages.
