# A verified model of the uCore file system image builder and support libraries

This Dafny project models five parts of the lab 8 tree of the uCore teaching kernel and proves properties of them:

- **The image builder** (`tools/mksfs.c`). It turns a host directory tree into the blocks of an SFS image. The state is
  modelled twice: as a value (`Image`, `Build`), on which space, block maps, links and the round trip are proved, and as
  cached inodes and index blocks that are updated in place behind hash chains (`Caches`, `Flush`, `Builder`), whose every
  operation is proved to have the effect of the value. `Disk` describes the image after the flush and how to read it,
  `Layout` and `Tails` say where each byte stands, and `RoundTrip` decodes it.
- **The skew heap** (`libs/skew_heap.h`). `SkewTree` has the shapes: order, contents and the amortised cost. `SkewHeap`
  has the algorithm on nodes with left, right and parent links.
- **Random numbers and hashing** (`libs/rand.c`, `libs/hash.c`), in `Lcg`, `Rand` and `Hash`.
- **Formatting, number parsing and moving memory** (`libs/printfmt.c`, `libs/string.c`), in `Numerals`, `Strtol`,
  `Format`, `Sprint` and `Memory`.
- **Circular lists** (`libs/list.h`), in `Ring`.

`dafny verify dfyconfig.toml` checks everything.

## Where the code and its comments or its purpose differ

- `add_entry` writes 256 bytes of a 260-byte entry, so only 252 bytes of a name reach the disk (`RoundTrip.ImageIntactIff`,
  `RoundTrip.LongNameIsCut`).
- `alloc_cache_block` inserts every index block under the hash of its parameter, which is always 0, and not of its
  number; a search by number misses it unless the number hashes to the same chain (`Builder.Sfs.SearchCacheBlock`,
  `FirstIndex.SearchWouldMiss`). Such a search never happens: searches are counted, and every operation from
  `append_block` up promises that it made none, because the cached pointers of a file always are the blocks that its slots name.
- `create_sfs` counts the blocks of the image file in 32 bits. For files of 2^44 bytes and more it uses all it could use,
  or 524288 blocks, iff the truncated count is at least 524288 (`Space.BlockCount`).
- `rand` promises results in [0, RAND_MAX]. The divisor of `do_div` is not parenthesised in the macro
  (`libs/riscv.h:234-240`), so 1 is added to the remainder instead of to the divisor: 0 never occurs, and the values 1 to
  32 are slightly more frequent than the rest (`Rand.ResultFrequency`).
- The comments on `strtol` allow a prefix "0X"; the code accepts "0x" only (`Strtol.HexPrefixIff`), and of "0X" it
  parses the zero alone (`Strtol.UpperPrefix`). `strtol` wraps on overflow, at 64 bits: the result is the
  number in the text iff that fits (`Strtol.ParseOf`).
- After the dot of a precision a leading 0 is still the flag for zero padding, and a precision whose value is 0, or that
  has no digits, is not read: "%.0s" shows the whole string (`Format.PrecisionScan`, `Format.StringPrecision`,
  `Format.ZeroPrecision`); section 7.21.6.1 of ISO/IEC 9899:2011 has it show nothing. Every other precision is read with
  its decimal value.
- `%d` prints the sign before the padding, and `%p` its prefix, so that with space padding the output does not parse
  back (`Strtol.DecimalRoundTrip`, `Strtol.PointerRoundTrip`).
- The '-' flag pads a number with '-' characters on its left; such output parses back only without padding, or behind
  one such character if the number is its own negative (`Strtol.ReadableIff`).

## Reading the contracts

- A block of the image is a sequence of 4096 bytes, a disk a map from block numbers to blocks, and `log` counts how often
  each block was written. `Run(size, slack, kids)` is the whole build of a host tree `kids` on an image file of `size`
  bytes up to the flush; `slack` is what allocated memory held behind the label of the superblock.
  `View` gives the kind
- The host tree lists the entries of each directory in the order of `readdir`, without "." and "..". `Hosted(kids, files)`
  says that names are C strings, that all names of one host file have the contents `files` gives for its number, and that
  links and directories have other numbers.
- Link counts are 16 bits wide; statements about them are modulo 2^16.
- In the builder classes ghost fields `fs` and `held` tie the objects to the state as a value; `Build.X(old(fs), ...)` in
  a contract is the new state or the error of the same operation on the value.
- `SkewHeap.Heap(p, t)` says that node p is the root of a parent-linked heap of the shape of tree t without sharing. The
  region argument s bounds the nodes in use. A comparator is a function of its two nodes.
- `Format.Args` gives the k-th variable argument as a 64-bit word and as the string it points to. The strings are taken
  not to lie in the buffer that is written: section 7.21.6.5 of ISO/IEC 9899:2011 leaves such calls undefined.

## Model

| member | source | states |
|---|---|---|
| `BlockMap.AppendRefines` | labcode/原始代码/lab8/tools/mksfs.c:397-426 | after appending block b, the walk through direct, indirect and double-indirect words yields the old sequence of blocks followed by b |
| `BlockMap.AppendOthers` | labcode/原始代码/lab8/tools/mksfs.c:397-426 | appending to one file keeps the inode, the block map and the content of every other file |
| `BlockMap.AppendSpace` | labcode/原始代码/lab8/tools/mksfs.c:382-426 | appending succeeds iff the file is below the limit and the index blocks it needs are free; it takes exactly those blocks |
| `BlockMap.AppendIndexKeys` | labcode/原始代码/lab8/tools/mksfs.c:382-395 | exactly the block numbers taken while appending become index blocks |
| `BlockMap.AppendShape` | labcode/原始代码/lab8/tools/mksfs.c:397-426 | the counters and the ownership of block numbers stay consistent |
| `Store.AllocInodeOk` | labcode/原始代码/lab8/tools/mksfs.c:201-212 | a new inode takes the next block, is empty, is the one found for its host number, and keeps every other object; it fails iff no block is free |
| `Store.PutOk` | labcode/原始代码/lab8/tools/mksfs.c:433-435 | allocate, write and append as one step: when it succeeds, what it costs, and that the file grows by this one block and no other object changes |
| `Store.LinkOk` | labcode/原始代码/lab8/tools/mksfs.c:436 | a link count goes up by one, modulo 2^16, and nothing else changes |
| `Build.CreateOk` | labcode/原始代码/lab8/tools/mksfs.c:223-254 | the initial state satisfies the invariant; it has the root inode only and a zeroed entry buffer |
| `Space.BlockCount` | labcode/原始代码/lab8/tools/mksfs.c:227-231 | the block count times 4096 never exceeds the file size; it is the largest such number up to 524288 iff the file is smaller than 2^44 bytes or its 32-bit count is at least 524288 |
| `Space.InsideTheFile` | labcode/原始代码/lab8/tools/mksfs.c:223-254 | no accepted run writes a block that does not lie wholly within the image file |
| `Space.FirstError` | labcode/原始代码/lab8/tools/mksfs.c:173-180 | which error comes first for a block, a link and a directory |
| `Space.AddEntrySpace` | labcode/原始代码/lab8/tools/mksfs.c:428-437 | an entry succeeds iff its directory is below the file limit and the blocks are there; exact cost |
| `Space.OpenFileSpace` | labcode/原始代码/lab8/tools/mksfs.c:516-530 | a file succeeds iff its chunks fit the file limit and the space; exact cost with index blocks |
| `Space.AddFileSpace` | labcode/原始代码/lab8/tools/mksfs.c:449-457 | a new file costs inode, data, index blocks and entry; a host number seen before costs the entry alone |
| `Space.AddLinkSpace` | labcode/原始代码/lab8/tools/mksfs.c:459-464 | a symbolic link costs inode, one block and entry; a target of 4096 bytes or more is refused |
| `Space.AddDirSpace` | labcode/原始代码/lab8/tools/mksfs.c:439-447 | a directory succeeds iff its host number is new, its parent is below the file limit, and everything in it fits; exact cost |
| `Space.OpenDirSpace` | labcode/原始代码/lab8/tools/mksfs.c:466-514 | the same for the contents of a directory, "." and ".." included |
| `Space.OpenKidsSpace` | labcode/原始代码/lab8/tools/mksfs.c:474-512 | the same for the readdir loop |
| `FirstIndex.FirstIndexBlock` | labcode/原始代码/lab8/tools/mksfs.c:382-425 | the first index block of a file directly follows its thirteenth data block |
| `Space.BuildSucceedsIff` | labcode/原始代码/lab8/tools/mksfs.c:223-236 | a whole run on an image of n blocks, c of them for the bitmap, succeeds iff 2 + c < n, the tree keeps the other limits, and its demand, computed from the host tree alone, is at most n - 2 - c; otherwise, with the limits kept, it fails for lack of space; final next_ino, unused_blocks and host numbers seen |
| `Space.FileDemand` | labcode/原始代码/lab8/tools/mksfs.c:376-380 | index blocks of a file of n blocks: 0 up to 12, 1 up to 1036, else 2 + ceil((n - 1036) / 1024) |
| `Tree.EntryDecodes` | labcode/原始代码/lab8/tools/mksfs.c:428-437 | an entry block gives back the inode number and the name up to its 252nd byte, whatever the static entry buffer held before |
| `Tree.AddEntryView` | labcode/原始代码/lab8/tools/mksfs.c:428-437 | an entry adds one entry block to its directory and one link to its target |
| `Tree.OpenFileView` | labcode/原始代码/lab8/tools/mksfs.c:516-530 | a file holds the zero-padded chunks of its data and has the size of the data |
| `Tree.KidsKept` | labcode/原始代码/lab8/tools/mksfs.c:466-514 | what was built for a directory stays as built while the rest of the tree is added |
| `TreeBuild.AddFileTree` | labcode/原始代码/lab8/tools/mksfs.c:449-457 | the entry names a complete regular file, the same inode for all names of one host file |
| `TreeBuild.AddLinkTree` | labcode/原始代码/lab8/tools/mksfs.c:459-464 | the entry names a link with the target as content |
| `TreeBuild.AddDirTree` | labcode/原始代码/lab8/tools/mksfs.c:439-447 | the entry names a directory that realises the host directory, with "." and ".." in place |
| `TreeBuild.DotIsSkipped` | labcode/原始代码/lab8/tools/mksfs.c:477-482 | an entry whose name starts with byte 46 changes nothing |
| `TreeBuild.LongOrSpecial` | labcode/原始代码/lab8/tools/mksfs.c:483-509 | any other entry with a name of more than 255 bytes aborts the build, and a special file changes nothing |
| `TreeBuild.OthersGetEntry` | labcode/原始代码/lab8/tools/mksfs.c:474-512 | every other accepted entry adds exactly one block to its directory, with the first 252 bytes of its name |
| `TreeBuild.OpenKidsTree` | labcode/原始代码/lab8/tools/mksfs.c:474-512 | the entries added by the loop realise the host entries in order, hidden and special ones left out; nothing built before changes |
| `Links.OpenKidsLinks` | labcode/原始代码/lab8/tools/mksfs.c:474-512 | a regular file gains one link for each of its names in the tree, modulo 2^16 |
| `Refs.AddEntryRefs` | labcode/原始代码/lab8/tools/mksfs.c:428-437 | an entry keeps the equation between link count and references |
| `Refs.AddDirRefs` | labcode/原始代码/lab8/tools/mksfs.c:439-447 | so does a whole directory |
| `Refs.LinkCounts` | labcode/原始代码/lab8/tools/mksfs.c:428-514 | at the end of every run each link count is the number of directory entries that name the inode, modulo 2^16, and that number itself iff it is below 2^16 |
| `Bitmap.RangeWordStep` | labcode/原始代码/lab8/tools/mksfs.c:329-331 | or-ing one more bit of a range into the bitmap changes the word of that bit alone |
| `Bitmap.RangeWordBits` | labcode/原始代码/lab8/tools/mksfs.c:329-331 | the word built bit by bit has exactly the bits of the range |
| `Bitmap.BitmapBits` | labcode/原始代码/lab8/tools/mksfs.c:312-335 | bit k of the concatenated bitmap blocks is set iff next_ino <= k < ninos, for every k, partial blocks included |
| `Disk.WriteOnce` | labcode/原始代码/lab8/tools/mksfs.c:287-349 | over a complete run every block below next_ino is written exactly once and no other block is written |
| `Disk.DiskBmapIs` | labcode/原始代码/lab8/tools/mksfs.c:302-310 | the block map read from the flushed inode and index blocks is that of the builder |
| `Disk.DiskObjIs` | labcode/原始代码/lab8/tools/mksfs.c:302-310 | kind, size, link count and content read from the image are those of the builder |
| `Disk.SuperOnDisk` | labcode/原始代码/lab8/tools/mksfs.c:237-242 | the superblock on the image holds the magic number, the size, the final free count and the label |
| `Disk.FreeBitmap` | labcode/原始代码/lab8/tools/mksfs.c:312-335 | the bitmap on the finished image has exactly the bits of the free blocks |
| `Disk.BitmapCountsUnused` | labcode/原始代码/lab8/tools/mksfs.c:312-335 | the number of set bits on the image is the unused_blocks of the superblock |
| `Layout.SuperblockLaw` | labcode/原始代码/lab8/tools/mksfs.c:237-242 | every byte of the superblock after an accepted run, by image size, demand and label |
| `Layout.InodeFields` | labcode/原始代码/lab8/tools/mksfs.c:133-142 | the bytes in which an inode on the image keeps size, type, link count and number of blocks |
| `Layout.MapLaw` | labcode/原始代码/lab8/tools/mksfs.c:376-426 | the bytes in which the image keeps the number of block k of a file |
| `Layout.FileLaw` | labcode/原始代码/lab8/tools/mksfs.c:516-530 | after an accepted run each host file is an inode of type 1 with its size, its bytes block by block, and zeros behind its end |
| `Layout.PaddedBytes` | labcode/原始代码/lab8/tools/mksfs.c:287-300 | a short block is filled up with zeros |
| `Layout.EntryLaw` | labcode/原始代码/lab8/tools/mksfs.c:428-437 | every byte of an entry block: number, name, zero byte, what the entry buffer held, zeros |
| `Layout.BitmapLaw` | labcode/原始代码/lab8/tools/mksfs.c:312-335 | in which byte and bit of the image the bitmap says that block k is free |
| `Tails.AppendTail` | labcode/原始代码/lab8/tools/mksfs.c:397-426 | appending leaves every unused word of inodes and index blocks zero |
| `Tails.UnusedLaw` | labcode/原始代码/lab8/tools/mksfs.c:182-211 | after an accepted run all unused words of an inode and of its index blocks are zero on the image |
| `RoundTrip.JoinChunks` | labcode/原始代码/lab8/tools/mksfs.c:516-530 | the chunks of a file, joined and cut to its size, are its data |
| `RoundTrip.NodeDecodes` | labcode/原始代码/lab8/tools/mksfs.c:428-559 | what is read back for one host node |
| `RoundTrip.DirDecodes` | labcode/原始代码/lab8/tools/mksfs.c:466-514 | a directory decodes to the expected entries and to 2 + its number of subdirectories links |
| `RoundTrip.ImageRoundTrip` | labcode/原始代码/lab8/tools/mksfs.c:428-559 | for every host tree that a build accepts, decoding the finished image from the root inode at block 1 gives the tree back: names up to 252 bytes, file bytes, link targets, link counts, and one inode for all names of one host file |
| `RoundTrip.SmallImage` | labcode/原始代码/lab8/tools/mksfs.c:466-514 | a concrete tree with a hard link that meets the conditions of the theorems, and its demand of ten blocks |
| `RoundTrip.ImageIntactIff` | labcode/原始代码/lab8/tools/mksfs.c:428-559 | after every accepted run the tree decoded from the image equals the host tree, inode numbers aside, iff no entry is hidden or special and no name exceeds 252 bytes |
| `RoundTrip.LongNameIsCut` | labcode/原始代码/lab8/tools/mksfs.c:428-437 | a build accepts a concrete tree with a 253-byte name, and its image does not give the tree back |
| `FirstIndex.SearchWouldMiss` | labcode/原始代码/lab8/tools/mksfs.c:182-199 | a concrete complete run that holds index block 19, which does not hash to the chain into which it was inserted |
| `Caches.BucketIs` | labcode/原始代码/lab8/tools/mksfs.c:39-56 | the chain of a number is the upper 10 bits of the product of its lower 32 bits with the constant |
| `Caches.IndirectStep` | labcode/原始代码/lab8/tools/mksfs.c:409-414 | storing a block number in the indirect block leaves every cached l1 pointer coherent |
| `Caches.DoubleStep1` | labcode/原始代码/lab8/tools/mksfs.c:415-417 | in the double-indirect branch the cached l1 is already the block that a non-zero word names |
| `Caches.DoubleStep2` | labcode/原始代码/lab8/tools/mksfs.c:415-422 | storing at both levels leaves every cached pointer coherent and is the append of the model |
| `Caches.CacheInode.constructor` | labcode/原始代码/lab8/tools/mksfs.c:202-211 | a new cached inode is all zero |
| `Caches.CacheInode.Lengthen` | labcode/原始代码/lab8/tools/mksfs.c:423-425 | one more block, of the given size |
| `Flush.SetBitRange` | labcode/原始代码/lab8/tools/mksfs.c:326-331 | the loop sets exactly the bits start .. end of the block |
| `Flush.FlushDone` | labcode/原始代码/lab8/tools/mksfs.c:312-349 | when bitmap, superblock, index blocks and inodes are written the disk is the final disk and the log the final log |
| `Builder.Sfs.constructor` | labcode/原始代码/lab8/tools/mksfs.c:232-250 | empty hash chains, the counters, and a zeroed root inode |
| `Builder.Sfs.InsertRoot` | labcode/原始代码/lab8/tools/mksfs.c:252 | the root inode in its chain; the state is the initial state of the model |
| `Builder.Sfs.AllocIno` | labcode/原始代码/lab8/tools/mksfs.c:173-180 | next_ino up and unused_blocks down by one, or failure iff none is left |
| `Builder.Sfs.AllocCacheBlock` | labcode/原始代码/lab8/tools/mksfs.c:182-190 | a zeroed index block with a fresh number, inserted under hash value of 0 |
| `Builder.Sfs.SearchCacheBlock` | labcode/原始代码/lab8/tools/mksfs.c:192-199 | finds index block b iff b is held and b hashes to the chain of 0; counts the search |
| `Builder.Sfs.AllocCacheInode` | labcode/原始代码/lab8/tools/mksfs.c:201-212 | a fresh inode at the head of the chain of its host number |
| `Builder.Sfs.SearchCacheInode` | labcode/原始代码/lab8/tools/mksfs.c:214-221 | finds the newest inode of a host number iff there is one |
| `Builder.Sfs.UpdateCache` | labcode/原始代码/lab8/tools/mksfs.c:382-395 | a new block for an empty slot, the cached block when it is the one in the slot, else the outcome of a search, which is counted |
| `Builder.Sfs.AppendBlock` | labcode/原始代码/lab8/tools/mksfs.c:397-426 | has the effect of the append of the model in all three branches, with no search by block number |
| `Builder.Sfs.CopyName` | labcode/原始代码/lab8/tools/mksfs.c:432 | strcpy into the static entry buffer; its tail stays |
| `Builder.Sfs.AddEntry` | labcode/原始代码/lab8/tools/mksfs.c:428-437 | entry bytes, block and link count as in the model; no search by block number |
| `Builder.Sfs.OpenFile` | labcode/原始代码/lab8/tools/mksfs.c:516-530 | the read loop appends the chunks as in the model |
| `Builder.Sfs.OpenLink` | labcode/原始代码/lab8/tools/mksfs.c:532-542 | one block with the target; a target of a whole block or more aborts after the block was taken |
| `Builder.Sfs.AddFile` | labcode/原始代码/lab8/tools/mksfs.c:449-457 | reuses the inode of a host number seen before |
| `Builder.Sfs.AddLink` | labcode/原始代码/lab8/tools/mksfs.c:459-464 | always a new inode |
| `Builder.Sfs.AddDir` | labcode/原始代码/lab8/tools/mksfs.c:439-447 | aborts on a host number seen before; otherwise as in the model |
| `Builder.Sfs.AddNode` | labcode/原始代码/lab8/tools/mksfs.c:476-511 | one round of the readdir loop, with skipped, refused and special entries |
| `Builder.Sfs.AddNodes` | labcode/原始代码/lab8/tools/mksfs.c:474-512 | the readdir loop handles every entry in order, as in the model |
| `Builder.Sfs.OpenDir` | labcode/原始代码/lab8/tools/mksfs.c:466-514 | "." and ".." first, then every entry in order |
| `Builder.Sfs.BitmapBlock` | labcode/原始代码/lab8/tools/mksfs.c:317-332 | the words of one bitmap block, partial first and last blocks included |
| `Builder.Sfs.WriteBitmap` | labcode/原始代码/lab8/tools/mksfs.c:317-334 | each bitmap block is written once with its final content |
| `Builder.Sfs.FlushBlocks` | labcode/原始代码/lab8/tools/mksfs.c:338-342 | walking one chain writes each of its index blocks once, with its final content |
| `Builder.Sfs.FlushInodes` | labcode/原始代码/lab8/tools/mksfs.c:343-347 | walking one chain writes each of its inodes once, with its final content |
| `Builder.Sfs.CloseSfs` | labcode/原始代码/lab8/tools/mksfs.c:312-349 | the disk is the final disk of the state before, and the log adds each flushed block once |
| `Builder.CreateImg` | labcode/原始代码/lab8/tools/mksfs.c:544-559 | the run on cached, chained objects ends exactly like the run of the model: same final disk, same log of writes, same error; update_cache never searched |
| `Hash.BackOfTimes` | labcode/原始代码/lab8/libs/hash.c:13-17 | multiplication by the constant modulo 2^32 has an inverse |
| `Hash.TimesOfBack` | labcode/原始代码/lab8/libs/hash.c:13-17 | the inverse is two-sided |
| `Hash.HashIs` | labcode/原始代码/lab8/libs/hash.c:13-17 | the hash is the upper bits of the 32-bit product with 0x9e370001 |
| `Hash.HashBalanced` | labcode/原始代码/lab8/libs/hash.c:6-17 | every value of the given number of bits has exactly 2^(32 - bits) preimages, every other value none |
| `SkewTree.MergeIs` | labcode/原始代码/lab8/libs/skew_heap.h:29-59 | merging merges the two right spines as lists up to the end of one, strings them to the left above what is left, exchanges the subtrees of the nodes passed, and makes one call for each of them and one more |
| `SkewTree.MergeElems` | labcode/原始代码/lab8/libs/skew_heap.h:29-59 | merging keeps exactly the nodes of both heaps, and their number |
| `SkewTree.MergeBag` | labcode/原始代码/lab8/libs/skew_heap.h:29-59 | with multiplicities |
| `SkewTree.MergeOrdered` | labcode/原始代码/lab8/libs/skew_heap.h:29-59 | merging two heaps gives a heap, for every comparator that agrees with a total preorder |
| `SkewTree.MergeDistinct` | labcode/原始代码/lab8/libs/skew_heap.h:29-59 | no node is shared after merging heaps that share none |
| `SkewTree.DrainSorts` | labcode/原始代码/lab8/libs/skew_heap.h:69-85 | taking the root away again and again gives a sorted permutation of the heap |
| `SkewTree.MergeCost` | labcode/原始代码/lab8/libs/skew_heap.h:29-59 | amortised cost of a merge of n nodes: at most 3 log2(n + 1) + 1 |
| `SkewTree.RemoveElems` | labcode/原始代码/lab8/libs/skew_heap.h:69-85 | removing any node takes away this node and no other |
| `SkewTree.RemoveOrdered` | labcode/原始代码/lab8/libs/skew_heap.h:69-85 | removing any node leaves a heap |
| `SkewTree.RaisedBound` | labcode/原始代码/lab8/libs/skew_heap.h:69-85 | at most log2(n + 1) ancestors of a removed node become right-heavy |
| `SkewTree.RemoveCost` | labcode/原始代码/lab8/libs/skew_heap.h:69-85 | amortised cost of removing any node: at most 4 log2(n + 1) + 1 |
| `SkewTree.RunFromEmpty` | labcode/原始代码/lab8/libs/skew_heap.h:29-85 | any run of m insertions and removals from the empty heap, each with a comparator of its own, makes at most m (4 log2(n + 1) + 1) calls of merge, n bounding the size |
| `SkewTree.RunThenDrain` | labcode/原始代码/lab8/libs/skew_heap.h:29-85 | after any run whose comparators agree with one order, draining yields, in order, exactly the elements that are in by the operations alone |
| `SkewHeap.Init` | labcode/原始代码/lab8/libs/skew_heap.h:23-27 | all three links cleared; a heap of one node |
| `SkewHeap.Merge` | labcode/原始代码/lab8/libs/skew_heap.h:29-59 | on parent-linked nodes in place: the heap has the shape of the functional merge, all links below the root are right, the root keeps its parent field, and the number of calls is that of the cost analysis |
| `SkewHeap.Insert` | labcode/原始代码/lab8/libs/skew_heap.h:61-67 | the inserted node's old links do not matter; the result is a heap with a NULL parent at the root |
| `SkewHeap.Remove` | labcode/原始代码/lab8/libs/skew_heap.h:69-85 | for any member, root or inner: a heap with the shape of the functional removal, all parent links right and the root's parent NULL |
| `SkewHeap.RemoveAt` | labcode/原始代码/lab8/libs/skew_heap.h:77-84 | outside the removed subtree only the link to the removed node changes |
| `SkewHeap.Spliced` | labcode/原始代码/lab8/libs/skew_heap.h:73-84 | the merged subtrees in place of the removed node make a heap again |
| `Lcg.SumDivides` | labcode/原始代码/lab8/libs/rand.c:13 | 1 + a + ... + a^(n-1) is divisible by the same powers of two as n |
| `Lcg.Period` | labcode/原始代码/lab8/libs/rand.c:13 | modulo 2^k, for every k, the states after i and j steps agree iff 2^k divides j - i |
| `Lcg.FullPeriod` | labcode/原始代码/lab8/libs/rand.c:13 | every state is reached from every state after exactly one number of steps below 2^k |
| `Rand.Generator.Rand` | labcode/原始代码/lab8/libs/rand.c:11-16 | the state is that of the 48-bit generator after one more step, through 64-bit wrap-around and mask; the result is in [1, RAND_MAX] |
| `Rand.Generator.Srand` | labcode/原始代码/lab8/libs/rand.c:22-25 | a new seed starts a new sequence |
| `Rand.States` | labcode/原始代码/lab8/libs/rand.c:14-15 | how many of the 2^48 states give each result |
| `Rand.ResultFrequency` | labcode/原始代码/lab8/libs/rand.c:11-16 | among any 2^48 consecutive results from any seed each value of 1 .. 32 occurs 33 * 4096 times, each other value up to RAND_MAX 32 * 4096 times, and 0 never |
| `Numerals.NumeralValue` | labcode/原始代码/lab8/libs/printfmt.c:53-69 | the printed digits denote the number |
| `Numerals.NumeralChar` | labcode/原始代码/lab8/libs/printfmt.c:53-69 | digit i from the right is character n / base^i mod base of "0123456789abcdef" |
| `Numerals.NumeralBytes` | labcode/原始代码/lab8/libs/printfmt.c:68 | only decimal digits and, above base 10, the letters a to f are printed |
| `Numerals.NumberChar` | labcode/原始代码/lab8/libs/printfmt.c:60-68 | the padding stands on the left of the digits |
| `Numerals.DigitLaw` | labcode/原始代码/lab8/libs/string.c:248-256 | what each byte is worth as a digit, letters of both cases included |
| `Numerals.NumeralShortest` | labcode/原始代码/lab8/libs/printfmt.c:53-69 | no shorter string of digits denotes it |
| `Numerals.NumberLength` | labcode/原始代码/lab8/libs/printfmt.c:53-69 | output length is the larger of width and number of digits |
| `Numerals.NumberStep` | labcode/原始代码/lab8/libs/printfmt.c:60-68 | one level of the recursion: the number without its last digit, in one place less, then the digit |
| `Strtol.Strtol` | labcode/原始代码/lab8/libs/string.c:215-271 | the loops compute the specified value and end position, for every terminated string and base, reading no byte behind the terminator |
| `Strtol.ReadPrefix` | labcode/原始代码/lab8/libs/string.c:233-242 | the prefix and the base it selects |
| `Strtol.ReadDigits` | labcode/原始代码/lab8/libs/string.c:244-265 | the digit loop, with 64-bit wrap-around at every step, gives the wrapped value of the whole digit string |
| `Strtol.WrapStep` | labcode/原始代码/lab8/libs/string.c:263 | wrapping early does not change the result |
| `Strtol.ParseOf` | labcode/原始代码/lab8/libs/string.c:215-271 | blanks, sign, prefix and digits: the 64-bit value is that of sign and digits, the true value iff it fits, and parsing stops behind the digits |
| `Strtol.ParseLaw` | labcode/原始代码/lab8/libs/string.c:215-271 | the same in bytes for every text and base: blanks and tabs, sign, prefix, digits; value modulo 2^64 as a signed number, and end |
| `Strtol.OctalPrefix` | labcode/原始代码/lab8/libs/string.c:233-242 | with base 0 a leading zero selects octal digits |
| `Strtol.DecimalPlain` | labcode/原始代码/lab8/libs/string.c:233-242 | with base 0 digits without a leading zero are decimal |
| `Strtol.NumberRoundTrip` | labcode/原始代码/lab8/libs/printfmt.c:53-69 | a number printed in base 2 to 16, padded with zeros or spaces, parses back as its 64-bit pattern up to the terminator; it parses back as itself iff it is below 2^63 |
| `Strtol.UpperPrefix` | labcode/原始代码/lab8/libs/string.c:233-242 | with base 0 or 16, of "0X" followed by anything the 0 alone is parsed |
| `Strtol.HexPrefixIff` | labcode/原始代码/lab8/libs/string.c:233-242 | hexadecimal digits behind a prefix are parsed iff its x is in lower case |
| `Strtol.MinusPadding` | labcode/原始代码/lab8/libs/printfmt.c:53-69 | a number padded with '-' parses as its negative behind one such character, and as nothing behind more |
| `Strtol.ReadableIff` | labcode/原始代码/lab8/libs/printfmt.c:53-69 | an unsigned number parses back iff its padding is zeros, spaces or none, or one '-' before 0 or 2^63 |
| `Strtol.DecimalRoundTrip` | labcode/原始代码/lab8/libs/printfmt.c:244-252 | %d output parses back iff it has a sign and nothing but zeros follows it, or none and harmless padding; when padding follows the sign strtol gives 0 at position 1 |
| `Strtol.PointerRoundTrip` | labcode/原始代码/lab8/libs/printfmt.c:266-272 | %p output parses back with base 0 iff no padding but zeros follows the prefix; otherwise strtol gives 0 at position 2 |
| `Format.TextIsCopied` | labcode/原始代码/lab8/libs/printfmt.c:143-148 | text without an escape is copied |
| `Format.UnknownIsEchoed` | labcode/原始代码/lab8/libs/printfmt.c:287-292 | an unknown or unfinished escape is printed as it stands, and scanning goes on at the unknown character; arguments its stars used stay used |
| `Format.FlagLaw` | labcode/原始代码/lab8/libs/printfmt.c:155-200 | what each of the flags '-', '0', '#', 'l', '.' and '*' does |
| `Format.FlagsEnd` | labcode/原始代码/lab8/libs/printfmt.c:155-200 | every other byte but a digit ends the flags |
| `Format.EscapeLaw` | labcode/原始代码/lab8/libs/printfmt.c:202-293 | what each conversion prints for the flags read, which arguments it uses, and where the format goes on |
| `Format.AsciiLaw` | labcode/原始代码/lab8/libs/printfmt.c:18-41 | the characters of a string constant are its ASCII codes |
| `Format.LongLaw` | labcode/原始代码/lab8/libs/printfmt.c:76-105 | "%" with any number of letters l and u, o, x or d prints the lower 32 bits of its argument, or all 64 behind an l, as the shortest numeral |
| `Format.StringChar` | labcode/原始代码/lab8/libs/printfmt.c:221-242 | where each character of a shown string and of its padding stands, on which side, and what replaces unprintable ones |
| `Format.ErrorLaw` | labcode/原始代码/lab8/libs/printfmt.c:18-41 | the text of each error number, and "error" with the number where there is none |
| `Format.FieldScan` | labcode/原始代码/lab8/libs/printfmt.c:168-195 | a number that does not start with 0 is one field, with its decimal value |
| `Format.DigitsScan` | labcode/原始代码/lab8/libs/printfmt.c:163-195 | any run of digits: leading zeros are the flag, and the rest is a field iff the value is not 0 |
| `Format.PrecisionScan` | labcode/原始代码/lab8/libs/printfmt.c:163-195 | behind the dot any run of digits is read as the precision iff its value is not 0; otherwise the precision stays, and a first digit 0 asks for zero padding |
| `Format.WidthAndPrecision` | labcode/原始代码/lab8/libs/printfmt.c:155-195 | any digits, a dot and any digits: the width is always read with its decimal value, the precision iff its value is not 0 |
| `Format.StringPrecision` | labcode/原始代码/lab8/libs/printfmt.c:221-242 | %s with a dot and any digits shows that many characters iff their value is not 0 or the string is empty; otherwise the whole string |
| `Format.ZeroPrecision` | labcode/原始代码/lab8/libs/printfmt.c:163-186 | in particular "%.0s" shows the whole string |
| `Format.StringLength` | labcode/原始代码/lab8/libs/printfmt.c:221-242 | the text of a string takes max(width, min(length, precision)) characters, a negative precision being none |
| `Format.StringOutputLength` | labcode/原始代码/lab8/libs/printfmt.c:135-295 | the output of any format that is one %s escape has that length, with the width and precision that were read |
| `Format.WidthPrecisionLength` | labcode/原始代码/lab8/libs/printfmt.c:135-295 | the output of "%W.Ps" has max(W, min(length, P)) characters, and max(W, length) if P is 0 |
| `Format.PrintedNumbersParse` | labcode/原始代码/lab8/libs/printfmt.c:135-295 | the output of any format that is one numeric escape, whatever its flags, parses back with strtol iff its padding allows it: exact condition for unsigned and signed numbers and pointers |
| `Format.ErrorFormats` | labcode/原始代码/lab8/libs/printfmt.c:207-219 | the two formats that %e passes on print what the model writes out for them |
| `Sprint.Strnlen` | labcode/原始代码/lab8/libs/string.c:33-40 | the smaller of length and limit |
| `Sprint.SprintBuf.constructor` | labcode/原始代码/lab8/libs/printfmt.c:349 | an empty buffer of the given size at the given position |
| `Sprint.SprintBuf.Putch` | labcode/原始代码/lab8/libs/printfmt.c:309-315 | a character is always counted, and stored iff there is room |
| `Sprint.SprintBuf.PrintNum` | labcode/原始代码/lab8/libs/printfmt.c:53-69 | the recursion prints the padded digits |
| `Sprint.SprintBuf.PutLetters` | labcode/原始代码/lab8/libs/printfmt.c:231-238 | the characters that the precision admits, unprintable ones shown as '?' under '#' |
| `Sprint.SprintBuf.PutString` | labcode/原始代码/lab8/libs/printfmt.c:221-242 | padding on the left or right and the shown characters |
| `Sprint.SprintBuf.PutError` | labcode/原始代码/lab8/libs/printfmt.c:207-219 | the error string, or "error" and the number |
| `Sprint.SprintBuf.PutConversion` | labcode/原始代码/lab8/libs/printfmt.c:202-285 | every conversion prints its specified text and uses up its argument |
| `Sprint.SprintBuf.Vprintfmt` | labcode/原始代码/lab8/libs/printfmt.c:135-295 | for every terminated format the scanner ends, reads nothing behind the terminator, and prints the specified output, rewinding on unknown escapes |
| `Sprint.Rewind` | labcode/原始代码/lab8/libs/printfmt.c:287-292 | the backward search ends right behind the '%' of the escape |
| `Sprint.ReadFlags` | labcode/原始代码/lab8/libs/printfmt.c:155-200 | flags, width, precision and star arguments up to the conversion character |
| `Sprint.ReadField` | labcode/原始代码/lab8/libs/printfmt.c:169-176 | the digit loop reads the decimal value of the whole run |
| `Sprint.Vsnprintf` | labcode/原始代码/lab8/libs/printfmt.c:347-358 | for a size of at least 1: the first min(length, size - 1) characters, a NUL, no other byte touched, and the length of the untruncated output returned; NULL or size 0 give -E_INVAL and touch nothing |
| `Sprint.CutIs` | labcode/原始代码/lab8/libs/printfmt.c:347-358 | every byte of the array after the call |
| `Sprint.CutReads` | labcode/原始代码/lab8/libs/printfmt.c:333-346 | read as a C string the buffer holds the output, or its first size - 1 characters iff it is too long |
| `Ring.Init` | labcode/原始代码/lab8/libs/list.h:40-43 | a ring of one |
| `Ring.Insert` | labcode/原始代码/lab8/libs/list.h:141-146 | an entry goes between two neighbours of a ring |
| `Ring.AddAfter` | labcode/原始代码/lab8/libs/list.h:79-82 | the ring with the entry behind listelm |
| `Ring.AddBefore` | labcode/原始代码/lab8/libs/list.h:66-69 | the ring with the entry before listelm |
| `Ring.Add` | labcode/原始代码/lab8/libs/list.h:53-56 | like AddAfter |
| `Ring.Unlink` | labcode/原始代码/lab8/libs/list.h:154-158 | the ring without the entry between |
| `Ring.Del` | labcode/原始代码/lab8/libs/list.h:91-94 | the ring without the entry, whose own links stay; a ring of one stays as it is |
| `Ring.DelInit` | labcode/原始代码/lab8/libs/list.h:102-106 | the ring without the entry, and a ring of that entry alone |
| `Ring.Empty` | labcode/原始代码/lab8/libs/list.h:112-115 | true iff the ring has one entry |
| `Ring.AddThenDel` | labcode/原始代码/lab8/libs/list.h:66-94 | after adding an entry before or behind listelm and deleting it again every link of the ring is what it was |
| `Ring.Perform` | labcode/原始代码/lab8/libs/list.h:66-106 | one addition or deletion with its effect on the order |
| `Ring.PerformAll` | labcode/原始代码/lab8/libs/list.h:66-106 | every sequence of list_add_before, list_add_after and list_del_init leaves a ring of the entries that the operations say, in that order |
| `Ring.Walks` | labcode/原始代码/lab8/libs/list.h:120-133 | once around, list_next gives the sequence and list_prev its reverse |
| `Ring.RingUnique` | labcode/原始代码/lab8/libs/list.h:17-19 | the links determine the ring: there is no other sequence for the same head |
| `Ring.Rotated` | labcode/原始代码/lab8/libs/list.h:17-19 | a ring may be read from any entry |
| `Memory.Memmove` | labcode/原始代码/lab8/libs/string.c:304-323 | all old source bytes arrive whatever the overlap, no other byte changes, dst is returned |
| `Memory.ThereAndBack` | labcode/原始代码/lab8/libs/string.c:304-323 | moving bytes away and back restores them, also when the regions overlap |

## Left out

- Host input and output: `pwrite`, `read`, `readdir`, `lstat`, `fchdir`, `malloc` and their failures, short reads, opening
  the image and the home directory, error messages and the subpath stack that serves them.
- The builder's cached blocks are arrays of 32-bit words and files are byte sequences; the static block buffers of
  `write_block`, `open_file` and `open_link` are not modelled, the static entry buffer is.
- Builder.Sfs.AllocCacheBlock: takes no block number, because every call passes 0.
- Builder.Sfs.UpdateCache: the failing assertion for a block that is not found is the outcome LostBlock; the operations
  from `append_block` up are proved never to search and so never meet it.
- Links and directories in `Hosted` have host numbers that no regular file has; a host file system cannot offer others.
- The fixed constants of `mksfs.c` (12 direct blocks, 1024 words per index block, 4096-byte blocks, 32768 blocks per file)
  are constants here and no parameters.
- SkewHeap.Merge: the comparator may not read the links of the nodes; in the scheduler it reads their strides only.
- Sprint.SprintBuf.Vprintfmt: the output function is that of `vsnprintf`; the console and file output functions, and the
  variadic wrappers `printfmt` and `snprintf`, are not modelled. The two nested calls of `printfmt` under `%e` are written
  out, and `Format.ErrorFormats` shows that they print the same.
- Sprint.SprintBuf.PutError: the most negative int, whose negation is undefined in C, is treated as its absolute value.
- Sprint.SprintBuf.PutDecimal: likewise INT64_MIN, whose negation is undefined in C, is printed as its absolute value.
- Sprint.SprintBuf.PrintNum: a star width of -2^31 underflows in `-- width`, which is undefined in C; here it does not.
- Sprint.ReadField: widths and precisions of more than 31 bits overflow an int in C, which is undefined; here they do not.
- Sprint.Vsnprintf: the count does not wrap at 2^31 characters, and the strings printed do not lie in the buffer.
- Numerals.NumberStep: base 1, for which `printnum` does not end, is excluded; no caller passes it.
- Strtol.Strtol: signed overflow, undefined in C, wraps as it does on the machine.
- Rand.Generator.Rand: the quotient that `do_div` stores in its first argument is not used and not modelled.
- `strlen`, `strcpy`, `memset`, `memcpy`, `strchr`, `strcmp`, `readline`, assembly and atomic operations, user programs,
  and the copies of the same files in the other labs.
