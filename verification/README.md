# ucore support code, modelled and verified in Dafny

The project models the parts of the ucore teaching kernel that carry real invariants outside the kernel proper:
a mergeable priority queue, a buddy allocator, the builder of SFS disk images, the random number generator, the
shell's tokenizer and the formatted printer with its counterpart `strtol`. Code that changes things in place is
modelled by classes and methods that change things in place; each such method is proved against a function, and what
the code is for is proved about these functions, over all inputs and all runs. `dafny verify dfyconfig.toml` checks
everything.

| files | component |
|---|---|
| SkewTree, SkewHeap, SkewHeapLaws | lab8/libs/skew_heap.h: the pointer structure, the tree it represents, and the laws of the tree |
| BuddySpec, Buddy | lab02/buddy_system.cpp: allocation as a matter of live blocks, and the array `longest` that represents them |
| Rand | lab8/libs/rand.c |
| SfsFormat, SfsModel | lab8/tools/mksfs.c: the bytes on the disk with a simple reader, and the builder as functions of its whole state |
| SfsIndex, SfsRep, SfsTree, SfsWalk | the invariants of the builder: block index, ownership, directory entries and link counts, the recursive walk |
| SfsClose, SfsImage | closing, and what a reader finds in the closed image |
| Mksfs | the builder on the heap: hash chains of objects, index blocks reached through pointers and updated cell by cell |
| SfsLimits | what the builder accepts and lists, said of the host's tree alone |
| Shell, LexLaws | lab8/user/sh.c: `gettoken` and the word-collecting part of `runcmd`, and what they make of commands put together from their parts |
| StrLib, StrtolLaws | lab8/libs/string.c, `strtol` above all |
| Printfmt, Vprintfmt, FormatLaws | lab8/libs/printfmt.c: numbers and the bounded buffer, the format interpreter, and what each conversion means |
| Bits, Wrappers | powers of two and bitwise operators; the option type |

## Where the code and its description differ

- `is_order_of_two` (lab02/buddy_system.cpp:10) groups as `n & ((n-1)==0)` and so accepts 1 only. The allocator is
  modelled with the test its comment describes; `Buddy.AsWrittenAcceptsOnlyOne` says exactly when the two agree.
  `self->` in that file is read as the object itself, and the assert on line 124 as a precondition.
- `rand` promises values from 0. The macro `do_div` does not parenthesise its argument, so the last line computes
  `result % RAND_MAX + 1`: 0 never comes out, everything else from 1 to RAND_MAX does (`Rand.OutputRange`).
- `add_entry` writes 256 bytes of a 260-byte record, so names survive up to 252 bytes, not 255 (`SfsTree.NameSurvives`).
- `alloc_cache_block` files a fresh block under number 0 and not under its own. A search finds it exactly when its
  number hashes to 0 (`SfsIndex.SearchHits`) and misses it otherwise, as in `SfsWalk.SearchWouldMiss`. No run ever
  searches (`SfsWalk.BuildGood`), because every cell that an append uses is current (`SfsRep.NextAppendIsCurrent`).
- `runcmd` opens the target of a redirection before the word has been closed by a NUL. The name opened is the word
  together with the rest of the command, so it is the intended one exactly when nothing follows
  (`Shell.RedirectionTarget`, with the example `Shell.RedirectionRunsOn`).
- `strtol` is documented to accept "0X" as well as "0x"; it stops behind the zero (`StrtolLaws.CapitalPrefixStops`).
- The flag `-` is documented as padding on the right. For numbers it pads on the left with `-`
  (`Printfmt.DashPadded`, and exactly when `%d` still reads back: `FormatLaws.SignedReadsBack`).

## Model

| member | source | states |
|---|---|---|
| SkewHeap.Init | lab8/libs/skew_heap.h:23-27 | an entry becomes a single node without parent or children |
| SkewHeap.Merge | lab8/libs/skew_heap.h:29-59 | two disjoint pointer trees become the merged tree with every child's parent pointer right; the parent of the returned root is left alone; the comparator is called as often as the cost function says; recursion ends on the sum of the sizes |
| SkewHeap.Insert | lab8/libs/skew_heap.h:61-67 | from a heap and a foreign entry with arbitrary pointers, a heap with a null root parent that represents the tree with the entry inserted |
| SkewHeap.Remove | lab8/libs/skew_heap.h:69-85 | removing the root or an interior entry leaves a heap with a null root parent that represents the tree without it, and does not touch the removed entry |
| SkewHeapLaws.InsertKeepsHeap | lab8/libs/skew_heap.h:61-67 | insertion keeps heap order and adds exactly the new entry |
| SkewHeapLaws.RemoveKeepsHeap | lab8/libs/skew_heap.h:69-85 | removal of any entry keeps heap order and takes out exactly that entry |
| SkewHeapLaws.RootIsLeast | lab8/libs/skew_heap.h:29-59 | no entry of a heap is less than the root |
| SkewHeapLaws.MergedRoot | lab8/libs/skew_heap.h:29-59 | the root of two merged heaps comes from the first exactly when that heap has an entry less than every entry of the second; on ties it comes from the second |
| SkewHeapLaws.InsertedRoot | lab8/libs/skew_heap.h:61-67 | an inserted entry becomes the root, with the old heap as its left child, unless an entry of the heap is less |
| SkewHeapLaws.RemovedRoot | lab8/libs/skew_heap.h:69-85 | which child succeeds a removed root, ties included; removing any other entry leaves the root alone |
| SkewHeapLaws.RemovalIsLocal | lab8/libs/skew_heap.h:75-84 | every entry that is not below the removed one stays where it is, and of its two subtrees only the one with the removed entry changes |
| SkewHeapLaws.CostOfSpines | lab8/libs/skew_heap.h:29-59 | merging calls the comparator at least as often as the shorter right spine is long, and less often than both together |
| SkewHeapLaws.RunKeepsHeap | lab8/libs/skew_heap.h:61-85 | after any legal run of inserts and removals the heap is ordered and holds exactly what was put in and not taken out |
| SkewHeapLaws.DrainSorts | lab8/libs/skew_heap.h:69-85 | removing the root until the heap is empty yields all its entries, each once, in nondecreasing order |
| SkewHeapLaws.RunThenDrainSorts | lab8/libs/skew_heap.h:61-85 | the same after any interleaving of inserts and removals |
| SkewHeapLaws.MergeAmortised | lab8/libs/skew_heap.h:29-59 | comparisons plus new potential are at most the old potentials plus 2(log(m)+log(n)), m and n being the sizes plus one |
| SkewHeapLaws.RunAmortised | lab8/libs/skew_heap.h:29-85 | any run of inserts and root removals from empty makes at most the sum over its steps of 4 log(size+1) + 2 comparisons |
| SkewHeapLaws.RunIsLogarithmic | lab8/libs/skew_heap.h:29-85 | k operations make at most k(4 log k + 2) comparisons |
| SkewHeapLaws.OpCompares | lab8/libs/skew_heap.h:29-85 | an operation compares exactly when it has two heaps to merge |
| SkewHeapLaws.InsertsCompare | lab8/libs/skew_heap.h:61-67 | n inserts from empty make at least n - 1 comparisons |
| Buddy.OrderOfTwo | lab02/buddy_system.cpp:6-11 | the bit test as its comment describes it accepts exactly the powers of two |
| Buddy.AsWrittenAcceptsOnlyOne | lab02/buddy_system.cpp:6-11 | the test as C++ groups it accepts 1 only, and agrees with the intended one exactly off the powers of two above 1 |
| Buddy.FixSize | lab02/buddy_system.cpp:13-22 | the doubling loop computes the rounded size |
| BuddySpec.RoundedIsLeast | lab02/buddy_system.cpp:13-22 | the rounded size is below every power of two that suffices |
| Buddy.Buddy2.constructor | lab02/buddy_system.cpp:30-52 | a power-of-two arena starts with no live block and the array that says so; any other size gives an arena of size 0 |
| Buddy.Buddy2.Alloc | lab02/buddy_system.cpp:55-120 | returns the first fit for the rounded size, or -1; exactly that block becomes live, and the array is again the one determined by the live blocks |
| Buddy.Buddy2.Descend | lab02/buddy_system.cpp:76-95 | the way down the tree ends at the lowest aligned free block of the size |
| Buddy.Buddy2.ClimbAfterAlloc | lab02/buddy_system.cpp:113-117 | the way up makes every node agree with the live blocks |
| Buddy.Buddy2.Free | lab02/buddy_system.cpp:122-164 | releases exactly the live block that contains the offset, or changes nothing if there is none |
| Buddy.Buddy2.FindUsed | lab02/buddy_system.cpp:126-141 | the climb from the unit leaf finds the node of the live block that contains the offset, if and only if there is one |
| Buddy.Buddy2.ClimbAfterFree | lab02/buddy_system.cpp:143-163 | merging whole buddies on the way up makes every node agree with the live blocks |
| Buddy.NodeFormula | lab02/buddy_system.cpp:103-109 | the offset of a node is (index + 1) * node_size - size |
| Buddy.LeafOfOffset | lab02/buddy_system.cpp:126-130 | leaf size - 1 + o is the unit node at offset o |
| BuddySpec.ValueOfHalves | lab02/buddy_system.cpp:146-162 | the largest free block of a range follows from its halves: the whole if both are free, otherwise the larger one |
| BuddySpec.FirstFitIsLowest | lab02/buddy_system.cpp:55-95 | the linear scan finds the lowest aligned free block and fails only if there is none |
| BuddySpec.RunPlaces | lab02/buddy_system.cpp:55-164 | in every run the live blocks are aligned to their size, inside the arena and pairwise disjoint |
| BuddySpec.LiveIsHeld | lab02/buddy_system.cpp:55-164 | after any run a block is live exactly when some request was answered with it and no later release named one of its offsets |
| BuddySpec.HeldApart | lab02/buddy_system.cpp:55-164 | two blocks handed out in a run with no release of the first in between do not overlap |
| BuddySpec.ReleasesOne | lab02/buddy_system.cpp:122-141 | freeing an offset inside a live block releases that block and no other |
| BuddySpec.AllocThenFree | lab02/buddy_system.cpp:101-163 | freeing any offset of a block just allocated restores the live blocks, and so the array |
| BuddySpec.FreeAllEmpties | lab02/buddy_system.cpp:122-164 | freeing offsets in any order leaves nothing live exactly when each live block is hit |
| Rand.Generator.Rand | lab8/libs/rand.c:11-16 | 64-bit wrap followed by the mask is one step modulo 2^48; the value returned lies in 1..RAND_MAX |
| Rand.Generator.Srand | lab8/libs/rand.c:22-25 | the seed becomes the state |
| Rand.WrapThenMask | lab8/libs/rand.c:13 | wrapping at any larger power of two before masking does not change the recurrence |
| Rand.ReturnsExactlyAtMultiples | lab8/libs/rand.c:13 | modulo 2^k, with a multiplier 1 mod 4 and an odd increment, the orbit returns to its start exactly at the multiples of 2^k |
| Rand.FullOrbit | lab8/libs/rand.c:13 | such an orbit reaches every residue, at exactly one step of each period |
| Rand.FullPeriod | lab8/libs/rand.c:13 | from any state below 2^48 the generator visits all 2^48 states before repeating |
| Rand.OutputRange | lab8/libs/rand.c:14-15 | from any state exactly the numbers 1..RAND_MAX are returned |
| Rand.SameOutput | lab8/libs/rand.c:14-15 | two states give the same value exactly when their bits from 12 up differ by a multiple of RAND_MAX |
| Rand.OutputOf | lab8/libs/rand.c:14-15 | the state whose bits from 12 up are v - 1 gives v |
| Rand.StepsApart | lab8/libs/rand.c:13 | the steps of two states differ, modulo 2^48, by their difference times the difference of the steps of 1 and 0 |
| Rand.FirstSteps | lab8/libs/rand.c:4-15 | the steps of 0 and 1, and 6155983 as the first value of an unseeded generator |
| Mksfs.Sfs.CreateSfs | lab8/tools/mksfs.c:223-254 | fails exactly when the bitmap leaves no room; otherwise an object in the initial state |
| Mksfs.Sfs.SfsAllocIno | lab8/tools/mksfs.c:173-180 | hands out the next number while there is one and counts it as used |
| Mksfs.Sfs.AllocBlock | lab8/tools/mksfs.c:182-190 | a zeroed cached block under a given or a new number, filed under the number passed in |
| Mksfs.Sfs.SearchBlock | lab8/tools/mksfs.c:192-199 | the first cached block of the chain with the number |
| Mksfs.Sfs.AllocInode | lab8/tools/mksfs.c:201-212 | an empty cached inode, filed under its host number |
| Mksfs.Sfs.SearchInode | lab8/tools/mksfs.c:214-221 | the first cached inode of the chain with the host number |
| Mksfs.Sfs.Write | lab8/tools/mksfs.c:287-300 | the block is on the disk, zero-padded, and the write is recorded |
| Mksfs.Sfs.Update | lab8/tools/mksfs.c:382-395 | the current index block of a pointer cell: new, cached or searched for |
| Mksfs.Sfs.Append | lab8/tools/mksfs.c:397-426 | enters a block number at the next position, over all three levels, and updates the counters; fails for a file of the greatest size |
| Mksfs.Sfs.AppendDouble | lab8/tools/mksfs.c:415-422 | through l2 and a cell of its block to l1 and a cell of that block, on the heap, with the effect of the two index updates on the values; whichever blocks these are |
| Mksfs.Sfs.EnterName | lab8/tools/mksfs.c:428-437 | writes an entry block into a directory and counts the link |
| Mksfs.Sfs.EnterDir | lab8/tools/mksfs.c:439-447 | a new directory, filled and then entered; fails if its host number is cached |
| Mksfs.Sfs.EnterFile | lab8/tools/mksfs.c:449-457 | the cached inode of a file seen before, or a new one with its content, entered |
| Mksfs.Sfs.EnterLink | lab8/tools/mksfs.c:459-464 | a new symbolic link, entered |
| Mksfs.Sfs.Fill | lab8/tools/mksfs.c:466-514 | the two dot entries and one pass over the host's directory |
| Mksfs.Sfs.Enter | lab8/tools/mksfs.c:475-511 | the loop body: hidden names and unsupported types are passed over, long names fail |
| Mksfs.Sfs.FillFile | lab8/tools/mksfs.c:516-530 | the content block by block |
| Mksfs.Sfs.FillLink | lab8/tools/mksfs.c:532-542 | the target in one block; a target of a block or more fails |
| Mksfs.Sfs.MapWords | lab8/tools/mksfs.c:317-332 | one block of the bitmap |
| Mksfs.Sfs.CloseSfs | lab8/tools/mksfs.c:312-349 | bitmap, super block and both caches on the disk, in the order of the source |
| Mksfs.Sfs.CreateImg | lab8/tools/mksfs.c:544-559 | the whole program: it stops exactly when the image is too small or the tree breaks a limit; otherwise the disk shows the host's tree, every block was written once and lies in the file, as many blocks as fit are counted, the label is on the disk, and no search took place |
| SfsFormat.InodeRoundTrip | lab8/tools/mksfs.c:134-142 | the fields of a written inode read back at their offsets |
| SfsFormat.LittleEndian | lab8/tools/mksfs.c:133-157 | numbers are stored with the low byte first |
| SfsLimits.NamesListed | lab8/tools/mksfs.c:475-512 | a shown directory lists, in the host's order, exactly the files, links and directories whose names do not start with a dot, under the first 252 bytes of their names |
| SfsLimits.AcceptedTrees | lab8/tools/mksfs.c:397-542 | the tree breaks no limit exactly when visible names have at most 255 bytes, files at most 128 MB, link targets less than 4096 bytes, directories at most 32766 visible entries, and no directory occurs twice |
| SfsLimits.BuildAccepts | lab8/tools/mksfs.c:544-559 | building succeeds exactly when the host's tree meets these limits and its blocks fit in the file |
| SfsIndex.SearchHits | lab8/tools/mksfs.c:182-199 | where every index block is filed under number 0, a search for a cached block finds something exactly when its number hashes to 0 |
| SfsWalk.SearchWouldMiss | lab8/tools/mksfs.c:182-199 | on an image of 21 blocks, for any content of 12 blocks and one byte in one file: the file's index block is cached, and a search for its number finds nothing |
| SfsIndex.AppendBlockOk | lab8/tools/mksfs.c:397-426 | an append fails only for size or room; otherwise the index answers the old positions as before and the new one with the new number, at every level boundary |
| SfsRep.NextAppendIsCurrent | lab8/tools/mksfs.c:406-422 | wherever the builder's invariant holds, the pointer cells of both calls of update_cache in the next append are current or empty, also where the next index block begins |
| SfsRep.StoreChunkKeeps | lab8/tools/mksfs.c:173-190 | storing a chunk fails exactly for lack of room or at the greatest size, and keeps conservation of blocks, unique ownership, the index, the contents and the counters |
| SfsRep.StoreRunKeeps | lab8/tools/mksfs.c:397-426 | after any interleaving of appends to inodes each inode holds exactly its own chunks in order, its earlier blocks unmoved |
| SfsRep.LookupFinds | lab8/tools/mksfs.c:406-422 | following the numbers in the inode and in the cached index blocks leads from position k to the k-th block of the inode, and no two cached blocks share a number |
| SfsRep.StoreRunLookup | lab8/tools/mksfs.c:406-422 | after any interleaving of appends, following the numbers from position k of an inode leads to a block that holds its k-th chunk, and old positions lead where they led |
| SfsTree.NameSurvives | lab8/tools/mksfs.c:428-435 | the name read back from the block written equals the name given exactly up to 252 bytes |
| SfsTree.EntryRoundTrip | lab8/tools/mksfs.c:430-434 | a written entry reads back as its number and its cut name, whatever earlier names have left in the static record |
| SfsTree.OpenFileGood | lab8/tools/mksfs.c:516-530 | a file's content is stored behind what the inode holds and takes exactly the computed number of blocks |
| SfsTree.AddEntryGood | lab8/tools/mksfs.c:428-437 | entering a name keeps the invariant, including that each link count is the number of entries naming the inode modulo 2^16 |
| SfsWalk.SearchFinds | lab8/tools/mksfs.c:214-221 | a cached inode is found exactly when one has the host number |
| SfsWalk.AddOneGood | lab8/tools/mksfs.c:475-511 | one entry fails exactly when its budget says so, and otherwise adds exactly that entry's tree |
| SfsWalk.OpenDirGood | lab8/tools/mksfs.c:466-514 | a directory is filled with its dot entries and exactly the visible entries of the host's, in order |
| SfsWalk.BuildGood | lab8/tools/mksfs.c:223-254 | building succeeds exactly when the root, the tree and all index blocks fit and no limit is broken; the numbers used are exactly the budget, the tree is in the builder's state, and update_cache has never searched |
| SfsClose.FreemapSpec | lab8/tools/mksfs.c:317-332 | a bit is set exactly for a number that is unused and inside the image |
| SfsClose.CloseSpec | lab8/tools/mksfs.c:312-349 | after closing, the blocks on the disk are exactly the numbers given out, each written once over the whole run, each cached object in its own block |
| SfsImage.FreeCount | lab8/tools/mksfs.c:312-335 | the bitmap has as many bits set as the super block counts unused blocks |
| SfsImage.FreeBitOfByte | lab8/tools/mksfs.c:327-331 | the bit of number b is bit b % 8 of byte b / 8 of its bitmap block |
| SfsImage.BlocksFit | lab8/tools/mksfs.c:226-231 | the image has as many blocks as fit in its file, but at most 524288 |
| SfsImage.PointerRead | lab8/tools/mksfs.c:406-422 | a reader that follows direct, indirect and double-indirect pointers on the disk finds the k-th block number |
| SfsImage.TreeRead | lab8/tools/mksfs.c:466-542 | reading an inode from the disk gives back the tree stored there, and names each inode as often as the builder counted |
| SfsImage.LinksRead | lab8/tools/mksfs.c:436 | the link count on the disk is the number of entries of the tree that name the inode, modulo 2^16; besides the dot entries only a regular file has several, and dot entries name directories only |
| SfsImage.NamedOnce | lab8/tools/mksfs.c:436-464 | in an image, a symbolic link has exactly one name and link count 1; a directory is named at most once besides the dot entries, and the root never |
| SfsImage.SharedAsOnHost | lab8/tools/mksfs.c:449-457 | two file entries share an inode exactly when their host numbers are equal |
| SfsImage.ImageRoundTrip | lab8/tools/mksfs.c:544-559 | building and closing, then reading from block 1: the tree, the sharing (no directory or link is named twice, the root not at all), the link counts, the bitmap, the super block with its block count and label are right, and building fails exactly when the tree does not fit |
| StrLib.StrChr | lab8/libs/string.c:154-163 | the first occurrence, and never the terminator |
| StrLib.StrNLen | lab8/libs/string.c:33-40 | the length, but at most the bound |
| StrLib.Strtol | lab8/libs/string.c:215-271 | blanks, sign, prefix and digits with 64-bit wrap-around, and the position behind them |
| StrtolLaws.DigitValues | lab8/libs/string.c:248-262 | digits, small and capital letters count from 0 to 35, and nothing else counts |
| StrtolLaws.ValueWraps | lab8/libs/string.c:263 | the value is the number that the digits denote, wrapped around at 64 bits |
| StrtolLaws.BlanksPassed | lab8/libs/string.c:221-223 | blanks and tabs in front change nothing but the position |
| StrtolLaws.SignPassed | lab8/libs/string.c:226-231 | a plus sign changes nothing and a minus sign negates |
| StrtolLaws.HexPassed | lab8/libs/string.c:234-236 | "0x" is passed over in the bases 0 and 16, where it means 16 |
| StrtolLaws.OctalPassed | lab8/libs/string.c:237-239 | in base 0 a leading zero means base 8 |
| StrtolLaws.DigitsPassed | lab8/libs/string.c:240-242 | otherwise the digits are read in the base given, and base 0 means 10 |
| StrtolLaws.CapitalPrefixStops | lab8/libs/string.c:233-239 | "0X" is no prefix: nothing behind the zero is read |
| Shell.GetToken | lab8/user/sh.c:18-47 | the kind, the start and the new position of the next token, and the whole new buffer: blanks and symbols become NULs, quotes in the word become spaces, nothing else changes |
| Shell.LexAt | lab8/user/sh.c:24-44 | cutting where the code cuts agrees with a lexer that reads one character at a time |
| Shell.CallCloses | lab8/user/sh.c:24-35 | the next call puts the NUL behind every word cut so far and overwrites none of their characters |
| LexLaws.CommandLexed | lab8/user/sh.c:18-47 | any command put together from words with quoted parts, the four blanks and the five symbols is taken apart into its words and symbols, with a space for every quotation mark |
| LexLaws.OpenQuoteLexed | lab8/user/sh.c:36-43 | an unclosed quotation mark takes the rest of the command into the word |
| Shell.Tokenize | lab8/user/sh.c:18-47 | calling gettoken until it returns 0 yields exactly the reference tokens of the original command, and every word pointer then reads as its word |
| Shell.Redirect | lab8/user/sh.c:133-150 | a redirection takes the next word and opens the name that its pointer reads as at that moment |
| Shell.RedirectionTarget | lab8/user/sh.c:133-150 | the name opened is the word written exactly when nothing follows it in the command |
| Shell.RedirectionRunsOn | lab8/user/sh.c:133-150 | an example in which the name opened runs on |
| Shell.CollectWords | lab8/user/sh.c:123-193 | runcmd up to running the command: which error stops it, or where the command ends, and the argument pointers, each reading as its word |
| Shell.CollectedArgs | lab8/user/sh.c:125-132 | the arguments collected are the words of the reference lexer up to a pipe, semicolon or end without redirection targets, at most 32 |
| Shell.CollectedStop | lab8/user/sh.c:123-193 | what stops the collecting is determined by the reference lexer's tokens and the answers to the redirections: the first of too many arguments, a missing target, a failed opening, an unexpected token, a pipe, a semicolon or the end |
| LexLaws.WordsCollected | lab8/user/sh.c:126-132 | words become arguments in order, and the 33rd is an error |
| LexLaws.RedirectionCollected | lab8/user/sh.c:133-150 | a redirection takes the next word out of the arguments and goes on when the file could be opened |
| LexLaws.CommandStops | lab8/user/sh.c:151-193 | a pipe, a semicolon and the end run the command, and '&' is an error |
| LexLaws.DescriptorOpened | lab8/user/sh.c:133-150 | '<' opens its target as descriptor 0 and '>' as descriptor 1 |
| Printfmt.SprintBuf.Put | lab8/libs/printfmt.c:309-315 | every character counts, and it is stored as long as there is room |
| Printfmt.SprintBuf.PrintNum | lab8/libs/printfmt.c:53-69 | the recursion prints the padded field of the number |
| Printfmt.PrintThenParse | lab8/libs/printfmt.c:53-69 | in base 8, 10 or 16, for any width and padding by blanks or zeros, the field has the greater of width and digit count characters and strtol reads the number back up to the terminator, wrapped around at 64 bits |
| Printfmt.NegativeReads | lab8/libs/printfmt.c:245-252 | a negative number reads back when unpadded or padded by zeros |
| Printfmt.PaddedSign | lab8/libs/printfmt.c:245-252 | padding between sign and digits makes strtol stop at the sign and return 0 |
| Printfmt.DashPadded | lab8/libs/printfmt.c:159-161 | padding a number with the flag '-' changes its sign or makes it unreadable |
| Printfmt.DecimalRoundTrip | lab8/libs/printfmt.c:245-252 | exactly when a signed number reads back, for every long, width and flag |
| Vprintfmt.PrintString | lab8/libs/printfmt.c:221-242 | %s prints the string cut to the precision and padded to the width |
| Vprintfmt.PrintEscape | lab8/libs/printfmt.c:150-293 | flags and conversion of one escape; the format always goes on behind its '%' |
| Vprintfmt.VPrintfmt | lab8/libs/printfmt.c:136-295 | ends on every format and prints its output; fails exactly when the arguments do not fit what the format asks for |
| Vprintfmt.OutputWants | lab8/libs/printfmt.c:136-295 | there is an output exactly when the arguments match, one by one, the kinds computed from the format alone |
| Vprintfmt.UnknownIsLiteral | lab8/libs/printfmt.c:287-292 | an escape with an unknown character, or cut short by the end of the format, is printed literally |
| FormatLaws.DirectiveRead | lab8/libs/printfmt.c:150-201 | a directive written out as text, with '#', padding flag, width, precision and any number of 'l', is taken apart into exactly its flags and its conversion (`FormatLaws.WrittenExamples` writes some out) |
| FormatLaws.DirectivePrints | lab8/libs/printfmt.c:136-295 | a format that goes on with a directive prints what its conversion prints and then the rest for the remaining arguments |
| FormatLaws.SignedReadsBack | lab8/libs/printfmt.c:245-253 | %d and %ld print, on every argument in range, text that strtol reads back as the argument, exactly unless padding comes between sign and digits or '-' pads |
| FormatLaws.UnsignedReadsBack | lab8/libs/printfmt.c:255-280 | %u, %o and %x print text that strtol reads back in base 10, 8 and 16 as the unsigned value of the argument |
| FormatLaws.PointerReadsBack | lab8/libs/printfmt.c:267-274 | %p prints text that strtol reads back in base 16 through the "0x", exactly unless blanks or dashes follow it |
| FormatLaws.WidthPads | lab8/libs/printfmt.c:53-69 | a width puts padding behind the sign or "0x" of what is printed without it, and nothing else changes |
| FormatLaws.CharacterPrinted | lab8/libs/printfmt.c:203-206 | %c prints its argument |
| FormatLaws.StringPrinted | lab8/libs/printfmt.c:222-243 | %s prints the string up to the precision, on the right of its field or with '-' on the left followed by blanks; with '#' a question mark stands for what is not printable |
| FormatLaws.NullPrinted | lab8/libs/printfmt.c:222-225 | a null pointer prints as "(null)" |
| FormatLaws.ErrorPrinted | lab8/libs/printfmt.c:208-220 | %e prints the message of the code's absolute value, or "error " and a number that reads back as it |
| FormatLaws.PercentPrinted | lab8/libs/printfmt.c:283-285 | %% prints a percent sign and takes no argument |
| FormatLaws.LiteralPrinted | lab8/libs/printfmt.c:143-148 | a format without '%' is printed as it is |
| FormatLaws.StarIsNumber | lab8/libs/printfmt.c:179-181 | a '*' stands for the width that is taken from the arguments |
| Vprintfmt.VSNPrintf | lab8/libs/printfmt.c:347-358 | without room -E_INVAL and nothing written; otherwise the length of the whole output is returned, and the buffer holds what fits and a NUL and is otherwise unchanged |

## Left out

- The kernel, its drivers and the register definitions; the user programs apart from the shell; tools/sign.c and tools/vector.c.
- The list, rounding and hash headers, which hold one-step facts only; the copies of these files in earlier labs.
- Mksfs.Sfs.Update: the cell passed by address is a value passed in and a new value handed back, which the caller stores;
  the static entry and the inode's fields are values inside their objects.
- File descriptors, stat, readdir, chdir, read and write errors, messages and the subpath list. The host's tree is a
  value; reading a regular file yields full blocks up to its end. A call of bug() or a failed assert ends the run without an image.
- What the host does when one inode number stands for two different objects, as on two devices: the theorems on the
  walk suppose one object per number, and no object with number 0, which the builder uses for its root.
- Mksfs.Sfs.CreateSfs: the part of super.info behind the label is not initialised by the source, so the field is a parameter.
- Mksfs.Sfs.EnterLink: two hard links to one symbolic link become two inodes, as in the source; nothing is proved about their sharing.
- Shell.CollectWords: fork, pipes, waiting, the execution itself and the built-in cd; reopening a descriptor is a parameter that answers for each name.
- The shell's prompt loop and readline.
- Vprintfmt.VPrintfmt: the mechanics of argument lists, the texts of the error messages (a parameter) and console output. The nested
  call that prints an error message is modelled by what it prints; the most negative error code, whose absolute value does not
  exist, counts as a wrong argument.
- Printfmt.SprintBuf.PrintNum: field widths, precisions and the character count are unbounded integers, not ints of 32 bits.
- Buddy.FixSize: unbounded integers, so a request above 2^30 does not overflow.
- StrLib.Strtol: the value wraps around at 64 bits, where C leaves overflow undefined.
