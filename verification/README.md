# Storage, compilers and memory managers of FUZIX, as Dafny models

FUZIX is a small Unix-like kernel with its own tool chain. This project models the parts of it whose
correctness rests on aliasing, in-place patching or bookkeeping that has to follow the run time exactly, and
proves what those parts are for. `dafny verify dfyconfig.toml` checks everything.

## What is modelled

**Disk storage** (`Kernel/devio.c`, `Kernel/filesys.c`, `Kernel/inode.c`, `Standalone/mkfs.c`, `Standalone/fsck.c`)

- `Blocks`: 512-byte blocks, read as bytes and as 16-bit little-endian words.
- `BufferCache`: the buffer pool. It stands for a flat disk, whatever is evicted, delayed or written early.
- `FreeList`: the 50-entry table that spills into the free blocks themselves. It stands for a stack of block numbers.
- `Ownership`: one invariant, `Owns`, for a whole device. Every block past the inode area is free or is named by
  exactly one pointer cell, a slot of an inode or an entry of an indirect block.
- `BlockMap`: `bmap`. `Truncate`: `f_trunc` and `freeblk`, with the theorem `Partition`.
- `Files`, `Sessions`: `readi`, `writei` and `rwsetup` on regular files, which refine a byte sequence.
- `Pipes`: the 18-block ring. `Directories`: `namecomp`, `srch_dir` and `ch_link` as a finite map.
- `Images`: `mkfs`, mounting, and runs from a fresh image. `Volumes`: runs of file and directory operations, with files
  as byte sequences and directories as finite maps. `Fsck`: the marking of pass 1 and the rebuilding of pass 2.

**Small C** (`Applications/SmallC`)

- `Expressions`: tokens, grammar and an evaluator for int expressions. `Operators`: what the evaluator's operators come
  to, in C's terms. `Grammar`: that a text has one reading, the one C's table of precedence gives. `Machine8080`: the
  instructions the back end emits. `SmallC`: the code of an expression. `SmallCRuns`: why running it is right. `SmallCCompiler`: the one-pass
  compiler itself, down to `Compile`, which goes from tokens to a statement about every run.
- `Peephole`: `copt`, for rules of literals and `%0` to `%9`.

**BCPL** (`Applications/BCPL`)

- `Intcode`: INTCODE sections, a two-pass assembler, the decoder and packed strings. `Linker`: the one-pass
  assembler that threads references through the cells it will patch. `Paging`: the interpreter's paged memory.
  `Accesses`: why assembling on paged memory gives what assembling on an array gives.

**Memory** (`Kernel/flat_mem.c`, `Kernel/single.c`, `Kernel/bank16k.c`, `Kernel/swap.c`)

- `FlatMemory`: address-ordered, doubly linked block lists and the in-place merge. `RunLength`: the packed swap area.
- `Banks`, `Victims`, `Swapping`, `SwapRuns`: 16K banks, swap slots, whom `swapvictim` picks, and processes that
  cannot tell they were swapped.

Objects that the source updates in place are classes, and what they stand for is a value computed from their fields.
Invariants over that value carry the proofs, so a method says what it does to the value and what it leaves alone.
Reads and writes of devices are total operations on block maps. Sleeping is an outcome of a call.

## What the proofs turned up

Each of these is a property that does not hold of the code as it stands, or holds under a condition that the
contracts state.

- `writei` of no bytes past the end of a file still extends it (`Files.Writei`), and a write that fails with EFBIG
  beyond the largest offset leaves a size above the limit. The size stays within the limit exactly when the offset
  does, so a session behaves like a byte sequence up to the first write past the limit (`Sessions.Session`).
- The counters `n` and `bno` of fsck's pass 1 have 16 bits and wrap; the bounds they are compared with do not. Pass 1
  ends if and only if there are at most 65535 inodes, that is `8 * (s_isize - 2) <= 65535`, and every regular file and
  directory is shorter than 65535 blocks (`Fsck.EndsExactly`). A one-byte write behind a seek to 65535 * 512 makes a
  file on which it runs for ever (`Fsck.NeverEnds`).
- With two blocks before the data area `mkfs` has no room for an inode table, so there is no root
  (`Images.MkfsAndMount` has the equivalence).
- `srch_dir` hands NULLBLK to `bread` if a directory has a hole. `ch_link` never makes one, so `Directories.IsDir`
  can ask for none. `ch_link` does not look for the new name, so names stay unique exactly when it is unused or the one
  replaced (`Directories.LinkTwice`).
- Buffers carry 16-bit time stamps. The cache evicts the free buffer used least recently as long as none has been left
  alone for 65536 calls of `bread` and `tmpbuf` (`BufferCache.UseOk` in `BufferCache.Run`); one left alone for exactly
  65536 looks like the one just used (`BufferCache.AgeWraps`).
- Nothing in the kernel sets a buffer to BF_SUPERBLOCK, so no run of the cache has a pinned buffer.
- The parser level for `&` does not return early on `&&`. That is harmless: the operand is fetched a little earlier.
- `?cmp` goes by the sign of the 16-bit difference. So `<`, `<=` and `>=` are right if and only if the left operand
  minus the right one is an int of 16 bits, and `>` if and only if the right one minus the left one is: 30000 passes for
  less than -30000 (`Operators.ComparisonsAre`). `?div` gives the remainder the sign of the quotient, which is C's
  remainder if and only if it is 0 or the divisor is positive (`Operators.RemainderSign`). Shifts by more than 128 count
  the low byte only (`Operators.ShiftsAre`).
- A library call writes its return address, and what the routine pushes, below SP. So an expression needs eight bytes
  of stack more than its own pushes take (`SmallCCompiler.Compile`).
- `add2M` does not mark its page dirty. A sum on a page that is in the file is lost if and only if the page is replaced
  before it is next written to (`Paging.SumFate`; `Paging.SumIsLost` is an input, and `Paging.FirmExactly` says which
  pages are safe). The assembler only adds on pages just written to, but for a `C` item that follows a `G` item in the
  middle of a word (`Accesses.PagedAlike`).
- Pages 32 apart share a place in the page file (`Paging.SamePlace`), and one is read back as the other
  (`Paging.Clash`).
- A pattern of `copt` takes the shortest texts from left to right and never tries again, and variables bound by a try
  that fails stay bound. Where no variable occurs twice in a pattern and none is bound yet that loses nothing
  (`Peephole.MatchExactly`).
- `optline` frees the line its caller then compares with, so whether `optimize` steps back is left open. A match on the
  first line ends the pass. An empty replacement would cut off the rest of the list; `readpattern` refuses such rules.
- `vmmu_init` puts more blocks on the free list than it counts unless the space divides evenly
  (`FlatMemory.MapAccount`). The surplus map entries lie in the first data block.
- In the packed swap area the six-byte check covers the largest record and the trailer, except for a frame of no bytes,
  which is never checked, and for a frame begun with `ramtop` at `u_top`, where the 16-bit difference wraps
  (`RunLength.RoomAtStart`): that frame is written below `u_top` (`RunLength.Machine.SwapOut`).
- `do_swap_in` starts one byte above the frame. It still restores the data if that byte is all they consist of and their
  length modulo 255 is 1 to 4, or if it is the escape byte and one of five coincidences makes up for it; otherwise
  they are wrong, or it stops short or runs over (`RunLength.StartsTooHigh`, `RunLength.StrayByte`).
- `swapper` frees the swap slot of a process even when there was no memory to read it into. That happens exactly when
  neither the free pages nor swapping out victim after victim can make room (`Swapping.System.Swapper`). One page, one
  slot and two processes are enough (`SwapRuns.SlotLost`), and the next process swapped out is written over the first
  (`SwapRuns.Overwritten`).
- `pagemap_free` loses the first page of a map exactly when it is page 0xff (`Swapping.System.PagemapFree`), and
  `maps_needed` gives too few banks exactly to a program that ends above PROGTOP (`Banks.MapsFit`).

## Model

| member | source | states |
|---|---|---|
| BufferCache.Cache.constructor | Kernel/devio.c:41 | a cold pool holds no block, and the flat disk it stands for is the devices |
| BufferCache.Cache.BFind | Kernel/devio.c:158-167 | a buffer is found if and only if the pool holds the block |
| BufferCache.Cache.FreeBuf | Kernel/devio.c:181-205 | of the free buffers the one used least recently is chosen, if none was left alone for 65536 calls, and the one with the least stamp, if none is past the clock; it is clean afterwards and its block is on the device; no other buffer or block changes |
| BufferCache.OldestIs | Kernel/devio.c:181-205 | the greatest 16-bit age belongs to the buffer used least recently as long as every free one was used within 65536 calls |
| BufferCache.AgeWraps | Kernel/devio.c:181-205 | a buffer left alone for 65536 calls has the age of the one just used |
| BufferCache.Cache.BRead | Kernel/devio.c:43-73 | the buffer holds the block, without rewrite it has what was last released for it, a hit changes nothing else and a miss evicts only a free buffer, the one whose last bread or tmpbuf came first |
| BufferCache.Cache.BFree | Kernel/devio.c:88-105 | the holder's data become the block's contents from here on, on the device too when written at once; no other buffer or block changes |
| BufferCache.Cache.TmpBuf | Kernel/devio.c:115-124 | a scratch buffer belongs to no device, was the free one used least recently, and taking it loses no block's contents |
| BufferCache.Cache.BdPut | Kernel/devio.c:138-144 | the device gets the buffer, and the mark goes only when nobody holds it |
| BufferCache.Cache.BufSync | Kernel/devio.c:146-156 | only blocks held dirty may still differ from the device, so with nothing held the devices equal the flat disk |
| BufferCache.Cache.BDrop | Kernel/devio.c:169-179 | no buffer of the device is left, its blocks are on it as last released, and other devices' buffers stay |
| BufferCache.SomeFree | Kernel/devio.c:181-205 | freebuf cannot panic while fewer blocks and scratch buffers are held than there are buffers |
| BufferCache.Apply | Kernel/devio.c:43-205 | each operation on the cache, scratch buffers included, is the same operation on a flat disk with private copies of held blocks and scratch memory |
| BufferCache.Run | Kernel/devio.c:43-205 | over any legal run of bread, bfree, tmpbuf, tmpfree, bufsync, bdrop and evictions from a cold cache every reader sees what a flat disk would show and every scratch buffer keeps what was put there; every miss and every tmpbuf takes the free buffer used least recently; with no block held a final sync leaves that disk on the devices |
| FreeList.Store.constructor | Kernel/filesys.c:1179-1234 | a mounted superblock and its chained link blocks stand for the stack of free blocks, with s_tfree its height |
| FreeList.HoldsUnique | Kernel/filesys.c:611-700 | a table with its chain of link blocks stands for one stack only |
| FreeList.HoldsSpill | Kernel/filesys.c:673-700 | writing a full table into the block being freed keeps every older entry reachable through it |
| FreeList.HoldsTake | Kernel/filesys.c:611-666 | popping the last entry of a table continues in the link block it names, with the rest of the stack intact |
| FreeList.Store.BlkFree | Kernel/filesys.c:673-700 | pushes the block and touches no other block on disk, and none at all unless the table is full |
| FreeList.LinkBytes | Kernel/filesys.c:673-700 | a link block has the count and the fifty numbers at its start, each with its low byte first |
| FreeList.Store.BlkAlloc | Kernel/filesys.c:611-666 | pops the block on top and zeroes it alone; the answer is 0 if and only if the stack is empty |
| FreeList.Store.Refill | Kernel/filesys.c:634-644 | the table read back is the one a link block holds |
| Ownership.Layout | Kernel/filesys.c:961-1041 | a file's first 18 blocks are named in the inode, the next 256 by the words of the block in slot 18, the others by the words of the blocks that the block in slot 19 names |
| Ownership.LeafInjective | Kernel/filesys.c:961-1041 | no two logical blocks, of one file or of two, end in the same pointer cell |
| Ownership.MapInjective | Kernel/filesys.c:961-1041 | distinct logical blocks, of one file or of two, never share a physical block |
| Ownership.LinkOwns | Kernel/filesys.c:961-1041 | storing a popped block in a vacant cell keeps the ownership invariant of the whole device |
| Ownership.LinkMap | Kernel/filesys.c:961-1041 | storing a popped block in a vacant cell changes the mapping of no logical block but those through that cell |
| BlockMap.Fs.Fetch | Kernel/filesys.c:985-1037 | one step of the walk: the cell ends up naming the block of its level, allocated and zeroed if it was missing, every other mapping kept |
| BlockMap.Fs.Bmap | Kernel/filesys.c:961-1041 | maps the logical block to the answer across the direct, single and double ranges and nothing else; fails if and only if fewer blocks are free than are missing; a fresh block is zero and came from the top of the stack; reading changes nothing |
| Truncate.OrderIs | Kernel/filesys.c:931-952 | the order in which freeblk frees is exactly the blocks of the tree, each once |
| Truncate.TruncIs | Kernel/filesys.c:868-894 | the order in which f_trunc frees is exactly the blocks the file owns, each once |
| Truncate.FreeTree | Kernel/filesys.c:931-952 | pushes the tree's blocks in that order although blk_free writes link tables into freed blocks: every entry it reads is still the one from before the call |
| Truncate.FreeSlot | Kernel/filesys.c:879-887 | the tree under a slot is untouched by whatever the slots before it freed |
| Truncate.TruncTop | Kernel/filesys.c:868-894 | the file's first block is freed last and the tree under slot 19 first |
| Truncate.Trunc | Kernel/filesys.c:868-894 | all blocks of the file and no others go to the free list once each, the inode is empty, other files keep their blocks; nothing happens when read-only |
| Truncate.TruncOwns | Kernel/filesys.c:868-894 | truncation keeps the ownership invariant of the whole device |
| Truncate.Partition | Kernel/filesys.c:611-700 | every block past the inode area is on the free list exactly once and owned by nobody, or not on it and named by exactly one cell of exactly one file |
| Files.SpliceIs | Kernel/inode.c:138-235 | writing at an offset keeps what is before and after, and fills a gap with zeros |
| Files.WriteBlock | Kernel/inode.c:183-211 | the loop body writes just its piece of one block, and fails if and only if fewer blocks are free than are missing |
| Files.WriteBlocks | Kernel/inode.c:180-220 | what was copied is a prefix of the data, and the loop stops early only at the size limit or with the device full |
| Files.Readable | Kernel/inode.c:45-58 | a read gets as many bytes as asked for, or all there are up to the end |
| Files.Readi | Kernel/inode.c:29-134 | delivers exactly the bytes from the offset on, and stops before the number asked for only at or past i_size; past the end it reads nothing; it changes no file |
| Files.Writei | Kernel/inode.c:138-235 | only the written range changes, the size becomes the larger of the old one and the end, a short write is a prefix and says why |
| Files.WroteFile | Kernel/inode.c:138-235 | the byte sequence of the file becomes the splice of the data, gaps reading as zero |
| Files.WroteOthersKept | Kernel/inode.c:138-235 | every other file keeps its bytes |
| Files.TruncFile | Kernel/filesys.c:868-894 | after truncation the file is the empty sequence and reads as zeros when extended again |
| Sessions.CallsAre | Kernel/inode.c:288-316 | an append puts the data behind the file, another write where the pointer is, a seek sets the pointer and a read moves it behind what it got |
| Sessions.ReadCall | Kernel/inode.c:288-316 | a read call gets the bytes at the offset, fewer than asked for only at the end, and moves the offset by what it got |
| Sessions.WriteCall | Kernel/inode.c:288-316 | a write call in append mode puts its data behind the file and otherwise at the offset, and moves the offset by what it wrote; past the largest offset it writes nothing and the size goes to the offset |
| Sessions.Session | Kernel/inode.c:29-316 | each call of any sequence of seeks, reads and writes does what it would on a byte sequence, only writes touch the device, a short write has its reason in the state it leaves, and other files stay; a session ends early only at a write past the largest offset |
| Pipes.OffsetsApart | Kernel/inode.c:58-122 | writer offset minus reader offset is i_size modulo the ring |
| Pipes.PipePut | Kernel/inode.c:164-220 | a piece written at the writer's offset touches no byte still held, across the ring's end too |
| Pipes.PipeGet | Kernel/inode.c:58-122 | taking the oldest bytes leaves the others held |
| Pipes.WritePipe | Kernel/inode.c:164-220 | all or nothing against 16 blocks of room: it sleeps or reports a closed pipe just when the request does not fit, else appends a prefix that is the whole unless the device is full |
| Pipes.ReadPipe | Kernel/inode.c:16-26 | sleeps or ends just when nothing is held, else takes the oldest min(asked, held) bytes |
| Pipes.Interleave | Kernel/inode.c:16-220 | for every interleaving of a reader and a writer each call sleeps or moves exactly the bytes it should, the pipe is a ring of at most 16 blocks in every state between, and what the reads returned followed by what is held is what the writes took, in order |
| Directories.NameComp | Kernel/filesys.c:405-420 | true if and only if the two stand for the same name of at most 30 characters before a slash or NUL |
| Directories.RelinkedMap | Kernel/filesys.c:289-365 | replacing one entry changes the name map at the old and the new name only, and names stay unique |
| Directories.ChLink | Kernel/filesys.c:289-365 | errors come in the source's order and leave the directory alone; otherwise the first entry of the old name, or an unused one, or a new one in a zeroed block, is replaced |
| Directories.LinkIsUpdate | Kernel/filesys.c:289-365 | on a directory of unique names ch_link inserts, deletes or renames, and every other binding is kept |
| Directories.LinkErrors | Kernel/filesys.c:289-365 | read-only, permission, an inode without a name and a name that is not there, in that order, decide the error |
| Directories.EntryBytes | Kernel/filesys.c:289-365 | an entry is the inode number, low byte first, and the name up to its first NUL, then zeros |
| Directories.LinkTwice | Kernel/filesys.c:289-365 | names stay unique after ch_link if and only if the new name is empty, unused or the one replaced |
| Directories.Put | Kernel/filesys.c:340-362 | the entry is stored whole or not at all, and growth fills its block with unused entries |
| Directories.SrchDir | Kernel/filesys.c:151-177 | finds the inode number the map has for the name, or none if and only if the map has none |
| Images.Mkfs | Standalone/mkfs.c:80-134 | the chained free list it writes stands for exactly the blocks after the root's, with a matching s_tfree |
| Images.MkfsOwns | Standalone/mkfs.c:80-134 | a fresh image meets the kernel's ownership invariant |
| Images.MkfsRoot | Standalone/mkfs.c:102-131 | the root of a fresh image is a directory with "." and ".." only |
| Images.MkfsAndMount | Standalone/mkfs.c:80-134 | the kernel mounts a fresh image with all invariants; there is a root if and only if the data area starts at block 3 or later |
| Images.Run | Kernel/filesys.c:611-1041 | from a fresh image each mapping takes exactly the missing blocks and maps nothing else, each truncation frees exactly the file's blocks, and in every state between every block is free once or owned once and s_tfree is the number of free ones |
| Volumes.TruncKept | Kernel/filesys.c:868-894 | truncating an inode leaves every other inode, file and directory as it was |
| Volumes.DoCreate | Kernel/filesys.c:463-469 | a free inode, and only a free one, becomes an empty file or directory, and every other inode keeps what it stands for |
| Volumes.DoRemove | Kernel/filesys.c:790-829 | the inode is free again, and every other one keeps what it stands for |
| Volumes.DoWrite | Kernel/inode.c:138-235 | a file becomes the splice, or overlong if and only if the offset is past the limit, and every other inode keeps what it stands for |
| Volumes.DoLink | Kernel/filesys.c:289-365 | ch_link changes the entries of its directory and nothing else on the device |
| Volumes.Run | Kernel/filesys.c:151-1041 | from a fresh image, whatever is created, written, read, truncated, linked, looked up and removed, every answer is what byte sequences and lists of entries give, and in every state between every block is free once or owned once and s_tfree is the number of free ones |
| Volumes.Unnamed | Kernel/filesys.c:151-1041 | an inode that no operation of a run names stands for the same at its end |
| Volumes.DirectoryIsMap | Kernel/filesys.c:289-365 | in any run that links no name twice a directory is a finite map that links, unlinks and renames update |
| Volumes.LookUpFinds | Kernel/filesys.c:151-177 | looking a name up in such a run finds the inode number bound to it at that moment, or nothing |
| Volumes.RootNames | Standalone/mkfs.c:102-131 | the root of a fresh image is the map of "." and ".." |
| Fsck.GetIsMap | Standalone/fsck.c:765-792 | on a consistent image fsck's walk and the kernel's bmap agree on every logical block |
| Fsck.EndsExactly | Standalone/fsck.c:302-393 | pass 1 gets past the last inode if and only if there are at most 65535 inodes and every regular file and directory is shorter than 65535 blocks |
| Fsck.NeverEnds | Standalone/fsck.c:393 | a file of one byte behind a seek to 65535 * 512 is within the kernel's limit and keeps pass 1 running for ever |
| Fsck.MarkFile | Standalone/fsck.c:300-419 | every block of the file gets marked and nothing but owned blocks |
| Fsck.Pass1 | Standalone/fsck.c:300-419 | on a consistent image that it gets through, with no block past an end of file, it asks nothing about blocks and marks a block if and only if some file owns it |
| Fsck.Pass2 | Standalone/fsck.c:423-464 | the rebuilt chained list stands for exactly the unmarked blocks, and marked blocks are not written |
| Fsck.Check | Standalone/fsck.c:300-464 | both passes on such an image give the kernel's own free set and s_tfree, and an image that can be mounted again |
| Expressions.LeftToRight | Applications/SmallC/expr.c:184-572 | operators of one level group to the left: the last operator of a chain applies to the value of all before it, and && and \|\| may skip their last operand |
| Operators.SumsAre | Applications/SmallC/8080/crun.asm:174-181 | sums and differences are those of ints cut to 16 bits, and adding back what was subtracted gives the first operand |
| Operators.ProductIs | Applications/SmallC/8080/crun.asm:206-231 | the product of the words is the product of the ints, cut to 16 bits |
| Operators.DivisionIs | Applications/SmallC/8080/crun.asm:233-292 | quotient times divisor plus C's remainder is the dividend, the remainder smaller than the divisor; the library's is that or minus that |
| Operators.DividesOnce | Applications/SmallC/8080/crun.asm:233-292 | there is one such quotient and remainder |
| Operators.RemainderSign | Applications/SmallC/8080/crun.asm:267-283 | % gives C's remainder if and only if it is 0 or the divisor is positive; of 7 by -2 it gives -1 |
| Operators.ShiftsAre | Applications/SmallC/8080/crun.asm:155-172 | a shift counts the low byte: up to 128 places multiply by a power of two, cut to 16 bits, or take the signed floor of the division by one, and more leave the value |
| Operators.ComparisonsAre | Applications/SmallC/8080/crun.asm:76-145 | each comparison gives 0 or 1 and is right if and only if the difference it goes by is an int of 16 bits; 30000 < -30000 gives 1 |
| Operators.BitwiseIs | Applications/SmallC/8080/crun.asm:49-71 | and, or and exclusive or work bit by bit |
| Operators.BitsTell | Applications/SmallC/8080/crun.asm:49-71 | a word is known by its bits |
| Operators.ArithMeans | Applications/SmallC/8080/crun.asm:49-292 | every binary operator meets its meaning in C, each under its own condition |
| Operators.UnaryValueMeans | Applications/SmallC/8080/crun.asm:182-200 | minus cuts the negative int to 16 bits, ~ flips every bit and ! gives 1 for 0 only |
| Grammar.Unambiguous | Applications/SmallC/expr.c:47-690 | two expressions with the same text are the same |
| Grammar.Writable | Applications/SmallC/expr.c:47-690 | every tree has a text with its value |
| Grammar.Precedence | Applications/SmallC/expr.c:184-575 | with C's ten rows of operators written out, of two operators the one in the earlier row is applied first and of one row the left one, as if there were parentheses |
| Grammar.PairMeans | Applications/SmallC/expr.c:184-575 | the operands of one operator are evaluated left before right, && and \|\| leaving the right one out when the left one decides, and the value is what the operator means |
| Grammar.UnaryText | Applications/SmallC/expr.c:579-690 | - ~ and ! in front of an operand mean minus, complement and not |
| Grammar.AssignText | Applications/SmallC/expr.c:47-137 | = takes everything to its right, stores it in the variable and has it as value |
| Grammar.OpAssignText | Applications/SmallC/expr.c:47-137 | v op= f does what v = v op (f) does |
| Machine8080.WordBytes | Applications/SmallC/8080/crun.asm:32-48 | a word is in memory low byte first, and a store changes two bytes |
| Machine8080.RunAppend | Applications/SmallC/code8080.c:362-384 | code whose jumps stay inside it can be run piece by piece |
| SmallC.ValueTidy | Applications/SmallC/gen.c:27-59 | every jump in an expression's code goes forward to a label of its own, drawn from its own range of label numbers |
| SmallCRuns.OffsetAddress | Applications/SmallC/code8080.c:169-191 | an address computed as offset minus stkp from SP is the offset from the frame |
| SmallCRuns.PushedKept | Applications/SmallC/code8080.c:287-303 | a pushed word survives whatever is computed below it |
| SmallCRuns.CallRuns | Applications/SmallC/8080/crun.asm:30-320 | a library call, with its return address and the routine's own stack below SP, changes no variable and nothing outside the stack area |
| SmallCRuns.OpRuns | Applications/SmallC/code8080.c:496-742 | the code of a binary operator takes the left operand from the stack and leaves its value in HL, whatever its library routine does below SP |
| SmallCRuns.TestRuns | Applications/SmallC/code8080.c:374-384 | the test and jump in front of an operand skips it exactly when the left value settles the operator |
| SmallCRuns.ShortRuns | Applications/SmallC/expr.c:184-235 | the code of && and \|\| runs the right operand only when it decides, and leaves 0 or 1 |
| SmallCRuns.StoreRuns | Applications/SmallC/gen.c:141-146 | a store changes exactly the target variable, whether its address waited on the stack or is fixed |
| SmallCRuns.ValueRuns | Applications/SmallC/expr.c:47-572 | with room for its pushes and calls the code of an expression leaves its value mod 2^16 in HL, makes its stores, restores SP and changes no other byte, for any contents the library leaves in DE and below SP |
| SmallCCompiler.LvalueCode | Applications/SmallC/gen.c:148-154 | the value of a variable is its address code followed by a fetch |
| SmallCCompiler.Compiler.Rvalue | Applications/SmallC/gen.c:148-154 | fetches through HL for an auto and directly for a static |
| SmallCCompiler.Compiler.Store | Applications/SmallC/gen.c:141-146 | stores to the variable, and stkp follows the pop |
| SmallCCompiler.Compiler.GenOp | Applications/SmallC/code8080.c:496-742 | emits the operator's code, and stkp follows the pop |
| SmallCCompiler.Compiler.Primary | Applications/SmallC/primary.c:9-136 | reads one constant, variable or parenthesised expression, leaving a variable as an address to fetch or store to |
| SmallCCompiler.Compiler.Hier10 | Applications/SmallC/expr.c:579-685 | reads a unary expression and emits its code; stkp and labels are accounted for |
| SmallCCompiler.Compiler.HierN | Applications/SmallC/expr.c:184-572 | reads exactly one expression of the level and emits its code; fails if and only if some assignment in it has no variable on the left |
| SmallCCompiler.Compiler.Hier1 | Applications/SmallC/expr.c:47-137 | reads an assignment grouping to the right, with the error "must be lvalue" if and only if the left side is no variable |
| SmallCCompiler.Compile | Applications/SmallC/expr.c:29-137 | from tokens to runs: the expression compiles if and only if its assignments have variables on the left, and then its code computes it on every machine with room on the stack for its pushes and calls |
| Intcode.LabelsInCode | Applications/BCPL/iclink.c:229-243 | pass one finds an address inside the code for exactly the labels that are set |
| Intcode.Decodes | Applications/BCPL/icint.c:473-483 | the interpreter finds every instruction of a section, function, flags and operand, at the address where it was assembled |
| Intcode.CharactersRead | Applications/BCPL/blib.c:30-36 | getbyte gives back the characters stc packed, whatever follows them |
| Intcode.GetPutByte | Applications/BCPL/blib.c:30-49 | putbyte changes the byte it names and no other |
| Intcode.SectionReadsBack | Applications/BCPL/icint.c:473-483 | in an assembled section all instructions decode to what was written and all strings read back |
| Intcode.LabelIs | Applications/BCPL/iclink.c:229-243 | a label's value is the address of the item it marks |
| Intcode.WordStarts | Applications/BCPL/iclink.c:175-180 | characters behind any item but a character or a G item start a new word |
| Intcode.SectionWords | Applications/BCPL/iclink.c:123-136 | in an assembled section each D item is at its address with its value or its label's address, and word 1 + g has the address of the label of each G g L n, where an indirect instruction on global g finds it |
| Linker.PreludeCalls | Applications/BCPL/iclink.c:276-280 | the three words in front load the routine of the item G1, wherever it is, call it and stop |
| Linker.TracksRef | Applications/BCPL/iclink.c:246-255 | a reference to an unset label goes on its thread, the cell holding the one before it |
| Linker.TracksSet | Applications/BCPL/iclink.c:229-243 | once every cell of a thread holds the address, memory agrees with the two-pass one there |
| Linker.TracksDone | Applications/BCPL/iclink.c:85-161 | when all labels are set the one-pass memory is the two-pass memory |
| Linker.Linker.Stc | Applications/BCPL/iclink.c:175-180 | characters fill a word high half first |
| Linker.Linker.Walk | Applications/BCPL/iclink.c:229-243 | the walk along a thread ends, leaving the address in exactly its cells |
| Linker.Linker.SetLab | Applications/BCPL/iclink.c:229-243 | the label is set, its thread is gone and every other thread is as it was |
| Linker.Linker.LabRef | Applications/BCPL/iclink.c:246-255 | the cell gets the address at once or waits on the thread, and nothing else changes |
| Linker.Linker.Assemble1 | Applications/BCPL/iclink.c:85-161 | one item keeps one-pass memory in step with two-pass memory |
| Linker.Linker.Assemble | Applications/BCPL/iclink.c:85-161 | for a section whose labels are set once and whose reference cells are fresh, the memory is that of a two-pass assembler |
| Linker.Link | Applications/BCPL/iclink.c:261-299 | a whole program of such sections, with its three words in front, links to the two-pass image; it reads only what it wrote before, and adds only on pages just written to if no G item comes between the characters of a word |
| Accesses.StoredFirm | Applications/BCPL/icint.c:237-259 | a page written to is kept by a later add2M as long as no other page is accessed in between |
| Accesses.WrittenSame | Applications/BCPL/icint.c:296-464 | what memory held before assembling cannot be told at an address that was written |
| Accesses.PagedAlike | Applications/BCPL/icint.c:296-464 | paged memory, with any number of buffers and any choice of victims, answers every read of the assembler as an array does and ends with the linked words at every address written |
| Paging.SamePlace | Applications/BCPL/icint.c:185-186 | two pages share a place in the page file if and only if their numbers agree mod 32 |
| Paging.Clash | Applications/BCPL/icint.c:185-225 | of two pages 32 apart, with one buffer, the first reads back as the second for any word written there |
| Paging.AssignOk | Applications/BCPL/icint.c:160-168 | the first case keeps vmap and pmap inverse and every address as it reads; the new page reads as zeros |
| Paging.ReplaceOk | Applications/BCPL/icint.c:172-194 | the clean-discard case keeps vmap and pmap inverse; the page replaced goes back to what the file has of it, and only a page never used before reads as what the buffer held |
| Paging.PutOutOk | Applications/BCPL/icint.c:199-219 | writing the victim out changes no address, whether read now or once its page has been replaced |
| Paging.PokeOk | Applications/BCPL/icint.c:237-259 | a store changes one address; it is kept, with all of its page, if it makes the page dirty, and kept alone on a page that is firm |
| Paging.Pager.constructor | Applications/BCPL/icint.c:580-604 | with the page file written full of zeros, no page used and no buffer assigned the invariant holds |
| Paging.Pager.Oldest | Applications/BCPL/icint.c:197-206 | the victim is a buffer whose page was translated longest ago |
| Paging.Pager.PageIn | Applications/BCPL/icint.c:148-233 | the page always comes into memory, reading as it did before; only a page replaced for it changes, to what is kept of it; that is none while a buffer is unassigned, otherwise the first clean page, otherwise the page whose last access came first |
| Paging.Pager.WrM | Applications/BCPL/icint.c:237-247 | the address holds the new value, all of its page is kept from now on, and no other address changes but on a page replaced |
| Paging.Pager.RdM | Applications/BCPL/icint.c:262-271 | gives what the address holds, and changes nothing but a page replaced |
| Paging.Pager.Add2M | Applications/BCPL/icint.c:250-259 | the address holds the sum, which is kept if and only if the page is firm, in memory and to be written out before it is replaced |
| Paging.Run | Applications/BCPL/icint.c:147-271 | any run of reads, writes and sums, with any number of buffers, none of whose pages are 32 apart, reads like a flat array in which a page replaced goes back to what is kept of it; a read finds what was last written, or what the read before found if nothing was stored there |
| Paging.Below32K | Applications/BCPL/icint.c:185-186 | addresses below 32K have no two pages 32 apart |
| Paging.PlainArray | Applications/BCPL/icint.c:237-271 | a run whose sums only find firm pages is a run on a plain array |
| Paging.LastWritten | Applications/BCPL/icint.c:237-271 | an address reads as last written, whatever add2M did elsewhere and whatever was replaced |
| Paging.FirmExactly | Applications/BCPL/icint.c:172-247 | a page is firm if and only if, since it was last replaced, it was written to or came in for the first time over another page |
| Paging.SumFate | Applications/BCPL/icint.c:250-259 | a sum that is not kept is lost if and only if its page is replaced before it is written to |
| Paging.SumIsLost | Applications/BCPL/icint.c:250-259 | with one buffer, 5 is written and paged out, 1 is added and 6 read, and after another replacement 5 is read |
| Peephole.SubstExtends | Applications/SmallC/copt.c:439-546 | bindings left by failed tries cannot change a pattern whose variables are bound |
| Peephole.LiteralMatch | Applications/SmallC/copt.c:439-546 | a pattern of literals matches its own text and no other |
| Peephole.BetweenMatch | Applications/SmallC/copt.c:439-546 | a fresh variable between literals matches if and only if the line starts with the one, ends with the other and is longer than the first; it gets the text between |
| Peephole.MatchIsGlob | Applications/SmallC/copt.c:439-546 | a line that matches is the pattern with some texts for its variables |
| Peephole.GlobMatches | Applications/SmallC/copt.c:439-546 | where no variable occurs twice and those bound have the shortest texts, such a line matches, and the others get the shortest texts |
| Peephole.MatchExactly | Applications/SmallC/copt.c:439-546 | with fresh variables, none twice, a line matches if and only if it is such a text |
| Peephole.LiteralRule | Applications/SmallC/copt.c:682-705 | a rule of literal lines is found if and only if those lines stand there |
| Peephole.FittingFound | Applications/SmallC/copt.c:682-705 | a rule is found wherever each line is of its pattern's kind and the shortest texts agree from line to line |
| Peephole.Optimizer.Match | Applications/SmallC/copt.c:439-546 | answers as the leftmost split of the line by the pattern does, and leaves its variables; a match means that substituting them in the pattern gives the line; bindings are never undone |
| Peephole.Optimizer.SubstLine | Applications/SmallC/copt.c:555-669 | the substituted line, refused if and only if it would reach the buffer's end |
| Peephole.Optimizer.MatchRule | Applications/SmallC/copt.c:682-705 | finds the rule's lines if and only if they are there; the lines found in order are the patterns' instance under one table, everything else passed is a comment, and the lines passed mean what the instance means |
| Peephole.Optimizer.OptLine | Applications/SmallC/copt.c:676-760 | replaces if and only if some rule's lines are found, taking the first such rule, and exits if and only if a new line does not fit the buffer; the new lines stand for the old ones and the rest stays, so any compositional meaning the rules preserve is preserved |
| Peephole.Optimizer.Optimize | Applications/SmallC/copt.c:767-792 | each turn of the pass passes over a comment or assembler line, replaces at its line or goes on to the next; the pass stops early only at the end of the list or at a line too long; every reachable list means what the input meant |
| FlatMemory.MergeSorted | Kernel/flat_mem.c:171-203 | merging two address-ordered lists of different blocks is address-ordered |
| FlatMemory.MergeElements | Kernel/flat_mem.c:171-203 | merging keeps exactly the blocks of both |
| FlatMemory.CutOut | Kernel/flat_mem.c:162-169 | the list without the segment is linked both ways, and the segment hangs together |
| FlatMemory.LinkRun | Kernel/flat_mem.c:182-199 | a run put between two blocks leaves the list linked both ways and the rest of the segment intact |
| FlatMemory.Memory.MergeIn | Kernel/flat_mem.c:171-203 | the loop ends, cannot hit its panic, and merges even when segment and list interleave; other nodes are untouched |
| FlatMemory.Memory.MoveBlks | Kernel/flat_mem.c:138-204 | exactly the segment moves, both lists stay in address order with inverse links, home follows, gaps go, and freemem moves with the free list |
| FlatMemory.MapAccount | Kernel/flat_mem.c:81-107 | the blocks counted and the blocks listed agree if and only if nothing of the space is left over |
| FlatMemory.Memory.constructor | Kernel/flat_mem.c:81-107 | all blocks are on the free list in address order; freemem accounts for them if and only if the space divides evenly |
| FlatMemory.Memory.ListLen | Kernel/flat_mem.c:125-133 | the length of the list, and the walk ends |
| FlatMemory.Memory.VmmuFree | Kernel/flat_mem.c:410-416 | all blocks of a process are merged back and its list is empty |
| RunLength.RoundTrip | Kernel/single.c:119-221 | decoding what was encoded gives back every input, runs of the escape byte included, whatever stands behind the frame |
| RunLength.StartsTooHigh | Kernel/single.c:223-235 | from one byte above the frame, unpack gets the data back, neither stopping short nor running over, if and only if that byte and the data are as Restores says; if it leaves the frame the data are already wrong |
| RunLength.LastOfRun | Kernel/single.c:119-171 | a program of one byte throughout ends in a run record unless its length modulo 255 is 1 to 4 |
| RunLength.StrayByte | Kernel/single.c:223-235 | a 0 above the frame of 1, 2 spoils it, and bytes with which the data survive |
| RunLength.FitsExactly | Kernel/single.c:138-171 | packing is not refused if and only if six bytes are left where the last record starts |
| RunLength.TwiceFits | Kernel/single.c:138-171 | room for twice the data and five bytes more is always enough |
| RunLength.RoomAtStart | Kernel/single.c:147-150 | at the start of a frame the 16-bit test tells whether six bytes are free if and only if ramtop is not u_top |
| RunLength.Machine.Count | Kernel/single.c:119-136 | the run is maximal up to 255 and inside the data |
| RunLength.Machine.SwapOut | Kernel/single.c:138-185 | refused if and only if some record does not find six bytes, and then nothing outside the free space changes; otherwise the frame is the encoding of the data and its trailer leads back to the old ramtop; it stays at or above u_top if and only if ramtop was above it and there was something to pack or four bytes of room |
| RunLength.Machine.Unpack | Kernel/single.c:187-221 | places exactly what the bytes decode to and touches nothing else; stops at an end marker or a run that goes too far |
| RunLength.Machine.OutAndIn | Kernel/single.c:138-221 | a program is packed if and only if it fits, and overwritten and unpacked from the encoder's first byte it is back as it was |
| RunLength.Machine.SwapIn | Kernel/single.c:223-235 | do_swap_in gets a frame's data back if and only if Restores says so of the data and the byte at the old ramtop |
| RunLength.Machine.OutAndSwapIn | Kernel/single.c:138-235 | after packing, overwriting and do_swap_in the program is back if and only if Restores says so of it and the byte at ramtop |
| Banks.MapsFit | Kernel/bank16k.c:64-73 | the banks hold program and common area if and only if the program ends by PROGTOP, and then they are just enough |
| Banks.MapsWrap | Kernel/bank16k.c:64-73 | above PROGTOP the banks are those of the excess alone |
| Banks.RoomToFree | Kernel/bank16k.c:50-62 | freeing a process's pages cannot overflow the stack |
| Banks.FreePages | Kernel/bank16k.c:50-62 | each page of the process is free once and no other page changes hands |
| Banks.TakePages | Kernel/bank16k.c:100-109 | the popped pages become one map with its last page repeated, and every page still has one owner |
| Banks.TakeSlot | Kernel/swap.c:35-43 | the slot goes from free to one swapped process |
| Banks.ReturnSlot | Kernel/swap.c:27-33 | a slot that was read back is free once, and the table has room for it |
| Banks.ChunkIs | Kernel/bank16k.c:245-260 | each of the four chunks is a stretch of the process's address space as its map shows it |
| Banks.ChunkRead | Kernel/bank16k.c:290-303 | reading a chunk into a bank shared with earlier chunks leaves those right |
| Victims.VictimIs | Kernel/swap.c:88-142 | somebody is picked if and only if there is a candidate; a waiting process goes before a ready one and the longest wait goes first |
| Victims.EnoughExactly | Kernel/bank16k.c:89-93 | with a slot for every candidate there is room if and only if the free pages and the candidates' pages suffice; with fewer slots they must suffice, and a page for each usable slot is enough |
| Victims.EnoughAtOnce | Kernel/bank16k.c:89-93 | the pages at hand make room by themselves, and without a slot or anybody in memory nothing else does |
| Swapping.WroteOutOk | Kernel/bank16k.c:228-270 | swapping out moves the contents to a slot where every process, this one included, still has its memory |
| Swapping.System.PagemapAdd | Kernel/bank16k.c:40-45 | one more page, free once |
| Swapping.System.PagemapFree | Kernel/bank16k.c:50-62 | each page of a map is pushed once although the last is repeated, if and only if the first page is not 0xff, which is lost |
| Swapping.System.SwapmapAlloc | Kernel/swap.c:35-43 | the top free slot, or 0 if and only if there is none |
| Swapping.System.Exit | Kernel/bank16k.c:50-62 | all pages of a process that ends are free again and no other process can tell |
| Swapping.System.SwapmapInit | Kernel/swap.c:45-51 | one more slot, free once |
| Swapping.System.WriteChunks | Kernel/bank16k.c:245-260 | the four chunks fill exactly the slot with the address space |
| Swapping.System.SwapOut | Kernel/bank16k.c:228-270 | fails if and only if no slot is free and then changes nothing; otherwise all the process's pages are free, one slot is used and no process can tell |
| Swapping.System.SwapVictim | Kernel/swap.c:88-142 | the loop over all processes from getproc_nextp finds the victim that VictimIs describes |
| Swapping.System.SwapNeeded | Kernel/swap.c:144-151 | the victim's pages are gained, unless there is no victim or no slot, and no process can tell |
| Swapping.System.PagemapAlloc | Kernel/bank16k.c:82-111 | fails if and only if neither the free pages nor the victims that have slots make room; otherwise the process has the banks its size needs; failure or not no other process can tell |
| Swapping.System.PagemapRealloc | Kernel/bank16k.c:122-172 | the map gets the new number of pages with the common page on top and the low banks of both sizes in place with their contents, pages are conserved, and it fails, changing nothing, if and only if too few are free |
| Swapping.System.SwapIn | Kernel/bank16k.c:277-309 | the process's address space becomes the slot's contents and no other process can tell |
| Swapping.System.Swapper | Kernel/swap.c:153-178 | a process swapped in finds its memory as it left it and its slot is free; it fails if and only if no room can be made, and then the slot is free while it still holds the process |
| SwapRuns.Run | Kernel/bank16k.c:40-309 | after every operation of any run of starts, ends, resizes, swap-outs and swap-ins each page and slot has one place, each operation succeeds exactly when it should and does exactly its step, and no other process can tell; the run ends early exactly at a swap-in without room, and then the next swap-out would take the slot the process is still in |
| SwapRuns.SlotLost | Kernel/swap.c:153-178 | with one page, one slot and two processes, after a start, a swap-out and another start the first process cannot come back, and the slot it is in is then the next one to be used |
| SwapRuns.Overwritten | Kernel/bank16k.c:228-270 | the next process swapped out is then written over the one in the slot |
| SwapRuns.LeftAlone | Kernel/bank16k.c:40-309 | a process that nobody starts, ends or resizes finds its memory as it was after any part of a run |

## Left out

- Devices, interrupts, copying between kernel and user memory, context switches, scheduling and signals.
- I/O errors, the "corrupt superblock" exits, byte swapping of foreign images, and time stamps.
- The byte layout of the superblock: mounting starts from its fields.
- `freeblk` for external buffers, the direct-to-user path of `readi`, and the select map kept in spare inode slots.
- The inode cache (`i_open`, `i_deref`, `wr_inode`) and path walking (`kn_open`): the inode table is one value.
- BufferCache.Cache.FreeBuf: ages are 16-bit numbers, as with a 16-bit `int`. With a wider `int` the source subtracts without wrapping, and after `bufclock` wraps it can pass over a free buffer.
- BufferCache.Cache.BFree: the caller promises that a buffer given back as unchanged is unchanged, as `brelse` does; `bufdiscard` only affects age and is not modelled.
- BufferCache.Cache.BDrop: a device with a buffer in use, which the source forgets all the same.
- Files.Readi: a file whose size a write past the limit has left above 2^25, where block numbers wrap.
- FreeList.Store.BlkFree: freeing a block that is already free is excluded, since the source does not detect it and panics only outside the data area.
- Volumes.Run: which inode numbers are given out, link counts, permissions and open files, which decide when `newfile`, `i_deref` and the others are called; pipes and devices; files past the size limit are only known to be that, until they are truncated or removed.
- Volumes.DirectoryIsMap: links of names in use, which the callers of `ch_link` look up first.
- Fsck.Pass1: the question about the free inode count s_tinode; pipes, repairs, link counts, directories and the later passes; images with damage.
- Fsck.EndsExactly: machines with a 16-bit `int`, where the bound of the inode loop wraps as well.
- Directories.SrchDir: an empty component, which in the source matches an unused entry, and a directory with a hole, where the source reads a block that is not there.
- Directories.LinkIsUpdate: a new name that is in use already, which breaks uniqueness as Directories.LinkTwice says.
- Small C lexing, statements, `?:`, calls, unsigned and char variables, `++` and `--`, pointers, arrays and structures.
- SmallCCompiler.Compiler.HierN: recovery after a syntax error; the input is a well-formed expression and a missing lvalue stops the compilation. The functions hier1b to hier9 are one method, since they differ only in operators and callee.
- SmallCCompiler.Compile: the library routines are taken as one step each with the values that 8080/crun.asm computes, not instruction by instruction. A quotient by zero is taken as 0 on both sides, where the routine leaves what its loop happens to leave. The eight bytes asked for calls are what a division takes, and two bytes are asked for every operand even where none is pushed; most expressions need fewer. The 8085 branches of the back end (`uflag`) and interrupts, which also use the stack, are not modelled.
- Machine8080.RunAppend: the flags and the accumulator apart from what a test of HL needs.
- `copt` patterns `%%`, `%*`, `%[...]`, `%!`, `%(...)`, `%{...}` and `%=`; the string table; whether `optimize` ends, which depends on the rules. Its linked list is a sequence here, and freed lines are not tracked beyond the comparison noted above.
- Linker.Linker.Assemble: reading the text of INTCODE, and sections with unset, doubly set or out-of-range labels or with a global cell filled twice.
- Intcode.GetPutByte: values of 256 and more, which in the source spill into the other half.
- Accesses.PagedAlike: a `G` item between the two characters of a word, after which the second is added on a page that may have been replaced; programs above the 15000 words of `iclink`.
- Paging.Run: two pages 32 apart, which `Paging.Clash` shows to fail; addresses above 63K, which the tables do not cover; wrap-around of the time stamps; the interpreter proper.
- FlatMemory.Memory.MoveBlks: one list as both source and destination.
- `vmmu_alloc`, `vmmu_setcontext` and `vmmu_dup`; virtual addresses of blocks; overlapping of the map with data noted above.
- RunLength.Machine.SwapOut: wrap-around of the address below 4, which only a frame of no bytes at `ramtop` under 4 could reach; begun with `ramtop` at `u_top`, data that the frame would overwrite and frames that reach address 0.
- RunLength.Machine.Unpack: what the source does after "short swap" and after a run that goes too far, where it only prints and runs on; the message "long swap".
- Swapping.System.PagemapAlloc: a common page passed in (`get_common`, `swap_finish`). What the scheduler keeps (statuses, wait numbers, where it looks next) is an input, the same for all victims of one call.
- Swapping.System.PagemapAdd: page 0xff, which `pagemap_free` would lose, and page 0.
- Swapping.System.PagemapRealloc: the copy of the map in the u-area and the interrupt vectors.
- The other allocators and page-map managers, file locks, networking, terminals, fonts, sound and the stand-alone copy of the file system in `ucp.c`.
