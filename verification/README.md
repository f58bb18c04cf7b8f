# Algorithms of V7 Research UNIX, modelled and proved in Dafny

The commands and libraries of this system hold a number of self-contained algorithms that work on arrays, disk blocks
and pages through pointers and global variables. Each is modelled here in a module of its own, with the loops, branches,
constants and error cases of the program, and proved to do what it is for. Pointers are indices; files are sequences of
lines, bytes, blocks or pages; integers are unbounded except where the width of the machine matters (16-bit `int` and
31-bit products in libmp, the 16-bit break and sizes in the allocator), and there the wrap is written out.

| modules | program | main result |
|---|---|---|
| Lcs, DiffLines, DiffStone, DiffScript, DiffCheck, DiffLeast, Diff | diff | the script of hunks makes the new file from the old one, and no script is shorter |
| MpDigits to MpText | libmp | arithmetic on numbers in base 2^15, to roots, inverses, powers and text |
| RestorFree, RestorTree, RestorKeep, Restor | restor | no block is lost or used twice in the free chain, the files and the block cache |
| Freelist, BlockTable, BlockCount | mkfs, icheck, mkfs.py | the interleaved free list, and the block tables of files |
| DbmPage, DbmPairs, DbmTrie, Dbm, DbmWalk | libdbm | pages and directory are a finite map; a walk visits every key once |
| Dballoc | the allocator of libI77 | first fit over live blocks that are disjoint and keep their contents |
| GrepMatch, Grep, GrepSyntax, GrepParse, GrepSpell, GrepCompile | grep | every pattern is read as it is spelled, and the lines selected are those of its language |
| Crypt | crypt, ed | the rotor machine is its own inverse |
| EdStore | ed | the line store gives back every line |
| SortQuick, SortMerge, SortNumber | sort | quicksort, merge and numeric keys |
| Join, Tsort | join, tsort | the merge join is the nested loops; the order respects the edges |
| Ld, Dump, Look | ld, dump, look | the library members loaded, with roll-back; the directories to dump; the lines with a prefix |

Arithmetic and Wrappers hold what several of them share. `dafny verify dfyconfig.toml` checks all of it.

## Findings

Where a program does not do what it is for, the condition is proved to be exact (the members before the semicolon), and
an input is given (those after it).

- `msub` (usr/src/libmp/madd.c:109-146) gives b - a for a negative and b not positive: `Mp.Msub`; `Mp.SubtractNothing`.
- `mcmp` (usr/src/libmp/util.c:79-88) orders two negative numbers of one length the wrong way: `Mp.Mcmp`;
  `Mp.CompareNegatives`.
- `mdiv` (usr/src/libmp/mdiv.c:2-20) gives the remainder the wrong sign for a negative divisor that does not divide:
  `Mp.Mdiv`; `Mp.DivideByNegative`.
- `mult` (usr/src/libmp/mult.c:2-33) by zero leaves leading zeros, so the product is not canonical: `Mp.Mult`;
  `Mp.MultiplyNothing`.
- `pow` (usr/src/libmp/pow.c:2-24) gives the remainder of the power that truncates and not the least residue, so it is
  wrong where the power is negative and the modulus does not divide it; nor does it reduce modulo 1 when the exponent
  has no digits: `MpPower.PowMod`; `MpPower.PowerOfNegative`, `MpPower.PowerOfNothing`.
- `rpow` (usr/src/libmp/pow.c:25-40) takes the length of a negative base for the length of the result: the modulus is
  too small for powers of a certain size, and from a certain exponent on it is written in front of its block:
  `MpRoot.Rpow`; `MpRoot.PowerReduced`, `MpRoot.PowerOutside`.
- `store` (usr/src/libdbm/dbm.c:85-145) splits without end when the entry does not fit on one page with the others of
  its hash, in particular for every entry of 506 or 507 bytes: `Dbm.Database.StoreWithin`, `Dbm.SettlesIfFitting`,
  `Dbm.FittingIfSettles`; `Dbm.NeverFits`, `Dbm.TwinTooBig`, `Dbm.StoreEndless`.
- A `store` refused for its size deletes an old pair of the key from the cached page but not from the file:
  `Dbm.Database.Store`; `Dbm.StoreRefused`.
- `malloc` (usr/src/libI77/dballoc.c:47-105) that fails, because no idle blocks side by side have room and the memory
  ends, leaves the search pointer inside an idle block exactly when the block where the search began was idle after an
  idle one; the same words can then be given out twice: `Dballoc.Arena.Malloc`, `Dballoc.Astray`; `Dballoc.StrayRun`,
  `Dballoc.GivenTwice`.
- `malloc` that finds no room trusts a break that has wrapped past 16 bits: `Dballoc.Arena.Malloc`,
  `Dballoc.GrowthRoom`; `Dballoc.LargeRequest`, `Dballoc.LostRun`. A size above 65532 wraps, for 65533, 65534 and 65535
  bytes: `Dballoc.BigEnough`.
- `bflist` (usr/src/cmd/mkfs.c:494-548) and `makefree` (usr/src/cmd/icheck.c:419-469) leave out the last block of the
  volume when its number is a multiple of n; mkfs.py does not: `Freelist.Listing`, `Freelist.MakeFree`;
  `Freelist.LastBlockMissing`.
- `compile` of grep (usr/src/cmd/grep.c:145-260) writes one byte past its buffer exactly where a character, a
  parenthesis or a back-reference begins at the last byte: `GrepCompile.Compile`; `GrepCompile.OnePast`.
- It reads past the end of a pattern that ends in an escape or inside of a range, unless its buffer is full before:
  `GrepCompile.Compile`; `GrepCompile.PastItsEnd`.
- `load1` of ld (usr/src/cmd/ld.c:534-598) resets the symbol table after a library member that is not loaded, but keeps
  the sizes of common symbols exactly where the member asks for more: `Ld.LoadMember`; `Ld.SizeOfUnloaded`.

## Model

| member | source | states |
|---|---|---|
| Diff.DiffFiles | usr/src/cmd/diff.c:289-356 | the script printed turns the old file into the new one, applied forwards or, with -e, backwards; between two hunks a line of either file is left alone; the status is 0 exactly for equal files; and when the hash tells lines apart no script that makes the new file, as a patch or in the editor, removes and adds fewer lines |
| DiffStone.Chooser.Stone | usr/src/cmd/diff.c:358-397 | the number of candidates is the length of a longest common subsequence of the two value sequences, and each candidate heads a chain of that many matches |
| DiffStone.Chooser.Row | usr/src/cmd/diff.c:368-393 | one line of the old file: the candidates become, for every length, the ones that end earliest in the new file, in spite of the matches being taken in ascending order |
| DiffStone.Chooser.Search | usr/src/cmd/diff.c:410-429 | binary search finds the first candidate that does not end before y |
| DiffStone.Chooser.NewCand | usr/src/cmd/diff.c:399-408 | a candidate is added at the end and all others stay |
| Lcs.Bounds | usr/src/cmd/diff.c:358-397 | no common subsequence is longer than the length of the recursive definition |
| Lcs.Achieved | usr/src/cmd/diff.c:358-397 | and some common subsequence is as long |
| Diff.Prune | usr/src/cmd/diff.c:244-259 | the two ends that agree, not overlapping, and all of the file when both are equal |
| Diff.PruneOptimal | usr/src/cmd/diff.c:244-259 | cutting equal ends costs no match: the longest subsequence of the whole is the ends and the longest of the middles |
| Diff.Unravel | usr/src/cmd/diff.c:431-441 | the match vector is increasing, pairs equal values and has as many matches as the chain and the ends |
| Diff.MatchVector | usr/src/cmd/diff.c:327-347 | prune to unravel: the match vector is a longest one of the unpruned value sequences |
| DiffLines.Sort | usr/src/cmd/diff.c:145-175 | the shell sort orders by value and serial and permutes the lines |
| DiffLines.Equiv | usr/src/cmd/diff.c:261-287 | every old line gets the index of its class or 0, and the classes overlaid on the sorted new lines list their serials, each class opened by a negative one |
| DiffLines.Classify | usr/src/cmd/diff.c:265-275 | the merge of both sorted lists finds for every old line the class of its value |
| DiffLines.SqueezeClass | usr/src/cmd/diff.c:276-286 | one class is written over the part of the array that has been read |
| DiffLines.Unsort | usr/src/cmd/diff.c:177-189 | class indices return to the places of their lines |
| DiffCheck.Check | usr/src/cmd/diff.c:448-510 | exactly the matches of unequal lines are dropped, and the offsets of all lines are found |
| DiffScript.Forward | usr/src/cmd/diff.c:519-548 | the hunks in ascending order take out exactly the lines without a match and never touch, the lines between them being matched one by one; as patch they make the new file |
| DiffScript.Backward | usr/src/cmd/diff.c:536-547 | so the hunks in descending order, which make the new file when each is applied to the whole file in turn |
| DiffScript.PatchCorrect | usr/src/cmd/diff.c:519-548 | any ascending script that keeps equal stretches between its hunks makes the new file |
| DiffScript.EditCorrect | usr/src/cmd/diff.c:536-547 | any descending one does so when edited in place |
| DiffScript.Change | usr/src/cmd/diff.c:551-570 | an empty change is no hunk, any other one is |
| Diff.FaithfulMatches | usr/src/cmd/diff.c:448-510 | with a hash that tells lines apart no match is dropped |
| DiffLeast.NoCheaper | usr/src/cmd/diff.c:519-570 | every script, however made, that turns the one file into the other removes and adds at least what a longest common subsequence leaves over |
| DiffLeast.PatchShares | usr/src/cmd/diff.c:519-548 | what an ascending script does not remove the two files have in common |
| DiffLeast.EditShares | usr/src/cmd/diff.c:536-547 | so for an editor script, whose hunks may overlap |
| MpAdd.MAdd | usr/src/libmp/madd.c:2-36 | digit sums with carries: the value is the sum, in canonical form for canonical arguments |
| MpAdd.MSub | usr/src/libmp/madd.c:69-108 | the difference with its sign, the digits complemented after a final borrow |
| Mp.Madd | usr/src/libmp/madd.c:37-68 | the sum of signed numbers |
| Mp.Msub | usr/src/libmp/madd.c:109-146 | the difference exactly unless a is negative, b is not positive and the two differ; then its negative |
| Mp.SubtractNothing | usr/src/libmp/madd.c:130-138 | -1 less 0 is 1 |
| MpMult.MMult | usr/src/libmp/mult.c:34-78 | column by column the digits are those of the product |
| MpMult.Column | usr/src/libmp/mult.c:42-47 | a column sum is held exactly by the 31-bit sum and its carry |
| MpMult.Emit | usr/src/libmp/mult.c:31-33 | a digit is split off and the rest of sum and carry moves down fifteen bits |
| MpMult.Tradd | usr/src/libmp/mult.c:79-87 | a product is added and the overflow counted |
| MpMult.ConvIsProduct | usr/src/libmp/mult.c:34-78 | the weighted column sums are the product of the two values |
| Mp.Mult | usr/src/libmp/mult.c:2-33 | the signed product; canonical except when one argument is 0 and the other has more than one digit |
| Mp.MultiplyNothing | usr/src/libmp/mult.c:2-33 | 0 times a number of two digits has length 1 |
| MpDiv.MTrq | usr/src/libmp/mdiv.c:43-53 | the trial digit is the quotient of the three top digits by the two of the divisor |
| MpDiv.TrialDigit | usr/src/libmp/mdiv.c:43-53 | it is the true digit or one more |
| MpDiv.MDsb | usr/src/libmp/mdiv.c:21-42 | the multiple is subtracted; exactly when it was one too many the divisor is added back |
| MpLong.DivideStep | usr/src/libmp/mdiv.c:86-95 | one quotient digit: a remainder below the divisor becomes the next such remainder |
| MpLong.MDiv | usr/src/libmp/mdiv.c:55-105 | a = q * b + r with r below b, in canonical form |
| Mp.Mdiv | usr/src/libmp/mdiv.c:2-20 | magnitudes divide exactly; the signed identity holds if and only if b is positive or divides a |
| Mp.DivideByNegative | usr/src/libmp/mdiv.c:15-18 | 7 by -2 gives -3 and -1 |
| MpDiv.SDivide | usr/src/libmp/mout.c:99-118 | division by one digit, quotient and remainder |
| Mp.Sdiv | usr/src/libmp/mout.c:78-98 | the signed form of it |
| Mp.Mcmp | usr/src/libmp/util.c:79-88 | zero exactly for equal numbers; orders them exactly unless both are negative, of one length and unequal |
| Mp.CompareNegatives | usr/src/libmp/util.c:79-88 | -1 compares as less than -2 |
| Mp.Mcan | usr/src/libmp/util.c:46-58 | leading zeros dropped, the value kept |
| MpNumber.Gcd | usr/src/libmp/gcd.c:2-18 | the result divides both numbers and every common divisor divides it |
| MpNumber.InvertRound | usr/src/libmp/gcd.c:29-36 | a round of invert keeps the two congruences with alternating signs and their determinant |
| MpNumber.Invert | usr/src/libmp/gcd.c:19-46 | for coprime a below b the result c is between 0 and b and a * c is 1 modulo b |
| MpPower.PowMod | usr/src/libmp/pow.c:2-24 | for bases and moduli of any sign: congruent to the power, and the remainder of it that truncates unless c is 1 or -1 and b has no digit; for c positive, equal to the least residue if and only if c > 1 or b has a digit, and the power is not negative or c divides it |
| MpPower.PowDigit | usr/src/libmp/pow.c:11-19 | fifteen squarings and the multiplications for the bits of one digit |
| MpPower.PowerOfNegative | usr/src/libmp/pow.c:2-24 | -2 to the 1 modulo 5 is -2 |
| MpPower.PowerOfNothing | usr/src/libmp/pow.c:2-24 | with no digits in b and c = 1 the result is not 0 |
| MpRoot.Msqrt | usr/src/libmp/msqrt.c:2-37 | the integer square root and what it leaves |
| MpRoot.Start | usr/src/libmp/msqrt.c:12-17 | the first approximation is above the root |
| MpRoot.Approximate | usr/src/libmp/msqrt.c:20-30 | a step goes down and not below the root, or the root is reached |
| MpRoot.Rpow | usr/src/libmp/pow.c:25-40 | for bases of any sign: the modulus is put outside its block if and only if n times the signed length is at most -4; otherwise the result is the power if and only if that is below the modulus, as it is for every base that is not negative |
| MpRoot.PowerOutside | usr/src/libmp/pow.c:31-34 | the 4th power of -2 writes outside |
| MpRoot.PowerReduced | usr/src/libmp/pow.c:25-40 | the square of -32767 comes out reduced |
| MpText.MOut | usr/src/libmp/mout.c:43-77 | what is written is the sign and groups of ten digits from the right with a space between two and no zero in front, reads back as the number, and takes seven characters a digit |
| MpText.MIn | usr/src/libmp/mout.c:3-42 | the text is digits, spaces, minus signs and escaped characters up to another character or the end of the file, and the number is that of the digits, with a sign turned by every minus sign but not put at the end of the file |
| MpText.ScanIs | usr/src/libmp/mout.c:17-41 | so for every way to write a number |
| MpText.RoundTrip | usr/src/libmp/mout.c:3-77 | written and read again, a number is itself |
| MpText.RoomLeft | usr/src/libmp/mout.c:62-71 | while anything is left to write there is room for a digit and a space |
| Restor.Volume.RestoreAndTruncate | usr/src/cmd/restor.c:446-494 | a file restored from tape and truncated leaves the free blocks as they were; it can be restored when there are four free blocks for each of the tape |
| Restor.Volume.RestoreFile | usr/src/cmd/restor.c:446-494 | data reads back as on tape, holes are holes, the blocks used have come off the free list, no other block changes |
| Restor.Volume.BMap | usr/src/cmd/restor.c:910-970 | the block of a logical number, made with its indirect blocks; every other number keeps its block; failing only for want of blocks |
| Restor.Volume.MapDown | usr/src/cmd/restor.c:954-969 | through the levels: at most one new block a level |
| Restor.FindLevel | usr/src/cmd/restor.c:933-945 | the levels tried find the place of a logical number |
| Restor.Volume.ITrunc | usr/src/cmd/restor.c:793-827 | every block of a file or directory becomes free, once; other inodes keep theirs |
| Restor.Volume.TLoop | usr/src/cmd/restor.c:829-851 | all blocks under an indirect block become free, and the block itself |
| Restor.Volume.BFree | usr/src/cmd/restor.c:853-874 | the block joins the free set and is the next to come off, a full list going into it |
| Restor.Volume.BAlloc | usr/src/cmd/restor.c:876-904 | the block freed last of all that are free, as a block of zeros, unless none is |
| Restor.Volume.DWrite | usr/src/cmd/restor.c:712-736 | the disk changes and the cache with it |
| Restor.Volume.DRead | usr/src/cmd/restor.c:738-777 | the block as on disk, whatever the cache held |
| Restor.SearchCache | usr/src/cmd/restor.c:743-759 | the slot of the block, or the one that has been unused longest; only ages change |
| Restor.UpdateCache | usr/src/cmd/restor.c:717-729 | a cached copy is replaced |
| Restor.Volume.RstrFile | usr/src/cmd/restor.c:1061-1070 | one block from tape becomes a logical block, all others undisturbed |
| Restor.Volume.constructor | usr/src/cmd/restor.c:853-874 | a volume with nothing free satisfies the invariant |
| RestorFree.PopLink | usr/src/cmd/restor.c:894-901 | the link block taken, the list in it is the free list, nothing free twice |
| RestorFree.PushLink | usr/src/cmd/restor.c:862-869 | a full list put into the block freed |
| RestorFree.OrderHolds | usr/src/cmd/restor.c:853-904 | the blocks in the order in which they come off are those of the chain |
| RestorTree.GraftTree | usr/src/cmd/restor.c:961-966 | an empty address filled in: the tree has one block more |
| RestorTree.GraftWalk | usr/src/cmd/restor.c:961-966 | and only the ways that turn there lead elsewhere |
| RestorTree.LookupApart | usr/src/cmd/restor.c:910-970 | different logical numbers never have one block, nor a block of another level |
| RestorTree.AgreeEqual | usr/src/cmd/restor.c:957-961 | the turns at all levels determine the logical number |
| RestorKeep.PlantKeeps | usr/src/cmd/restor.c:950-952 | a new block under an address of the inode keeps every other mapping |
| RestorKeep.LinkKeeps | usr/src/cmd/restor.c:961-966 | so does one under an indirect block |
| Freelist.Interleave | usr/src/cmd/mkfs.c:504-513 | the table is 1 to n, each entry the first slot free from m slots behind the last one |
| Freelist.LastCylinder | tools/mkfs.py:141-145 | the end of the last cylinder is past the volume if and only if fsize - 1 is no multiple of n, or the list goes onward |
| Freelist.Listing | tools/mkfs.py:129-152 | each block from isize to fsize once, cylinder after cylinder from the end and in the order of the table within one; without going onward the last one is missing exactly when fsize - 1 is a multiple of n |
| Freelist.LastBlockMissing | usr/src/cmd/mkfs.c:494-548 | of 4 blocks, 3 to a cylinder, block 3 is not listed |
| Freelist.MakeFree | usr/src/cmd/icheck.c:419-469 | a free chain of exactly the unused blocks, but for that one, from which they come off in the order opposite to the list |
| BlockTable.SetupForSize | tools/mkfs.py:376-393 | block number i of the file is the one its addresses lead to, in order, no block used twice; it fails if and only if the file is too big or there are fewer free blocks than data and indirect blocks take |
| BlockCount.FileNeed | tools/mkfs.py:318-393 | that is the data blocks and, for each indirect address, one block for every 128 of the level below, rounded up |
| BlockTable.AllocTree | tools/mkfs.py:335-374 | an indirect block and all under it, taking exactly the blocks needed |
| BlockTable.AllocKids | tools/mkfs.py:327-374 | addresses filled one after the other as long as there are blocks to place |
| BlockTable.BlockLeads | usr/src/cmd/restor.c:957-961 | the division by powers finds what was filled in counting up |
| Dbm.Database.Store | usr/src/libdbm/dbm.c:85-145 | the pair is in the map; an entry refused for its size leaves the files as they were, and the cached page wrong exactly if the key was there |
| Dbm.Database.StoreWithin | usr/src/libdbm/dbm.c:92-144 | store ends if and only if the entry fits with all others of its hash: otherwise however many rounds are made all of them are splits |
| Dbm.Database.StorePass | usr/src/libdbm/dbm.c:92-144 | one round: stored exactly if the page has room, refused or split |
| Dbm.SettlesIfFitting | usr/src/libdbm/dbm.c:92-144 | an entry that fits with the others of its hash has room at some depth |
| Dbm.FittingIfSettles | usr/src/libdbm/dbm.c:92-144 | and only then |
| Dbm.NeverFits | usr/src/libdbm/dbm.c:104-116 | 506 and 507 bytes pass the size test and fit nowhere |
| Dbm.TwinTooBig | usr/src/libdbm/dbm.c:104-116 | two entries of one hash and more than 501 bytes fit nowhere together |
| Dbm.StoreEndless | usr/src/libdbm/dbm.c:92-144 | a key of 506 bytes in an empty data base: every round is a split |
| Dbm.StoreRefused | usr/src/libdbm/dbm.c:93-119 | an entry of 508 bytes refused for a key that is there leaves the page in memory without it |
| Dbm.Database.Fetch | usr/src/libdbm/dbm.c:43-61 | the value in the map, or none |
| Dbm.Database.Delete | usr/src/libdbm/dbm.c:63-83 | the key leaves the map; 0 exactly if it was there |
| Dbm.Database.SplitHere | usr/src/libdbm/dbm.c:115-144 | the pairs whose next hash bit is 1 go to the new page, the directory gets a bit, the map only loses the key being stored |
| Dbm.Database.Access | usr/src/libdbm/dbm.c:209-227 | the page of a hash is in the buffer |
| Dbm.Database.GetBit | usr/src/libdbm/dbm.c:229-250 | a bit of the directory, through its one-block cache |
| Dbm.Database.SetBit | usr/src/libdbm/dbm.c:252-268 | a bit is set on disk and in the cache |
| DbmTrie.SplitKeeps | usr/src/libdbm/dbm.c:120-144 | splitting a page by the next bit keeps every pair on the page of its hash |
| DbmTrie.InsertKeeps | usr/src/libdbm/dbm.c:104-112 | adding a pair to its page adds it to the map |
| DbmTrie.RemoveKeeps | usr/src/libdbm/dbm.c:74-81 | removing one removes it |
| DbmPairs.DividePage | usr/src/libdbm/dbm.c:120-138 | pairs are moved item by item, the rest stays in order |
| DbmPairs.AddPair | usr/src/libdbm/dbm.c:104-110 | key and value are added if both fit, and otherwise neither |
| DbmPairs.CmpSign | usr/src/libdbm/dbm.c:304-322 | a shorter key is less, and of two as long the one with the lesser byte where they first differ |
| DbmPairs.CmpOrder | usr/src/libdbm/dbm.c:304-322 | the comparison of keys is antisymmetric and transitive |
| DbmPage.AddItem | usr/src/libdbm/dbm.c:420-442 | an item is added if and only if it leaves room for its offset |
| DbmPage.DelItem | usr/src/libdbm/dbm.c:387-418 | the items after the one deleted move up, the others stay |
| DbmPage.MakDatum | usr/src/libdbm/dbm.c:281-302 | item n of the page, or none |
| DbmWalk.Walk | usr/src/libdbm/dbm.c:148-207 | firstkey and then nextkey until none is left give every key once |
| DbmWalk.FirstHash | usr/src/libdbm/dbm.c:185-207 | the greatest key of the first leaf from there on that has one |
| DbmWalk.NextKey | usr/src/libdbm/dbm.c:154-183 | the next key in the order of leaves and, in a leaf, of keys going down |
| DbmWalk.HashInc | usr/src/libdbm/dbm.c:349-364 | the bit-reversed successor |
| DbmWalk.NextLeaf | usr/src/libdbm/dbm.c:349-364 | it is where the next leaf begins |
| Dballoc.Arena.Malloc | usr/src/libI77/dballoc.c:47-105 | a block of its own, big enough, the first place from the search pointer on where idle blocks side by side have room; where none have, at the new memory, or if that follows the old top at the first of the idle blocks in front of it; it fails if and only if before the call none had and the break cannot rise; lost if and only if none had and the break wraps; valid afterwards if and only if it succeeds or the block where the search began was not idle after an idle one |
| Dballoc.Arena.MallocWords | usr/src/libI77/dballoc.c:59-104 | the same from the size in words on; what happens to every word of memory |
| Dballoc.Scan | usr/src/libI77/dballoc.c:59-81 | a search finds the first place that fits in circular order, or there is none in the arena as it was before |
| Dballoc.SmallRuns | usr/src/libI77/dballoc.c:59-81 | where joined blocks are too small no idle blocks side by side had room before |
| Dballoc.FoundRun | usr/src/libI77/dballoc.c:61-65 | a joined block was a run of idle blocks side by side |
| Dballoc.PlacedThere | usr/src/libI77/dballoc.c:84-91 | the search of an arena that has grown ends at the idle blocks in front of the new memory, which the old top joins to them only where there is no gap |
| Dballoc.Coalesce | usr/src/libI77/dballoc.c:61-65 | idle neighbours are joined, busy blocks stay |
| Dballoc.Arena.Free | usr/src/libI77/dballoc.c:108-118 | the block is idle and the next search begins there |
| Dballoc.Arena.Realloc | usr/src/libI77/dballoc.c:136-159 | a block freed since the last malloc keeps its contents, overlapping or not, no other block changes, and the new one is where malloc puts it |
| Dballoc.MoveContents | usr/src/libI77/dballoc.c:150-157 | the copy with the one word that the split overwrote put right |
| Dballoc.LiveDisjoint | usr/src/libI77/dballoc.c:47-105 | blocks in use do not overlap |
| Dballoc.BigEnough | usr/src/libI77/dballoc.c:57 | the size in words covers the request if and only if it is at most 65532 |
| Dballoc.GrowthRoom | usr/src/libI77/dballoc.c:82-83 | the break goes up by what is asked for if and only if the sum stays below 65536 |
| Dballoc.LargeRequest | usr/src/libI77/dballoc.c:82-83 | 40000 bytes are to be had up to a break of 24574 |
| Dballoc.LostRun | usr/src/libI77/dballoc.c:82-89 | 40000 bytes with the break at 26000 are lost |
| Dballoc.Arena.Sbrk | usr/src/libc/sys/sbrk.s:10-23 | the break moves by a 16-bit sum |
| Dballoc.Astray | usr/src/libI77/dballoc.c:84-85 | after a failed call the search pointer is a header still if and only if its block was not idle after an idle one |
| Dballoc.StrayRun | usr/src/libI77/dballoc.c:47-118 | a run of calls that ends so, with nothing in use |
| Dballoc.GivenTwice | usr/src/libI77/dballoc.c:93-103 | a block taken at a stray pointer is still offered as part of the idle block around it |
| GrepCompile.GrepLine | usr/src/cmd/grep.c:145-260 | a pattern compiles if and only if it can be spelled out of elements whose code fits; then a line is selected if and only if a string of the language of these elements begins in it, or at its front with a circumflex |
| GrepCompile.Compile | usr/src/cmd/grep.c:145-260 | every pattern is spelled like some elements as far as it can be read, and what stops the reading says what becomes of it: the code of the elements, an error or a read past its end; one byte is written past the buffer if and only if an element of two bytes begins at its last byte |
| GrepSpell.SpelledBack | usr/src/cmd/grep.c:145-260 | elements written out, with stars, classes, ranges, groups, a dollar sign at the end and a circumflex in front, are read back as what they stand for |
| GrepSpell.SomeSpelling | usr/src/cmd/grep.c:145-260 | every pattern is spelled like some elements up to its end or to what stops the reading |
| GrepSpell.ReadSpelled | usr/src/cmd/grep.c:145-260 | and is read so |
| GrepSpell.ReadBracket | usr/src/cmd/grep.c:194-222 | a class as it is written has the characters and ranges named, or all others |
| GrepCompile.OnePast | usr/src/cmd/grep.c:249-257 | a dot and 128 letters write past the buffer |
| GrepCompile.PastItsEnd | usr/src/cmd/grep.c:204-226 | a backslash alone, and a class that ends in a hyphen, are read past their end |
| GrepCompile.ReadClass | usr/src/cmd/grep.c:197-213 | a class read into its map: the characters and ranges named, or that it has no end or is read past it |
| GrepCompile.Negate | usr/src/cmd/grep.c:214-218 | a negated class has the other characters except 0 |
| Grep.Advance | usr/src/cmd/grep.c:324-437 | succeeds exactly if the rest of the code accepts the text from there |
| Grep.StarStep | usr/src/cmd/grep.c:393-432 | the longest run first and then shorter ones: the answer is that of any number of repetitions, or is left to the rest of the code |
| Grep.Selects | usr/src/cmd/grep.c:291-313 | the quick loop for a literal first character agrees with the plain one |
| GrepMatch.AcceptsIsLanguage | usr/src/cmd/grep.c:324-437 | backtracking accepts exactly where a string of the language begins |
| Crypt.Setup | usr/src/cmd/crypt.c:44-66 | ends for all key material; t1 comes of the exchanges that the random numbers say, t2 is its inverse; t3 pairs all places, each with the first one free from where its random number says |
| Crypt.PairUp | usr/src/cmd/crypt.c:58-62 | one pairing keeps the number of unpaired places below k even |
| Crypt.Partner | usr/src/cmd/crypt.c:59-60 | the search for a partner ends where there is one |
| Crypt.CipherTwice | usr/src/cmd/crypt.c:81-83 | enciphering twice is the identity, and once changes every byte |
| Crypt.RoundTrip | usr/src/cmd/crypt.c:68-91 | a stream enciphered twice is itself |
| Crypt.CrBlock | usr/src/cmd/ed.c:1625-1652 | a character and what it is enciphered as meet partners of the reflecting rotor, with the two rotors turned by the low bytes of the position in the stream |
| Crypt.Reflected | usr/src/cmd/crypt.c:81-82 | so one character at two rotor positions |
| Crypt.InPieces | usr/src/cmd/ed.c:1625-1652 | pieces with their offsets are the whole |
| EdStore.LineStore.PutLine | usr/src/cmd/ed.c:863-889 | the line up to its newline gets a new even handle, unless the store is full, and no other line changes |
| EdStore.LineStore.GetLine | usr/src/cmd/ed.c:846-861 | a handle, marked or not, gives back its line |
| EdStore.LineStore.GetBlock | usr/src/cmd/ed.c:892-939 | the block is in one of the two buffers, nothing written is lost |
| EdStore.LineStore.FetchBlock | usr/src/cmd/ed.c:912-923 | the buffer for reading is written back if changed |
| EdStore.LineStore.StartBlock | usr/src/cmd/ed.c:925-938 | the buffer for writing is written out and taken for a block not begun before |
| SortQuick.QSort | usr/src/cmd/sort.c:822-900 | the stretch is ordered and permuted, nothing else changes, and calls nest no deeper than the logarithm of its length |
| SortQuick.Partition | usr/src/cmd/sort.c:833-899 | less, equal and greater elements end in three regions |
| SortMerge.Merge | usr/src/cmd/sort.c:350-441 | all lines of all runs in order |
| SortMerge.SiftDown | usr/src/cmd/sort.c:415-420 | the run with the new line finds its place |
| SortMerge.LastIsHighest | usr/src/cmd/sort.c:394-400 | the last run has the line to be written next |
| SortNumber.NumericCompare | usr/src/cmd/sort.c:592-638 | the sign of the comparison of two keys as decimal numbers, of any length |
| SortNumber.CompareWhole | usr/src/cmd/sort.c:610-621 | the digits before the point, read backwards |
| SortNumber.CompareFraction | usr/src/cmd/sort.c:622-636 | those after it |
| Join.JoinFiles | usr/src/cmd/join.c:102-138 | the pairs printed are those of the nested loops in their order; with -a the lone lines of either file are printed, once; and all that is printed is in the order of the keys |
| Join.FirstPass | usr/src/cmd/join.c:114-118 | a line meets all lines of its key, top2 is behind them |
| Join.FurtherPasses | usr/src/cmd/join.c:119-135 | so does every further line of the key, from bot2 again |
| Tsort.Order | usr/src/cmd/tsort.c:66-81 | every node once; each the first ready one, or on a cycle of what is left if none is ready; a cycle is reported exactly when there is one, and without one every edge is respected |
| Tsort.FindLoop | usr/src/cmd/tsort.c:161-194 | a node on a cycle of live nodes, the marks undone |
| Tsort.MarkOnce | usr/src/cmd/tsort.c:171-180 | the walk over live predecessors comes back to a node met before |
| Tsort.Sweep | usr/src/cmd/tsort.c:67-73 | the first ready node, and whether any is left |
| Tsort.NoCycle | usr/src/cmd/tsort.c:66-81 | an order that respects every edge leaves no cycle |
| Ld.LoadMember | usr/src/cmd/ld.c:534-598 | a member is loaded if and only if for some name undefined at first a symbol of it could be the definition, which a routine is not once a size has been asked for; the first such symbol is the definition, and without one the name keeps the largest size asked for; of a member not loaded the table keeps nothing but such sizes, and is the same if and only if the member asks for none; full if and only if all names are more than NSYM |
| Ld.MetTold | usr/src/cmd/ld.c:567-580 | what is known of a name symbol by symbol is its first definition, or the largest size asked for |
| Ld.AnsweredOpen | usr/src/cmd/ld.c:567-580 | a name is answered if and only if it was undefined and some symbol could be its definition |
| Ld.AnswersIff | usr/src/cmd/ld.c:567-580 | some symbol counted as a definition is the same as some name undefined at first and defined in the end |
| Ld.UnansweredValue | usr/src/cmd/ld.c:567-580 | what a member that answers nothing changes: no type, and a value exactly if it asks for a larger size |
| Ld.LoadSymbol | usr/src/cmd/ld.c:567-580 | one symbol entered, or merged with what is known of it |
| Ld.SizeOfUnloaded | usr/src/cmd/ld.c:569-598 | a member that is not loaded makes a common symbol larger |
| Ld.Lookup | usr/src/cmd/ld.c:1126-1151 | ends, at the symbol of the name if there is one and otherwise at an empty slot |
| Ld.Enter | usr/src/cmd/ld.c:1162-1180 | a new symbol keeps every probe that led to another one |
| Ld.Restore | usr/src/cmd/ld.c:424-443 | the table is what it was at an earlier number of symbols |
| Ld.RemoveKeeps | usr/src/cmd/ld.c:595-596 | zeroing the slot of the last symbol breaks no probe |
| Ld.SomeEmpty | usr/src/cmd/ld.c:150-154 | there is always an empty slot |
| Dump.Select | usr/src/cmd/dump.c:149-154 | the passes end with the least set that has the changed inodes and every directory holding one of the set |
| Dump.Pass | usr/src/cmd/dump.c:175-211 | a pass that adds nothing has found nothing to add, in spite of directories dropped on the way |
| Dump.Add | usr/src/cmd/dump.c:277-294 | a directory is added exactly if it holds something dumped, and dropped only if it leads nowhere |
| Look.Search | usr/src/cmd/look.c:58-112 | exactly the lines of a sorted file that begin with the key, in order |
| Look.Narrow | usr/src/cmd/look.c:56-83 | the binary search over bytes ends, with all lines up to the lower bound before the key and the upper one not |
| Look.CmpTells | usr/src/cmd/look.c:114-124 | the comparison tells equal words, prefixes, and which is less where two words first differ |
| Look.PlaceRises | usr/src/cmd/look.c:114-124 | lines in order are in order with respect to the key |

## Left out

How the programs are modelled:

- Arrays that a loop changes in place are sequence variables assigned anew at every step; aliasing between different
  arrays is modelled only where the program overlays them (`file`, `class` and `member` in diff, the arena of the
  allocator).
- Code buffers that only grow (`expbuf` of grep) are sequences appended to; the zero bytes ahead are not modelled.
- A word of the allocator's memory is its pointer and its busy bit; bytes of the dbm directory are their eight bits.
- Devices, terminals, signals, processes, argument parsing, prompts, messages and output formats.

diff:

- `readhash` is any function that is not 0; lines are characters without an incomplete last one; `-b`, `-h`, and the
  form in which ranges and lines are printed; lines that are a single `.` in the `-e` script.

libmp:

- MMult: the word in front of a block, which the test for a zero top digit reads when both lengths are 0, is taken to be
  the allocator's non-zero header.
- MDiv: the words that `m_div` sets up in one-digit blocks, and when storage is freed.
- SDivide: for length 0 the test reads in front of the block; it is taken not to shorten the result.
- MpPower.PowMod: a modulus of 0, by which the program divides.
- MpRoot.Rpow: what becomes of the word in front of the block when the modulus is put there (the result `outside`).
- Lengths above 32767 digits, negative arguments of `msqrt` (it stops), `min` and `mout` on the standard files.

restor:

- I/O errors, tapes and their changes, headers and checksums, directories and inodes, block 0 in the cache.
- Restor.Volume.BAlloc: stopping when there is no space is a result of its own.

mkfs, icheck, mkfs.py:

- BlockTable.AllocTree: single, double and triple indirect blocks are one method in the level, and the direct addresses
  one more case of its loop; the form of the blocks on disk.
- Freelist.MakeFree: the blocks are freed in the order listed after the list is made, and not while it is made; bad
  blocks, of which there are none; counts and times in the super-block.

libdbm:

- Dbm.Database.Store: offsets of pages beyond a `long` and hashes of more bits than the directory can hold.
- `dbminit`, read-only data bases, `chkblk`, the tables of `calchash` (any function), I/O errors.

allocator:

- Dballoc.Arena.Malloc: a store to memory above the break ends the program, which is the result `lost`; what comes after
  a search from a stray pointer is shown for one step only (GivenTwice).
- A corrupt arena, `calloc`, memory that others take between calls other than by gaps.

grep:

- GrepCompile.Compile: it stops at a back-reference that is in order (the result `BackRef`), and where the program goes
  on reading past the end of the pattern (the result `PastEnd`), since nothing is known of what is there.
- `-y`, long lines, and reading lines from files.

crypt and ed:

- The key derivation (`makekey`) and the random numbers, which may be any.
- In ed: commands, addresses, `move` and `reverse`, substitution, its regular expressions, marks other than bit 0 of a
  handle, NUL characters within lines, errors of the temporary file.

sort, join, tsort:

- `-u`, `-c`, `-m`, keys other than numeric ones, runs written to temporary files, lines longer than the buffer.
- In join: comparison and splitting of fields, empty lines (which end a file), formats.
- In tsort: reading names, duplicate and identical pairs.

ld, dump, look:

- Of ld the first pass over external symbols only: the options `-S` and `-X`, relocation of values, sizes of segments
  and the table of contents of a library; a full table is a result (`full`) and not the end of the program. Values are
  compared as integers of any size.
- Of dump the choice of inodes only: blocks, tapes, estimates, and the word size of the maps beyond reading them by words.
- In look: options, the function `canon` (any function), and an incomplete last line.

Not modelled at all: fgrep, the other commands and libraries, the kernel, and all floating-point code.
