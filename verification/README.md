# Verified models of the kernel's data structures, memory managers and library routines

This project models the parts of the system that carry the most state and arithmetic, in Dafny, and proves what they
promise. Code that works in place is modelled in place: node fields, tables, buffers and bitmaps are fields and arrays
that the methods rewrite step by step, and each method is proved against a specification that says what the steps
come to.

- **Search trees** (`order`, `rbshape`, `rbbalance`, `rbtree`, `rblinks`, `splayshape`, `splaydepth`, `splay`). The
  red-black tree with parent links, and the top-down splay tree. A comparator is any function whose sign is a total
  preorder. Shapes of trees and of what surrounds a subtree describe the memory; the operations are proved on the
  fields themselves.
- **The rand command** (`arith`, `lcg`, `rand`). The generator has full period modulo 2^32, so the rejection loop ends,
  and it is unbiased.
- **SHA-256** (`fips180`, `fips180values`, `primes`, `fips180abc`, `sha2`). The streaming context against FIPS 180-4, and
  that definition against bits, roots of primes and a published digest. **RC4** (`arc4`) and the **visual encoding**
  (`vis`, `visforms`): what comes back, and when.
- **Page allocator** (`words`, `vmm`), **page tables** (`paging`), **frame allocator** (`bits64`, `pmm`).
- **File table** (`fs`). Slots that form a tree, and byte files with a cursor.
- **Tail queues** (`seqs`, `tailq`).
- **Library routines** (`fnmatch`, `sorting`, `convert`, `strtol`). Glob matching against its language; sorting and
  searching elements of any size; printing and reading integers.

How the source's terms appear here:

- A pointer to a struct is a reference, a slot index, or an address, as the source uses it; the address of a forward
  link in a tail queue is the link object that holds it, since a head and an element's entry have the same layout.
- Machine words are `bv32` and `bv64` where the source works on bits (SHA-256, bitmaps), and numbers with the
  wrap-around written out where it works on sizes and addresses. Masks by a power of two are written as division and
  remainder; `Paging.IndexMasks`, `Paging.EntryMasks`, `Paging.MakeMask`, `Vmm.AlignMasks` and `Pmm.AlignMask`
  tie such forms to the bit operations.
- What the code gets from outside is a parameter: the time, whether `malloc` or `realloc` succeeds, the frame that the
  page tables are given.
- A failed `assert` and a division by zero are outcomes. Output text is left out.

Where the code does not do what one would expect, the model follows the code and states exactly when:
`Rand.ParsedWraps` and the division by zero in `Rand.Generator.Run`, `Vmm.SizeWraps`, `Vmm.SetAsideBlocks`,
`Vmm.SetAsideNothing`, `Pmm.GiveUndoes`, `Pmm.FoundBelowWord`, `Pmm.LastGigabyteLost`, `Pmm.NullAnswer`,
`Pmm.RegionInside`, the overrun in `Pmm.Manager.FreePages`, `Fs.FindSees`, `Fs.AddedKept`, the overrun in `Fs.FileSystem.Write`, `Vis.InjectiveFlags`,
and `Convert.ReadsBack`.

## Model

| member | source | states |
|---|---|---|
| `RbTree.Head.Insert` | usr/include/sys/tree.h:591-620 | after it the tree is a red-black search tree again; it either added exactly the new node at its place in the order, where no key was equal, or changed nothing and returned the node with an equal key, which is the given node itself if that is in the tree already |
| `RbTree.Head.HangLeaf` | usr/include/sys/tree.h:596-617 | exactly these fields change: the new node is a red leaf below the last node of the search, which links to it on the side the comparison says, or it is the root |
| `RbTree.Head.InsertColor` | usr/include/sys/tree.h:404-446 | the fix-up turns a tree with one red node that may have a red parent into a red-black tree with the same nodes in the same order |
| `RbTree.Head.RotateLeft` | usr/include/sys/tree.h:339-357 | the exact fields a left rotation rewrites, the root included |
| `RbTree.Head.RotateRight` | usr/include/sys/tree.h:359-377 | the exact fields a right rotation rewrites, the root included |
| `RbTree.Head.Remove` | usr/include/sys/tree.h:524-589 | removes exactly the given node from the order and leaves a red-black search tree, whichever of its children are missing |
| `RbTree.Head.RemoveColor` | usr/include/sys/tree.h:448-522 | the fix-up turns a tree in which one subtree is short of a black node into a red-black tree with the same nodes in the same order |
| `RbTree.Head.ShortLeftRound` | usr/include/sys/tree.h:453-484 | one round with the short subtree on the left: either the tree is repaired or the parent is short, one level up |
| `RbTree.Head.ShortRightRound` | usr/include/sys/tree.h:485-517 | the same with the short subtree on the right |
| `RbTree.Head.TakeDouble` | usr/include/sys/tree.h:533-569 | a node with two children is replaced by the next one in order, whose colour passes on |
| `RbTree.Head.TakeSingle` | usr/include/sys/tree.h:529-532 | a node with at most one child is replaced by that child |
| `RbTree.Head.Find` | usr/include/sys/tree.h:622-638 | returns a node with an equal key, or null when no key is equal |
| `RbTree.Head.NFind` | usr/include/sys/tree.h:640-659 | returns the first node in order that is not below the key |
| `RbTree.Head.Next` | usr/include/sys/tree.h:661-680 | returns the next node in order, found from the links alone |
| `RbTree.Head.Prev` | usr/include/sys/tree.h:682-701 | returns the node before in order |
| `RbTree.Head.NextAndBack` | usr/include/sys/tree.h:661-701 | the step back is the inverse of the step on |
| `RbTree.Head.MinMax` | usr/include/sys/tree.h:703-716 | returns the first or the last node in order |
| `RbTree.Head.Foreach` | usr/include/sys/tree.h:730-733 | the iteration visits every node once, in ascending order |
| `RbTree.Head.ForeachReverse` | usr/include/sys/tree.h:740-743 | the reverse iteration visits every node once, in descending order |
| `RbBalance.PlugBalanced` | usr/include/sys/tree.h:50-59 | a tree is red-black exactly if a subtree and its surroundings meet the local conditions the fix-up loops maintain |
| `RbBalance.HeightBound` | usr/include/sys/tree.h:57-58 | two to the height is at most the square of one more than the number of nodes |
| `RbBalance.HeightByBlack` | usr/include/sys/tree.h:50-59 | the height is at most twice the black height, and the black height is at most logarithmic |
| `RbLinks.BalancedByPaths` | usr/include/sys/tree.h:50-55 | the recursive colour condition holds exactly if no red node has a red child and all paths down meet equally many black nodes |
| `RbLinks.FieldsAgree` | usr/include/sys/tree.h:50-55 | in a valid tree every node agrees with its neighbours field by field: child and parent links are inverse, the root alone has no parent and is black, no red node has a red child |
| `RbLinks.Shallow` | usr/include/sys/tree.h:57-58 | a valid tree of n nodes is at most 2*lg(n+1) high |
| `RbShape.Locate` | usr/include/sys/tree.h:524-589 | every node of a tree has a place: what is around it and what is below it |
| `RbShape.InorderPlug` | usr/include/sys/tree.h:339-377 | what a change of a subtree does to the order of the whole tree |
| `Splay.Head.Splay` | usr/include/sys/tree.h:206-239 | the top-down loop ends with the exact shape that the rounds lead to, keeps the nodes in order, and leaves at the root a node with everything left of it below the key and everything right of it above: the equal key if there is one, else a neighbour of the key |
| `Splay.Head.MinMax` | usr/include/sys/tree.h:244-275 | the same loop towards one end, with its exact shape, leaves the first or the last node at the root |
| `Splay.Head.Insert` | usr/include/sys/tree.h:160-183 | adds exactly the new node at its place in the order, or changes no order and returns the node with an equal key, which is the given node itself if that is in the tree already |
| `Splay.Head.Remove` | usr/include/sys/tree.h:185-204 | takes out exactly the node with the equal key, or finds that there is none and changes no order |
| `Splay.Head.Find` | usr/include/sys/tree.h:124-134 | returns a node with an equal key, or null when no key is equal, and keeps the order |
| `Splay.Head.Next` | usr/include/sys/tree.h:136-148 | returns the next node in order and keeps the order, though it splays |
| `Splay.Head.Extreme` | usr/include/sys/tree.h:284-287 | returns the first or the last node, or null for an empty tree |
| `Splay.Head.Foreach` | usr/include/sys/tree.h:289-292 | the iteration visits every node once in ascending order, though every step splays |
| `Splay.Head.Assemble` | usr/include/sys/tree.h:109-114 | the exact fields that putting the two side trees back under the root rewrites |
| `SplayDepth.SplayHalves` | usr/include/sys/tree.h:206-239 | splaying halves the search path: its node at depth e ends at depth e/2 + 2 or above, for any comparator |
| `SplayDepth.PathHalved` | usr/include/sys/tree.h:215-237 | the same from any state of the loop |
| `SplayDepth.SplayedForm` | usr/include/sys/tree.h:97-114 | what was moved to a side stays there, at its depth |
| `SplayShape.AssembledTree` | usr/include/sys/tree.h:109-114 | assembling gives one tree that holds the side trees and the middle |
| `SplayShape.AssembledOrder` | usr/include/sys/tree.h:109-114 | assembling restores the order from before the loop |
| `SplayShape.RotatedRight` | usr/include/sys/tree.h:85-89 | a right rotation at the root keeps the nodes laid out, between untouched side trees |
| `SplayShape.LinkedOrder` | usr/include/sys/tree.h:97-107 | moving the root onto a side tree keeps the order |
| `Lcg.Period` | bin/rand.c:8-13 | the generator is back where it was after n steps exactly if 2^32 divides n, from every seed |
| `Lcg.SomeSteps` | bin/rand.c:8-13 | the steps from 0 and from the seed of the source |
| `Lcg.SumDivisible` | bin/rand.c:8-13 | for a multiplier that is 1 modulo 4, the geometric sum is divisible by a power of two exactly if the number of terms is |
| `Rand.Visits` | bin/rand.c:8-13 | within 2^32 draws every number below 2^32 comes up |
| `Rand.Unbiased` | bin/rand.c:47-54 | in one cycle every result from 0 to the bound is accepted equally often, max_allowed / range times |
| `Rand.MaxAllowedBelow` | bin/rand.c:47-52 | the limit of the rejection loop fits in 32 bits, for every range |
| `Rand.ParsedValue` | bin/rand.c:16-28 | what the parser gives is the number read, exactly for texts of digits below 2^32 |
| `Rand.ParsedWraps` | bin/rand.c:22-25 | the overflow test lets a number beyond 32 bits through: the text 4294967296 is read as 0 |
| `Rand.Generator.Next` | bin/rand.c:8-13 | one step of the generator |
| `Rand.Generator.Bounded` | bin/rand.c:47-54 | the rejection loop ends within 2^32 draws, with the first draw below the limit, reduced to the range |
| `Rand.Generator.Parse` | bin/rand.c:16-28 | parses as the specification says, with the same failures |
| `Rand.Generator.Run` | bin/rand.c:30-56 | every outcome of the command by its arguments, the division by zero at the largest bound included |
| `Sha2.Context.Transform` | usr/drivers/sha2.c:35-85 | one call is one compression of FIPS 180-4, section 6.2.2, on the buffered block |
| `Sha2.Context.Schedule` | usr/drivers/sha2.c:40-50 | the message schedule of section 6.2.2 |
| `Sha2.Context.Mix` | usr/drivers/sha2.c:52-74 | the 64 rounds of section 6.2.2 on the working variables |
| `Sha2.Context.Update` | usr/drivers/sha2.c:102-115 | the context that has taken in a message m has, after an update, taken in m followed by the new bytes |
| `Sha2.Context.constructor` | usr/drivers/sha2.c:87-100 | a new context has taken in the empty message |
| `Sha2.Context.PadBuffer` | usr/drivers/sha2.c:119-134 | both branches around 56 buffered bytes build the padding of section 5.1.1 |
| `Sha2.Context.PutLength` | usr/drivers/sha2.c:136-145 | the eight length bytes are the bit length in big-endian form |
| `Sha2.Context.Emit` | usr/drivers/sha2.c:149-155 | the state comes out word by word, most significant byte first |
| `Sha2.Context.Final` | usr/drivers/sha2.c:117-156 | for every message below 2^61 bytes the digest is that of sections 5.1.1, 5.2.1 and 6.2.2 of FIPS 180-4 |
| `Sha2.InPieces` | usr/drivers/sha2.c:102-156 | however a message is split into updates, the digest is that of the whole message |
| `Sha2.Sha256Of` | usr/drivers/sha2.c:158-164 | the one-call form gives the digest of the whole message |
| `Fips180.HashBlocksAppend` | usr/drivers/sha2.c:109-113 | hashing one more block is one more compression |
| `Fips180Values.BigSigma0Bits` | usr/drivers/sha2.c:30 | each bit of the result is the exclusive or of three bits of the word, two, thirteen and twenty-two places up |
| `Fips180Values.BigSigma1Bits` | usr/drivers/sha2.c:31 | the same for six, eleven and twenty-five places |
| `Fips180Values.SmallSigma0Bits` | usr/drivers/sha2.c:32 | the same for seven and eighteen places, and three places without the turn |
| `Fips180Values.SmallSigma1Bits` | usr/drivers/sha2.c:33 | the same for seventeen and nineteen places, and ten places without the turn |
| `Fips180Values.ChBits` | usr/drivers/sha2.c:28 | each bit of the first word chooses between those of the others |
| `Fips180Values.MajBits` | usr/drivers/sha2.c:29 | each bit is the majority of three |
| `Fips180Values.RoundConstantRoots` | usr/drivers/sha2.c:5-22 | each round constant is the first 32 bits of the fraction of the cube root of its prime number |
| `Fips180Values.InitialRoots` | usr/drivers/sha2.c:87-100 | each word of the initial value is the first 32 bits of the fraction of the square root of its prime number |
| `Primes.PrimesListed` | usr/drivers/sha2.c:5-22 | the primes behind the constants are all prime numbers from 2 on, in order and without gaps |
| `Fips180Abc.AbcDigest` | usr/drivers/sha2.c:35-85 | the digest of the three bytes abc is the published one, followed through all 64 rounds |
| `Arc4.Context.constructor` | usr/drivers/crypto/arc4.c:32-48 | the key schedule of the specification, and a state in which every byte stands once |
| `Arc4.Context.Crypt` | usr/drivers/crypto/arc4.c:50-63 | the data under the next bytes of the key stream, in place or not, and the context behind them |
| `Arc4.Context.GetBytes` | usr/drivers/crypto/arc4.c:65-77 | the next bytes of the key stream and the context behind them |
| `Arc4.Context.Skip` | usr/drivers/crypto/arc4.c:79-86 | leaves the context where taking as many bytes leaves it |
| `Arc4.AfterPermutes` | usr/drivers/crypto/arc4.c:50-63 | the state stays a permutation of all bytes over every run |
| `Arc4.StreamSplit` | usr/drivers/crypto/arc4.c:50-63 | taking the key stream in two parts is taking it at once |
| `Arc4.InTwoCalls` | usr/drivers/crypto/arc4.c:50-63 | two calls crypt two parts as one call crypts the whole |
| `Arc4.ThereAndBack` | usr/drivers/crypto/arc4.c:32-63 | what one context crypts, another with the same key crypts back |
| `Arc4.MaskedBits` | usr/drivers/crypto/arc4.c:59-61 | crypting zeros gives the stream, and every other byte differs from it by its own bits |
| `Arc4.FirstBytes` | usr/drivers/crypto/arc4.c:70-76 | the first bytes from the untouched state are 2, 5 and 7 |
| `Arc4.FirstRounds` | usr/drivers/crypto/arc4.c:40-46 | the states after the first rounds for a given key |
| `Vis.Put` | kern/vis.c:10-66 | writes exactly the encoding of one byte |
| `Vis.Strvisx` | kern/vis.c:107-118 | writes the encodings one after the other and a byte 0 |
| `Vis.Stravis` | kern/vis.c:79-91 | a buffer of four bytes for each and one more always suffices; -1 and no buffer exactly if the allocation fails; and the lengths for which the size overflows |
| `Vis.ReadBack` | kern/vis.c:10-66 | one decoder that knows no flags reads back every encoding made without VIS_CSTYLE and with an escape for the backslash |
| `Vis.InjectiveFlags` | kern/vis.c:10-66 | the encoding tells all byte strings apart exactly for those flags: no VIS_CSTYLE, and VIS_ALL where VIS_NOSLASH is set |
| `VisForms.Unflagged` | kern/vis.c:20-66 | without flags: the letter of each control character that has one, printable bytes as they are, and octal digits of the right value for all others |
| `VisForms.BlankFlag` | kern/vis.c:29 | VIS_SP changes the blank alone |
| `VisForms.QuoteFlag` | kern/vis.c:30 | VIS_DQ changes the double quote alone |
| `VisForms.WhiteFlags` | kern/vis.c:36-40 | VIS_TAB and VIS_NL change their byte and the blank, which the test for white space takes along |
| `VisForms.SlashFlag` | kern/vis.c:20-34 | VIS_NOSLASH gives up all letters |
| `VisForms.AllFlag` | kern/vis.c:36-40 | VIS_ALL leaves no byte as it is |
| `VisForms.ControlFlag` | kern/vis.c:13-51 | VIS_CSTYLE writes the control key, the byte 0 like the byte 30, and the delete character as a question mark |
| `VisForms.OctalFlag` | kern/vis.c:53-65 | VIS_OCTAL changes nothing |
| `Vmm.Allocator.AllocInternal` | usr/drivers/vmm.c:46-91 | returns the lowest page whose address is a multiple of the alignment and starts enough free pages, null exactly if there is none, and marks exactly that block, though the loop skips ahead |
| `Vmm.Allocator.Alloc` | usr/drivers/vmm.c:93-103 | the answer and the new table for every size, the failed assertion for the last sizes included |
| `Vmm.Allocator.AllocAligned` | usr/drivers/vmm.c:105-121 | the same with the alignment checked first |
| `Vmm.Allocator.AllocTagged` | usr/drivers/vmm.c:123-133 | the same with a tag and an owner |
| `Vmm.Allocator.Free` | usr/drivers/vmm.c:135-175 | the new table for every address and every table whose entries count no more pages than there are, as all runs keep it |
| `Vmm.Allocator.ReserveRange` | usr/drivers/vmm.c:29-44 | exactly the pages of the rounded range are set aside |
| `Vmm.Allocator.SetTag` | usr/drivers/vmm.c:260-273 | exactly a used page that holds the address is tagged |
| `Vmm.Allocator.Init` | usr/drivers/vmm.c:11-23 | the first call lays out a free table, later calls change nothing |
| `Vmm.Allocator.Stats` | usr/drivers/vmm.c:216-236 | the walk ends for every table whose entries count no more pages than there are; in a table of blocks it equals a count of all pages by state |
| `Vmm.Allocator.LargestFreeBlock` | usr/drivers/vmm.c:242-258 | the size of the longest run of free pages |
| `Vmm.FirstFit` | usr/drivers/vmm.c:46-91 | what lowest fitting page means |
| `Vmm.Jump` | usr/drivers/vmm.c:55-65 | jumping to the aligned address skips no aligned page |
| `Vmm.TakenBlocks` | usr/drivers/vmm.c:78-87 | allocating keeps the table split into blocks |
| `Vmm.ReleasedBlocks` | usr/drivers/vmm.c:158-168 | freeing a block keeps the table split into blocks |
| `Vmm.FreeBlock` | usr/drivers/vmm.c:135-171 | in a table of blocks, freeing the first page of a block frees exactly that block, and any other address changes nothing |
| `Vmm.ReleaseUndoes` | usr/drivers/vmm.c:78-87 | freeing what was just allocated restores the table page for page |
| `Vmm.SetAsideBlocks` | usr/drivers/vmm.c:36-43 | reserving keeps the block structure exactly if it takes no used page |
| `Vmm.SetAsidePages` | usr/drivers/vmm.c:29-44 | reserving sets aside exactly the pages that begin before the end and end behind the start, partly covered ones included, and changes no other |
| `Vmm.SetAsideNothing` | usr/drivers/vmm.c:34 | a range that ends in the last page of memory sets nothing aside, since rounding its end up wraps around |
| `Vmm.BlocksDisjoint` | usr/drivers/vmm.c:80-85 | no page lies in two blocks |
| `Vmm.AfterBlocks` | usr/drivers/vmm.c:29-175 | each call keeps the block structure exactly if it does not reserve a used page |
| `Vmm.RunBlocks` | usr/drivers/vmm.c:29-175 | a run of calls keeps the block structure at every point exactly if no call of it reserves a page that is used at the time |
| `Vmm.RunsFromInit` | usr/drivers/vmm.c:11-175 | the same for every run that starts in the table of vmm_init |
| `Vmm.SucceedsUpToLargest` | usr/drivers/vmm.c:93-103 | an unaligned allocation succeeds exactly if its size in pages is at most the largest free block |
| `Vmm.SizeWraps` | usr/drivers/vmm.c:93-103 | the sizes whose rounding wraps around and fails the assertion are exactly the last 4095 |
| `Vmm.PagesForLeast` | usr/drivers/vmm.c:96 | the number of pages is the least that holds the size |
| `Vmm.AnswerMeans` | usr/drivers/vmm.c:46-121 | in bytes: the answer is the lowest aligned place inside the memory that lies on free pages alone, and null exactly if there is none |
| `Vmm.AfterwardsMeans` | usr/drivers/vmm.c:78-87 | in bytes: exactly the pages that share a byte with the place become used and carry the tag and the owner |
| `Vmm.WalkCounts` | usr/drivers/vmm.c:219-231 | a walk that jumps over whole blocks counts every page once, under its state |
| `Vmm.CountAll` | usr/drivers/vmm.c:216-231 | every page is counted under one state |
| `Arith.PowersDivide` | usr/drivers/vmm.c:55-57 | a page size divides every larger power of two |
| `Words.PowerTest` | usr/drivers/vmm.c:108-112 | the mask test holds exactly for the powers of two, of all words but 0 |
| `Words.MaskRounds` | usr/drivers/vmm.c:56 | for every power of two, the mask takes away the remainder |
| `Words.RoundsUp` | usr/drivers/vmm.c:56 | rounding up by adding and masking is the sum less its remainder, for every alignment that passes the mask test |
| `Words.RestRemains` | usr/drivers/paging.c:8-14 | for every power of two, the bits below the mask are the remainder |
| `Words.ShiftDivides` | usr/drivers/paging.c:8-14 | shifting down by 12 or 22 places is division |
| `Vmm.AlignMasks` | usr/drivers/vmm.c:56-112 | on words, the two masks of the allocator are the power-of-two test and the rounding of the model |
| `Paging.Mapper.GetOrCreate` | usr/drivers/paging.c:16-34 | making a table changes no translation, and the answer is the table of the address or none |
| `Paging.Mapper.MapPage` | usr/drivers/paging.c:48-60 | maps exactly one page, or fails, exactly when told, and changes no translation |
| `Paging.Mapper.UnmapPage` | usr/drivers/paging.c:62-77 | unmaps exactly one page, or fails exactly if the address is not that of a mapped page |
| `Paging.Mapper.GetPhysical` | usr/drivers/paging.c:79-88 | the frame of the page that holds the address, or 0 |
| `Paging.Mapper.constructor` | usr/drivers/paging.c:36-46 | a new directory maps nothing |
| `Paging.NewTable` | usr/drivers/paging.c:30-33 | a new empty table in the directory leaves the flat map as it was |
| `Paging.SetEntry` | usr/drivers/paging.c:55-56 | writing one entry changes the flat map at its page alone |
| `Paging.IndexMasks` | usr/drivers/paging.c:8-14 | on words, the shifts and masks of the source are the indices of the model |
| `Paging.EntryMasks` | usr/drivers/paging.c:16-21 | on words, the masks of frames, flags and alignment are the arithmetic of the model |
| `Paging.MakeMask` | usr/drivers/paging.c:55-56 | on words, an entry is put together as the source does |
| `Paging.IndexSplit` | usr/drivers/paging.c:8-14 | the two indices of an address name its page |
| `Pmm.Manager.AllocPagesZone` | usr/drivers/pmm.c:201-231 | takes the lowest run of clear bits in the first region of the zone that has one, sets exactly those bits, returns the address as a 32-bit sum, and fails exactly if there is none |
| `Pmm.Manager.FreePages` | usr/drivers/pmm.c:239-281 | clears exactly the given bits, or fails, exactly when one of the checks says so, and changes nothing; and exactly when the range test passes by wrapping around and the scan leaves the region |
| `Pmm.Manager.FindRegion` | usr/drivers/pmm.c:42-50 | the first region that holds the address, the end of a region being a 32-bit sum |
| `Pmm.Manager.GetStats` | usr/drivers/pmm.c:300-326 | all counts, by zone too, with the total split into taken and free |
| `Pmm.Manager.AddRegion` | usr/drivers/pmm.c:66-104 | puts a region of clear bits in front of the others, or fails and changes nothing, for every base and size of 32 bits |
| `Pmm.Region.FindRun` | usr/drivers/pmm.c:209-227 | the scan finds the lowest run of the wanted length |
| `Pmm.Region.SetBit` | usr/drivers/pmm.c:24-26 | sets one bit and no other |
| `Pmm.Region.ClearBit` | usr/drivers/pmm.c:28-30 | clears one bit and no other |
| `Pmm.Region.TestBit` | usr/drivers/pmm.c:32-34 | reads one bit |
| `Bits64.BitSet` | usr/drivers/pmm.c:24-34 | on bitmaps of words, setting or clearing a bit through shifts and masks changes that bit alone |
| `Pmm.Manager.AlwaysInWord` | usr/drivers/pmm.c:66-104 | in every state of the manager the bases are at frame boundaries and bases and sizes fit in 32 bits, as the lemmas below ask |
| `Pmm.GiveUndoes` | usr/drivers/pmm.c:201-281 | freeing what was just taken succeeds and restores every bitmap exactly if the region ends below 2^32 and the address is not 0 |
| `Pmm.FoundBelowWord` | usr/drivers/pmm.c:42-50 | a region is found by some address exactly if it ends below 2^32 |
| `Pmm.LastGigabyteLost` | usr/drivers/pmm.c:42-281 | a region of the last gigabyte: frames can be taken and never be given back |
| `Pmm.TakeCounts` | usr/drivers/pmm.c:201-231 | taking frames moves exactly that many from free to taken |
| `Pmm.NullAnswer` | usr/drivers/pmm.c:201-231 | a null answer means that there is no run, but for a frame whose address is 0 or wraps around to it |
| `Pmm.RegionInside` | usr/drivers/pmm.c:71-74 | every frame of a new region lies in its memory exactly if there is none, or the memory reaches the first frame boundary and the last frame does not run past the end of the address space |
| `Pmm.AlignMask` | usr/include/pmm.h:68-70 | on words, adding and masking is the rounding of the model, wrap-around included |
| `Fs.FileSystem.constructor` | usr/drivers/fs.c:29-58 | a new file system is the root directory alone |
| `Fs.FileSystem.CreateWithPerms` | usr/drivers/fs.c:132-166 | each result code exactly when it is due, exactly one new empty file in the lowest free slot, and all invariants kept until the inode numbers run out |
| `Fs.FileSystem.Mkdir` | usr/drivers/fs.c:334-378 | the same for a directory |
| `Fs.FileSystem.Delete` | usr/drivers/fs.c:172-215 | each result code exactly when it is due, exactly that entry is removed, and all invariants are kept |
| `Fs.FileSystem.Chdir` | usr/drivers/fs.c:380-400 | the new current directory is the parent or the entry found, and a live directory |
| `Fs.FileSystem.FindFile` | usr/drivers/fs.c:92-107 | the first match among as many slots as there are files |
| `Fs.FileSystem.Open` | usr/drivers/fs.c:217-235 | each result code exactly when it is due; opening puts the cursor at the start |
| `Fs.FileSystem.Close` | usr/drivers/fs.c:237-250 | each result code exactly when it is due |
| `Fs.FileSystem.Seek` | usr/drivers/fs.c:306-323 | moves the cursor to any place up to the end of the contents |
| `Fs.FileSystem.Read` | usr/drivers/fs.c:252-275 | returns the bytes from the cursor on and moves it behind them |
| `Fs.FileSystem.Write` | usr/drivers/fs.c:277-304 | the bytes written overwrite or extend the contents at the cursor; a failed realloc shortens the write to the buffer; and exactly when the copy would leave the buffer |
| `Fs.FileSystem.ResizeFile` | usr/drivers/fs.c:109-130 | the exact new size and buffer, in whole blocks |
| `Fs.FileSystem.Ancestors` | usr/drivers/fs.c:402-413 | the walk from the current directory to the root ends at the root within the number of slots |
| `Fs.FileSystem.WriteReadBack` | usr/drivers/fs.c:252-323 | what a write put in comes back from a seek and a read |
| `Fs.TreeGrows` | usr/drivers/fs.c:157-160 | a new entry keeps the parent links a tree with inode numbers growing downwards |
| `Fs.TreeShrinks` | usr/drivers/fs.c:187-211 | so does removing an entry that nothing hangs under |
| `Fs.AddedKept` | usr/drivers/fs.c:157-164 | adding an entry keeps all invariants exactly until the inode numbers run out |
| `Fs.FindSees` | usr/drivers/fs.c:92-103 | an entry of the current directory is found exactly if its slot is below the number of files |
| `Fs.FoundBelow` | usr/drivers/fs.c:172-199 | an entry found is never the current directory nor the root |
| `Fs.PathShort` | usr/drivers/fs.c:408-413 | a path up the parents never comes to a slot twice |
| `Fs.OverwriteAt` | usr/drivers/fs.c:295-300 | overwriting puts the new bytes in their place and keeps the others |
| `Fs.WrittenContents` | usr/drivers/fs.c:285-300 | a copy into the buffer at the cursor is overwriting the contents |
| `Fs.ValidateFilename` | usr/drivers/fs.c:60-90 | accepts exactly the valid names and tells long names apart |
| `Fs.ValidCodes` | usr/drivers/fs.c:84-90 | the valid characters by their codes |
| `Fs.ValidNames` | usr/drivers/fs.c:84-90 | the valid names by length and codes |
| `Fs.SomeNames` | usr/drivers/fs.c:84-90 | names that are accepted and names that are refused |
| `TailQ.Init` | usr/include/sys/queue.h:466-469 | an empty queue |
| `TailQ.InsertHead` | usr/include/sys/queue.h:471-479 | puts the element in front |
| `TailQ.InsertTail` | usr/include/sys/queue.h:481-486 | puts the element at the end |
| `TailQ.InsertAfter` | usr/include/sys/queue.h:488-496 | puts the element behind a given one |
| `TailQ.InsertBefore` | usr/include/sys/queue.h:498-503 | puts the element before a given one, without the head |
| `TailQ.Remove` | usr/include/sys/queue.h:505-514 | removes exactly the given element |
| `TailQ.Replace` | usr/include/sys/queue.h:516-526 | puts one element in the place of another |
| `TailQ.Concat` | usr/include/sys/queue.h:528-535 | appends one queue to another and empties it |
| `TailQ.Last` | usr/include/sys/queue.h:432-433 | reading an element entry as a head leads to the last element |
| `TailQ.Prev` | usr/include/sys/queue.h:435-436 | reading an element entry as a head leads to the element before |
| `TailQ.Foreach` | usr/include/sys/queue.h:440-443 | visits the elements in order |
| `TailQ.ForeachReverse` | usr/include/sys/queue.h:452-455 | visits the elements in the opposite order |
| `TailQ.Grown` | usr/include/sys/queue.h:471-503 | a ring opened at one place and closed around a new link is a ring again |
| `Fnmatch.Match` | lib/libc/fnmatch.c:37-93 | for bracket-free patterns with flags 0 or FNM_NOESCAPE the matcher ends, and returns 0 exactly if the string is in the language of the pattern |
| `Fnmatch.MatchStar` | lib/libc/fnmatch.c:61-68 | the loop behind a star decides whether the rest of the pattern matches some rest of the string |
| `Fnmatch.QuestionMark` | lib/libc/fnmatch.c:45-54 | a question mark and a pattern accept a string exactly if it is not empty and the pattern accepts the rest |
| `Fnmatch.Star` | lib/libc/fnmatch.c:55-68 | a star and a pattern accept a string exactly if the pattern accepts some rest of it |
| `Fnmatch.Escape` | lib/libc/fnmatch.c:81-89 | an escaped character stands for itself, whatever it is |
| `Fnmatch.Itself` | lib/libc/fnmatch.c:81-89 | any other character stands for itself, and so does a backslash at the end or with FNM_NOESCAPE |
| `Fnmatch.EndOfPattern` | lib/libc/fnmatch.c:92 | the empty pattern accepts the empty string alone |
| `Fnmatch.LanguageFirst` | lib/libc/fnmatch.c:43-91 | a string is in the language exactly if it splits into a piece for the first token and a rest for the others |
| `Fnmatch.LanguageOne` | lib/libc/fnmatch.c:45-54 | a token for one character takes the first character |
| `Fnmatch.LanguageStars` | lib/libc/fnmatch.c:55-57 | stars in a row mean the same as one |
| `Sorting.Qsort` | lib/libc/stdlib.c:533-538 | sorts whole elements by any total preorder, keeps them all unchanged, and touches no byte behind them |
| `Sorting.Quicksort` | lib/libc/stdlib.c:499-506 | the same for a range of elements, all others kept in place |
| `Sorting.Partition` | lib/libc/stdlib.c:508-521 | the pivot ends between what is below it and what is not |
| `Sorting.SwapElements` | lib/libc/stdlib.c:523-531 | exchanges two runs of bytes, or a run with itself |
| `Sorting.ExchangedElements` | lib/libc/stdlib.c:523-531 | exchanging the bytes of two elements exchanges the elements and keeps the others |
| `Sorting.Bsearch` | lib/libc/stdlib.c:477-497 | finds an element equal to the key exactly if there is one |
| `Sorting.SortAndFind` | lib/libc/stdlib.c:477-538 | after sorting, the search finds a key exactly if some element had it before |
| `Convert.Itoa` | lib/libc/stdlib.c:317-354 | writes the text of the number and its end, and nothing behind, for every int and every base from 2 to 36 |
| `Convert.ReadLong` | lib/libc/stdlib.c:204-255 | reads as the specification says: white space, sign, prefix, base, digits and the place behind them, modulo 2^32 |
| `Convert.ReadInt` | lib/libc/stdlib.c:120-146 | the same for the decimal reader |
| `Convert.ReadsBack` | lib/libc/stdlib.c:204-354 | strtol gives back what itoa printed, read to the end, exactly for the numbers that are not negative and, in base 10, the negative ones but the least; atoi likewise |
| `Convert.DigitsRead` | lib/libc/stdlib.c:332-336 | the printed digits are valid, lead with none that is 0, and stand for the number |
| `Convert.DigitsLower` | lib/libc/stdlib.c:334 | digits above 9 are lower-case letters |
| `Convert.DigitsMirrored` | lib/libc/stdlib.c:332-336 | the text of a negative number in another base than 10 has, for each digit, the character that lies as far below the digit 0 |
| `Strtol.DigitCodes` | lib/libc/stdlib.c:236-244 | the digits of any base by their codes, in either case |
| `Strtol.SpaceCodes` | lib/libc/stdlib.c:125-129 | what counts as white space, for either reader |
| `Strtol.BlankSkipped` | lib/libc/stdlib.c:125-210 | leading white space changes nothing but the place |
| `Strtol.PlusSkipped` | lib/libc/stdlib.c:131-218 | a plus sign changes nothing but the place |
| `Strtol.MinusNegates` | lib/libc/stdlib.c:131-254 | a minus sign negates the value, modulo 2^32 |
| `Strtol.BaseChosen` | lib/libc/stdlib.c:220-234 | base 0 stands for 16 behind 0x, for 8 behind another 0, and for 10 else |
| `Strtol.HexSkipped` | lib/libc/stdlib.c:232-234 | base 16 skips 0x and 0X |
| `Strtol.NoPrefix` | lib/libc/stdlib.c:220-234 | no other base skips a prefix |
| `Convert.LowReads` | lib/libc/stdlib.c:236-252 | a text without a digit other than 0 reads as 0 |

## Left out

- Fs.FileSystem.Write: what C writes behind the buffer when the copy overruns it.
- Paging.Mapper.MapPage: the directory entry is always writable and never user-accessible in the source; only the entries of the tables are in the flat map.
- Convert.ReadLong: overflow wraps around as compiled code does, although C leaves signed overflow undefined.
- Convert.Itoa: bases outside 2 to 36 are not modelled; the source divides by zero, does not end, or leaves the letters. Negating the least int wraps around as compiled code does, although C leaves it undefined.
- Pmm.Manager.FreePages: what C reads behind the bits of the region when the scan leaves it; the model stops there and frees nothing.
- Pmm.Manager.GetStats: the counts do not wrap around; that takes more than 4096 regions.
- Single frames in the frame allocator: the search counts bits from the top of a word and the marking from the bottom, so the frame need not be free; page tables get an abstract fresh frame instead.
- Marking a range of frames as reserved in the frame allocator, and the dumps and messages of all three memory managers.
- Enabling paging and invalidating translations: hardware.
- The text built by the current-directory call of the file system, its listings and statistics; its walk up is modelled.
- Direct edits of the file table by the shell commands.
- Bracket expressions, FNM_PATHNAME and FNM_PERIOD in patterns.
- Vis.Stravis: what C does when the size of the buffer overflows, for strings of 2^29 bytes and more; and the form that stops at a byte 0 is the same on strings without one.
- Arc4.Context.constructor: an empty key, for which the source divides by zero.
- Null pointers where the source only returns at once: names and buffers here are always there.
- Augmentation hooks of the red-black tree, and the safe variants of the iteration macros.
- The other list kinds of queue.h: easier siblings of the tail queue.
- Floating point conversions, the wider integer conversions, and the small functions of stdlib.c.
- malloc and free, formatted output, string functions and the factor command: not needed for the properties above.
- Drivers, user interface, shell and kernel stubs.
