# Merkle file system: a verified model

The file system keeps a Merkle tree beside every file and updates it on every write. This project models
the three parts that have to agree for the stored tree to be right, and proves that they do, or exactly
when they do not.

* **The hash** (`fuse/src/merkle_tree/sha3.c`). `Keccak` and `Sponge` state Keccak-f[1600] and SHA3 as in
  FIPS 202, sections 3.2, 3.3, 4, 5.1 and 6.1. The second half of `Keccak` is the in-place permutation,
  `Sha3` the streaming context; both are proved to compute the standard's functions. `Streaming` holds the
  context as a value, and the theory of cutting a message into pieces. `NodeDigest` is the hexadecimal
  string that a node stores, and `HexPrint` says when it can be told from others.
* **The tree** (`fuse/src/merkle_tree/merkletree.c`). `MerkleSpec` says what a tree is (`NodeHash`, a
  recursion over node numbers); `MerkleTrees` has the class whose methods build and rebuild the node array
  in place; `RebuildSpec` explains why re-hashing one path or one range per level is enough;
  `ParallelSpec` is the thread state machine of the parallel build; `TreeText` and `TreeStrings` print and
  parse; `SlotTable` is the table of strings that is walked by string length. The tree code takes the two
  hash functions as a parameter (`Hasher`), so all its theorems hold for any hash; `PrefixBinding` says
  what the real one binds.
* **The maintenance** (`fuse/src/merkle_tree/parse.c` and `bb_write` in `fuse/src/bbfs.c`). `Pages` and
  `TreeSizes` lay a file out as leaves, `Maintenance` has the full builds, the one-page update, the
  doubling and the page-range update, `FileSystem` the write operation with the stored attribute.
  `WriteSpec` says what one write does to the leaves, and `Runs` what whole runs of writes keep.

Methods follow the code's loops and in-place updates and are proved against functions; the lemmas are
about those functions. Node arrays are allocated with all pointers `Unset`, and reading an `Unset` pointer is
a precondition violation, so a verified call never reads one. A function that a method calls and its specification uses, too,
has a law of its own that does not name its formula, such as `Keccak.ChiInBits` or `TreeText.DecimalReadsBack`.

## What was found

`Runs.WriteAll` gives the file and the stored text after any run of writes for which the code is defined.
The main theorem (`Runs.RunStaysFresh`) is that after any run of good writes this is the printed tree of a
fresh build over the whole file. Whether a write is good depends only on sizes (`Runs.GoodWrite`): it must
keep up with the file and be defined. `Runs.RunIsExact` shows that this is exact: if any other write is
defined and ends in the right tree, the leaf hash maps two given different strings to the same value; and
`WriteSpec.DefinedExactly` shows what an undefined update of a tree reads. `Runs.FreshByLastHash` covers all
defined runs, good or bad: the stored tree is right exactly when every leaf was last hashed from what its
page is now, or a leaf shows such a collision. Concrete failing writes:

* `Runs.FilledPageIsCut`: an unaligned write that fills the last page. The page is copied with room for
  PAGE_LENGTH - 1 characters only, and the tree does not change.
* `Runs.NoLeafForLastPage`: an unaligned write that runs over a full row of leaves. The growth test counts
  full pages only, so the update fails and the attribute stays as it was.
* `Runs.PartOfAPage`: an aligned write of part of a page. Its leaf becomes the hash of the buffer alone.
* `Runs.ComesBackToTheFirstLeaf`: the range rebuild hashes the first leaf again, which has no data in a
  tree that was parsed from text (`FileSystem.MerkleFile.ReadTree`). The code reads unwritten memory there.
* A first build of exactly eight pages with eight threads shifts by -1 (`FileSystem.EightThreads`).
* A full build of more than 2^30 bytes computes 2^31 in an int (`Runs.TooLargeToBuild`,
  `Pages.BuildFitsUpTo`), and so does the range update for a write from page 0 to page 2^15 - 1
  (`Runs.TooLongForRange`, `WriteSpec.RangeFitsUnless`). An aligned write of 2^20 characters or more does not
  fit into the memory that a leaf has for its data.
* A wrong leaf stays wrong until its page is touched or everything is built again
  (`WriteSpec.UntouchedLeaf`).
* A node is hashed from the first 32 characters of each child, although a hash has up to 64, so the root
  binds only those (`PrefixBinding.RootBindsPrefixes`; an instance is `PrefixBinding.TailIsLost`).
* Digests are printed without leading zeros, so two digests can print alike
  (`NodeDigest.ShortPrintIsAmbiguous`). A digest prints like no other exactly when all its bytes are below 16,
  or no digit can move from one byte to the next (`HexPrint.UniqueExactly`).

The comment in `parse.c` says that a new tree is computed when the file has more pages than the tree can
contain; the code counts full pages only. The model follows the code.

## Model

| member | source | states |
|---|---|---|
| Keccak.RotlIsRotation | fuse/src/merkle_tree/sha3.c:48-52 | for every offset that keccakf uses, the two shifts and the or are the rotation of a 64-bit word |
| Keccak.RoundConstantTable | fuse/src/merkle_tree/sha3.c:54-67 | each of the 24 table entries is the round constant that the shift register of FIPS 202 section 3.2.5 generates |
| Keccak.RotcIsTheOffset | fuse/src/merkle_tree/sha3.c:69-72 | entry t of the rotation table is the rho offset of section 3.2.2 for the lane that the walk leaves at step t |
| Keccak.PilnIsTheWalk | fuse/src/merkle_tree/sha3.c:74-77 | the lane table lists the lanes in the order of the walk (x, y) to (y, 2x + 3y) |
| Keccak.FusedIsRhoThenPi | fuse/src/merkle_tree/sha3.c:99-106 | moving every lane one step along the table with its rotation is rho on all lanes at once, followed by pi |
| Keccak.WalkOn | fuse/src/merkle_tree/sha3.c:101-106 | one turn of the single-temporary loop stores one lane and keeps the displaced one; all lanes not yet visited are untouched |
| Keccak.ThetaInBits | fuse/src/merkle_tree/sha3.c:89-97 | bit by bit, as FIPS 202 section 3.2.1 defines theta: bit (x, y, z) is flipped by the parities of columns (x - 1, z) and (x + 1, z - 1) |
| Keccak.ChiInBits | fuse/src/merkle_tree/sha3.c:108-114 | bit by bit, as section 3.2.4 defines chi: bit (x, y, z) is flipped where bit (x + 1, y, z) is 0 and bit (x + 2, y, z) is 1 |
| Keccak.XorBit | fuse/src/merkle_tree/sha3.c:178-211 | adding a word to the sponge is the exclusive or of every bit |
| Keccak.ThetaInPlace | fuse/src/merkle_tree/sha3.c:89-97 | the two in-place loops give theta of the old state |
| Keccak.RhoPiInPlace | fuse/src/merkle_tree/sha3.c:99-106 | the loop gives pi of rho of the old state |
| Keccak.ChiInPlace | fuse/src/merkle_tree/sha3.c:108-114 | the loop gives chi of the old state, although rows are overwritten as it goes |
| Keccak.KeccakInPlace | fuse/src/merkle_tree/sha3.c:82-119 | for every state, the array becomes 24 rounds of iota, chi, pi, rho, theta of the old array |
| Sponge.PaddingInBits | fuse/src/merkle_tree/sha3.c:230-257 | the padding bytes are the suffix 01 followed by pad10*1 of section 5.1, also when 0x06 and 0x80 share a byte |
| Sponge.BytesOfLittle | fuse/src/merkle_tree/sha3.c:165-206 | the bytes of a word, as Finalize takes them out, are the bytes that Update put into it, each whole and in its place, and zeros after them |
| Sponge.LittleIsInjective | fuse/src/merkle_tree/sha3.c:165-206 | different strings of the same length, up to eight bytes, give different words |
| Sponge.ByteAtIsShift | fuse/src/merkle_tree/sha3.c:165-165 | byte k of a word is the byte shifted by 8 * k |
| Streaming.AbsorbConcat | fuse/src/merkle_tree/sha3.c:142-228 | Update(a) and then Update(b) leave the same context as Update(a + b) |
| Streaming.AbsorbByte | fuse/src/merkle_tree/sha3.c:142-228 | every byte keeps byteIndex below 8, wordIndex below the rate and nothing in `saved` above its bytes |
| Streaming.PositionCounts | fuse/src/merkle_tree/sha3.c:145-227 | 8 * wordIndex + byteIndex is the number of absorbed bytes modulo the rate |
| Streaming.AbsorbInsideWord | fuse/src/merkle_tree/sha3.c:159-168 | bytes that do not complete a word only go into `saved` |
| Streaming.AbsorbRestOfWord | fuse/src/merkle_tree/sha3.c:170-187 | bytes that complete a word add `saved` with them to the sponge |
| Streaming.WordAtIsMergeAll | fuse/src/merkle_tree/sha3.c:198-216 | eight bytes read at once are the word that saving them one by one gives |
| Streaming.AbsorbBlock | fuse/src/merkle_tree/sha3.c:198-216 | a whole block through the words is one xor of the block and one permutation |
| Streaming.FinishPadsTheBlock | fuse/src/merkle_tree/sha3.c:234-258 | Finalize on a partly filled block permutes the state xored with the padded block |
| Streaming.StreamingIsTheSponge | fuse/src/merkle_tree/sha3.c:142-258 | for every message, start state and capacity, streaming and finishing is the sponge over the padded message |
| Sha3.Sha3Context.Init256 | fuse/src/merkle_tree/sha3.c:124-128 | the empty context with capacity 512 bits |
| Sha3.Sha3Context.Init384 | fuse/src/merkle_tree/sha3.c:130-134 | the empty context with capacity 768 bits |
| Sha3.Sha3Context.Init512 | fuse/src/merkle_tree/sha3.c:136-140 | the empty context with capacity 1024 bits |
| Sha3.Sha3Context.Update | fuse/src/merkle_tree/sha3.c:142-228 | the context after the call is the old one fed with all bytes of the buffer, whatever was saved before |
| Sha3.Sha3Context.Finalize | fuse/src/merkle_tree/sha3.c:234-284 | the 200 bytes returned are the state bytes, little end first, of the finished context |
| Sha3.Hash256 | fuse/src/merkle_tree/merkletree.c:72-76 | for every way to cut a message into Update calls, the first 32 bytes are SHA3-256 of the message |
| NodeDigest.BytesAreTheString | fuse/src/merkle_tree/merkletree.c:73-98 | the hash sees every character of a string, in its place, as a byte |
| NodeDigest.BytesOfIsInjective | fuse/src/merkle_tree/merkletree.c:73-98 | different strings are hashed from different bytes |
| NodeDigest.HexAll | fuse/src/merkle_tree/merkletree.c:75-78 | printing n bytes with "%x" gives n to 2n hexadecimal digits, no other characters |
| NodeDigest.HexReadsBack | fuse/src/merkle_tree/merkletree.c:76 | what is printed for a byte reads as its value in base 16, without a zero in front |
| HexPrint.UniqueExactly | fuse/src/merkle_tree/merkletree.c:75-78 | for every digest: no other of its length prints alike exactly when all its bytes are below 16, or no digit can move from a byte to the next (a byte below 16 that has a successor is 0, and a byte from 16 on that is followed by one below 16 ends in 0) |
| HexPrint.RigidIsLeast | fuse/src/merkle_tree/merkletree.c:75-78 | when no digit can move, any other bytes with the same print are more bytes |
| HexPrint.FullPrintIsUnique | fuse/src/merkle_tree/merkletree.c:75-78 | in particular, a digest that prints with two digits for every byte prints like no other digest of its length |
| NodeDigest.ShortPrintIsAmbiguous | fuse/src/merkle_tree/merkletree.c:75-78 | without leading zeros, two different digests can print alike, whatever their other bytes |
| NodeDigest.DigestString | fuse/src/merkle_tree/merkletree.c:97-105 | the loop over the digest gives the printed SHA3-256 of the string |
| NodeDigest.HashLeaf | fuse/src/merkle_tree/merkletree.c:88-108 | the constant for " ", and for any other data the printed SHA3-256 of its bytes |
| NodeDigest.HashPair | fuse/src/merkle_tree/merkletree.c:59-79 | the printed SHA3-256 of the first 32 characters of the left child followed by those of the right child |
| MerkleSpec.HashDownStep | fuse/src/merkle_tree/merkletree.c:33-40 | when all nodes above i are right, clearing and hashing node i finds its inputs, succeeds and makes node i right |
| MerkleSpec.LocalIsGlobal | fuse/src/merkle_tree/merkletree.c:45-85 | an array is the tree over its leaves exactly when every inner node is the combination of its children |
| MerkleSpec.Binding | fuse/src/merkle_tree/merkletree.c:59-79 | equal roots of two trees of the same size mean equal leaf hashes everywhere, or a node shows two different pairs of children with one combination |
| MerkleSpec.AgreeBelow | fuse/src/merkle_tree/merkletree.c:59-79 | without such a pair, agreement at any node goes down to every node below it |
| MerkleSpec.DoublingKeepsNodes | fuse/src/merkle_tree/parse.c:353-384 | node i at depth d of the old tree is node i + 2^d of the doubled tree, so the old root is the new node 2 |
| MerkleSpec.DifferencesExact | fuse/src/merkle_tree/merkletree.c:380-393 | compare_trees reports a node exactly when it and all its ancestors from the start differ |
| MerkleSpec.ReportedInOrder | fuse/src/merkle_tree/merkletree.c:384-389 | the nodes come from the top down, everything below a left child before anything below its right neighbour |
| MerkleSpec.ReportedOnce | fuse/src/merkle_tree/merkletree.c:380-393 | no node is reported twice |
| MerkleSpec.ReportedLeaves | fuse/src/merkle_tree/merkletree.c:379-393 | from the root, a leaf is reported exactly when the leaf hashes differ, or the combination has a collision inside the trees |
| PrefixBinding.RootBindsPrefixes | fuse/src/merkle_tree/merkletree.c:64-79 | with the real hash, equal roots mean equal first 32 characters of all leaf hashes or a collision of digests cut to 32 characters; and equal first 32 characters always mean equal roots |
| PrefixBinding.TailIsLost | fuse/src/merkle_tree/merkletree.c:64-79 | two concrete rows of leaf hashes that differ in the 33rd character of one hash have the same root |
| SlotTable.NextSlot | fuse/src/merkle_tree/merkletree.c:15-26 | stepping by the length of the string just read, a reader stands at the next string, or at the NULL after the last |
| MerkleTrees.MerkleTree.HashNode | fuse/src/merkle_tree/merkletree.c:45-114 | -1 and no change beyond the tree, for a missing child or missing data; otherwise exactly node i gets the hash of its children or of its data |
| MerkleTrees.MerkleTree.BuildTree | fuse/src/merkle_tree/merkletree.c:5-43 | the array is the tree over the strings in the slot table, or -1 if there are too few |
| MerkleTrees.MerkleTree.HashDown | fuse/src/merkle_tree/merkletree.c:33-42 | with the nodes above `top` right, the loop makes the whole array the tree and never takes its error return |
| MerkleTrees.MerkleTree.SetTreeDatas | fuse/src/merkle_tree/merkletree.c:120-144 | leaf k carries string k of the slot table and no hash, or -1 if there are too few |
| MerkleTrees.MerkleTree.MBuildTree | fuse/src/merkle_tree/merkletree.c:146-194 | for a power of two of threads with at least two leaves each, and any scheduling, the array is the same tree that BuildTree gives |
| MerkleTrees.MerkleTree.MHashNodes | fuse/src/merkle_tree/merkletree.c:196-216 | an arbitrary scheduler over the shared array ends with every node from 2 * threads on right, and ends |
| ParallelSpec.BlocksDisjoint | fuse/src/merkle_tree/merkletree.c:159-179 | no node belongs to two threads or to two levels |
| ParallelSpec.ChildrenInBlock | fuse/src/merkle_tree/merkletree.c:206-213 | what a thread reads above the leaves is in its own block one level below |
| ParallelSpec.BlocksCover | fuse/src/merkle_tree/merkletree.c:158-191 | every node from 2 * threads on belongs to some thread, so the root loop has exactly the rest |
| ParallelSpec.LaunchSizes | fuse/src/merkle_tree/merkletree.c:153-178 | the divisions and logarithms of m_build_tree give two subtree roots per thread as the start of the root loop, and nothing is left over for the last thread |
| ParallelSpec.InputsReady | fuse/src/merkle_tree/merkletree.c:206-209 | whenever a thread calls hash_node, the node is in its block, its inputs are written and right, and the call succeeds |
| ParallelSpec.StepKeepsInv | fuse/src/merkle_tree/merkletree.c:196-216 | any step of any thread, also one that leaves a hash half written, keeps the invariant of all threads |
| ParallelSpec.ScheduleIndependence | fuse/src/merkle_tree/merkletree.c:146-216 | for every interleaving, when all threads have finished, every node from 2 * threads on has the hash of the sequential build; before that no thread is ever stuck |
| ParallelSpec.StepWorks | fuse/src/merkle_tree/merkletree.c:206-213 | every step of an unfinished thread leaves less work, so every schedule that goes on ends |
| RebuildSpec.PathGoesUp | fuse/src/merkle_tree/merkletree.c:368-373 | if only the path above a node can be stale, hashing that node leaves only the path above its parent |
| RebuildSpec.ParentsAreCovered | fuse/src/merkle_tree/merkletree.c:354-356 | the range index/2 with k/2 + 1 nodes covers all parents, and exceeds them by at most one node, exactly when index and k are even |
| RebuildSpec.FirstLeafIsReached | fuse/src/merkle_tree/merkletree.c:348-357 | the second row reaches the first leaf exactly when the changed leaves are even in number, start at an even node and end with the last leaf |
| RebuildSpec.FirstLeafIsRead | fuse/src/merkle_tree/merkletree.c:348-357 | then, if that leaf has no data, the last hash_node call of the row reads a pointer that was never written |
| RebuildSpec.SecondRow | fuse/src/merkle_tree/merkletree.c:348-357 | after the leaves, the second row finds everything it reads exactly when it does not come back to a first leaf without data |
| RebuildSpec.LevelUp | fuse/src/merkle_tree/merkletree.c:348-357 | one turn of the outer loop makes a whole level right again, and hashing the extra node changes nothing |
| RebuildSpec.LevelStep | fuse/src/merkle_tree/merkletree.c:349-352 | every hash_node call of such a turn finds its children and succeeds |
| MerkleTrees.MerkleTree.HashLevels | fuse/src/merkle_tree/merkletree.c:343-359 | re-hashing a range per level ends in the tree over the old leaves with the range replaced, or -1 if the range leaves the tree |
| MerkleTrees.MerkleTree.HashPath | fuse/src/merkle_tree/merkletree.c:368-374 | the walk to the root ends in the tree with one leaf replaced, and changes no node off that path |
| MerkleTrees.MerkleTree.ChangeAndRebuild | fuse/src/merkle_tree/merkletree.c:331-377 | file mode ends in the tree that a full build over all changed leaves gives, buffer mode in the tree with the last of the given leaves changed, the only one whose path it hashes; -1 exactly if the last index is outside the tree |
| MerkleTrees.CompareTrees | fuse/src/merkle_tree/merkletree.c:380-393 | for any two arrays of hashes, the nodes printed, in order, and termination |
| MerkleSpec.TreeHasHashes | fuse/src/merkle_tree/merkletree.c:45-114 | an array holds a tree exactly when it holds, node by node, all the hashes of that tree, so what is compared is the trees |
| TreeText.TokensOfJoin | fuse/src/merkle_tree/merkletree.c:284-293 | splitting joined tokens gives the tokens back |
| TreeText.JoinOfTokens | fuse/src/merkle_tree/merkletree.c:284-293 | joining the tokens of a string without empty fields gives the string back |
| TreeText.SplitAccounting | fuse/src/merkle_tree/merkletree.c:269-295 | the counted size always has room for the tokens, and is their number plus one exactly for a non-empty string with no delimiter that has nothing before it |
| TreeText.TextRoundTrip | fuse/src/merkle_tree/merkletree.c:238-325 | splitting the text of a tree at commas and each entry at its colon gives every hash back, with a first field that reads as the number of its node, and no assertion fails |
| TreeText.DecimalReadsBack | fuse/src/merkle_tree/merkletree.c:247 | what is printed for a number reads as the number, without a zero in front |
| TreeText.TextIsInjective | fuse/src/merkle_tree/merkletree.c:238-257 | two trees with the same text have the same hashes |
| TreeStrings.TreeToString | fuse/src/merkle_tree/merkletree.c:238-257 | for any array of hashes, whether or not they make a tree, the text lists every node once, in order, without a comma at the end |
| TreeStrings.CountElements | fuse/src/merkle_tree/merkletree.c:269-281 | the counting loop computes delimiters plus one or two, as the last character decides |
| TreeStrings.StrSplit | fuse/src/merkle_tree/merkletree.c:259-299 | the tokens of the string; both assertions hold exactly when the string is splittable |
| TreeStrings.StringToTree | fuse/src/merkle_tree/merkletree.c:301-325 | node i + 1 gets the second field of entry i and no node gets data; size and height follow from the number of entries |
| TreeStrings.PrintedIsParseable | fuse/src/merkle_tree/merkletree.c:238-325 | the text of any hashes parses, and the second field of each entry is the hash of its node |
| TreeStrings.ParseTree | fuse/src/merkle_tree/merkletree.c:301-325 | parsing the text of any list of hashes, whether or not they make a tree, restores their number, the height and every hash in its place |
| TreeSizes.SmearStep | fuse/src/merkle_tree/parse.c:6-10 | or-ing a number with itself shifted by j doubles the number of ones at its top |
| TreeSizes.OrInBits | fuse/src/merkle_tree/parse.c:7-11 | the or of two numbers is the or of every bit |
| TreeSizes.TreeSizeIsLeast | fuse/src/merkle_tree/parse.c:3-14 | the tree size is the least power of two that is at least n, and less than 2n, so fewer than half the leaves are padding |
| TreeSizes.ComputeTreeSize | fuse/src/merkle_tree/parse.c:3-14 | for every int: the least power of two for 1 to 2^30, 0 for 0 and almost all negative numbers, and the overflowed 2^31 for the rest |
| Pages.Page | fuse/src/merkle_tree/parse.c:57-67 | a page is not empty, has at most PAGE_LENGTH characters, and only the last one can be shorter |
| Pages.PageCountInCode | fuse/src/merkle_tree/parse.c:16-43 | full pages plus one unless the last page is full is the number of pages rounded up |
| Pages.PagesAreTheFile | fuse/src/merkle_tree/parse.c:57-67 | the pages in order are the file, nothing lost and nothing twice |
| Pages.SlotWritten | fuse/src/merkle_tree/parse.c:57-73 | a string written where the cursor stands keeps all strings before it readable |
| Pages.ParseFile | fuse/src/merkle_tree/parse.c:45-84 | for every file up to 2^30 bytes, the table holds full pages, then the partial page, then " " for every leaf without a page, where a reader that steps by length finds them; every product is an int and the cursor is back at 0 |
| Pages.BuildFitsUpTo | fuse/src/merkle_tree/parse.c:49-53 | the number of leaves times PAGE_LENGTH is an int exactly for files up to 2^30 bytes |
| Maintenance.GetBiggerTree | fuse/src/merkle_tree/parse.c:353-384 | the new array is the tree over the old leaf hashes and as many blank leaves, one level higher |
| Maintenance.RootCalculation | fuse/src/merkle_tree/parse.c:339-351 | from leaves that are hashed, the whole tree, and its text |
| Maintenance.ComputeMerkle | fuse/src/merkle_tree/parse.c:24-115 | for every file up to 2^30 bytes, where the int products of the code are defined, the text of the tree over the pages of the file, padded with " " to the least power of two |
| Maintenance.MComputeMerkle | fuse/src/merkle_tree/parse.c:117-210 | the same text, up to the same size, with any power of two of threads, for files with too few pages for the threads or two leaves for each |
| WriteSpec.RangeIsTouched | fuse/src/merkle_tree/parse.c:234-238 | the computed page range is exactly the pages that meet the written bytes |
| Maintenance.ReadRange | fuse/src/merkle_tree/parse.c:247-277 | the table of new data holds the touched pages, where the rebuild reads them; the last one is cut to PAGE_LENGTH - 1 characters |
| Maintenance.UpdateRange | fuse/src/merkle_tree/parse.c:240-286 | -1 if a touched page has no leaf, otherwise the text of the tree with the touched leaves replaced |
| WriteSpec.CutPage | fuse/src/merkle_tree/parse.c:263-272 | the copied last page is the page exactly when it is not a full one |
| Maintenance.PagesInNeed | fuse/src/merkle_tree/parse.c:212-291 | a full build if there are more full pages than leaves, -1 if a touched page has no leaf, otherwise the tree with the touched leaves replaced |
| Maintenance.QuickChange | fuse/src/merkle_tree/parse.c:293-337 | for a buffer of less than the 2^20 bytes that a leaf has for its data: -2 for an unaligned write, -1 for a page beyond twice the leaves, otherwise the tree, doubled if needed, with one leaf replaced by the hash of the buffer |
| WriteSpec.UntouchedPage | fuse/src/bbfs.c:350 | a page that does not meet the written bytes is unchanged, and existed before |
| WriteSpec.WrittenIsThere | fuse/src/bbfs.c:350 | after any write, aligned or not, the written characters stand where they were written |
| WriteSpec.AlignedUpdate | fuse/src/merkle_tree/parse.c:293-329 | an aligned write on a fresh tree, of less than the 2^20 bytes that a leaf has for its data, gives the fresh tree of the new file exactly when the buffer is the whole new page, or a leaf collision is shown |
| WriteSpec.RangeUpdate | fuse/src/merkle_tree/parse.c:212-282 | an unaligned write for which the code is defined gives the fresh tree exactly when it forces a full build or ends in the file's last page, not full, with a leaf; or a leaf collision is shown |
| WriteSpec.DefinedExactly | fuse/src/merkle_tree/merkletree.c:343-359 | in a tree without leaf data, an unaligned update is defined exactly when its sizes are ints and the second row of the range rebuild finds all it reads; if the row does not, its last hash_node call is on the first leaf and reads a data pointer that was never written |
| WriteSpec.RangeFitsUnless | fuse/src/merkle_tree/parse.c:220-253 | the sizes of the file buffer and of the table of pages are ints except for a file of 2^31 - 1 bytes or a write from page 0 to page 2^15 - 1 |
| WriteSpec.FreshAgain | fuse/src/bbfs.c:359-378 | both together: the exact condition for one defined write to keep the stored tree that of a fresh build |
| WriteSpec.NextLeaf | fuse/src/bbfs.c:359-387 | for every defined write on any tree, the number of leaves after it, which leaves get a new hash and from which string, and that all others keep theirs |
| WriteSpec.UntouchedLeaf | fuse/src/bbfs.c:359-378 | from any tree, after a defined write without a full build a leaf whose page was not touched has its old hash, so a wrong one stays wrong |
| FileSystem.EightThreads | fuse/src/bbfs.c:384 | the first build with eight threads has two leaves for each, or takes the single-threaded build, exactly when the file is not eight pages long; if it is, the shift of m_build_tree is by -1 |
| FileSystem.NextIsPow2 | fuse/src/bbfs.c:359-387 | every defined update, from any tree, leaves a tree with a power of two of leaves, so it can be parsed again |
| FileSystem.MerkleFile.ReadTree | fuse/src/bbfs.c:359-363 | the stored text parses to the tree it describes, in which no leaf has data |
| FileSystem.MerkleFile.Write | fuse/src/bbfs.c:338-391 | the file is overwritten, and the attribute is the text of the tree that the chosen update gives, for right and for wrong trees |
| Runs.WriteAll | fuse/src/bbfs.c:359-387 | after any run of writes for which the code is defined, good or bad, the file has all of them and the attribute is the text of the tree that the run of updates gives, through growth, printing and parsing at every step |
| Runs.LastWriteWins | fuse/src/bbfs.c:350 | after any run, a character of the file is the one that the last write over it brought, or the old one |
| Runs.RunStaysFresh | fuse/src/bbfs.c:359-387 | over every run of good writes, at every point of it, the stored tree is that of a fresh build over the whole file |
| Runs.RunIsExact | fuse/src/bbfs.c:359-387 | after a good run, one more write is defined and keeps the stored tree fresh exactly when it is good, or a leaf collision is shown; writes whose sizes overflow an int are not defined |
| Runs.LeavesAreTexts | fuse/src/bbfs.c:359-387 | after any defined run, leaf j is the hash of the string that the last write that hashed this leaf took for it |
| Runs.FreshByLastHash | fuse/src/bbfs.c:359-387 | after any defined run, good or bad, the stored tree is that of a fresh build exactly when there is a leaf for every page and each was last hashed from what its page is now, or a leaf shows a collision |
| Runs.PageByPage | fuse/src/bbfs.c:359-387 | writing any file front to back, one page at a time, is a good run and ends with the tree of the file |
| Runs.FilledPageIsCut | fuse/src/merkle_tree/parse.c:263-272 | a concrete write that fills the last page and leaves the old tree, for any hash |
| Runs.NoLeafForLastPage | fuse/src/merkle_tree/parse.c:228-231 | a concrete write that runs over a full row of leaves and leaves a tree of half the size, for any hash |
| Runs.PartOfAPage | fuse/src/merkle_tree/parse.c:295-329 | a concrete aligned write of part of a page whose leaf becomes the hash of the buffer alone |
| Runs.ComesBackToTheFirstLeaf | fuse/src/merkle_tree/merkletree.c:343-357 | a concrete write that would keep up, but for which, in every parsed tree of the file, hash_node is called on the first leaf and reads its unwritten data pointer |
| Runs.TooLargeToBuild | fuse/src/merkle_tree/parse.c:49-53 | two concrete writes that would keep up, a first one and an unaligned one that forces a full build, whose build computes 2^31 in an int |
| Runs.TooLongForRange | fuse/src/merkle_tree/parse.c:247-253 | a concrete unaligned write that would keep up, whose table of pages has a size of 2^31 |
| Runs.CountsFit | fuse/src/merkle_tree/merkletree.c:10-12 | over any run a tree has at most 2^16 leaves, so node numbers are ints |

## Left out

- All other operations of bbfs.c, the mounting code and the log: wrappers around system calls.
- Truncation: it changes files without touching the tree at all.
- Errors of the system: failing or short pwrite, fopen, getxattr, setxattr, malloc and pthread_create, the
  limits on the size of an attribute, and attributes that something else wrote.
- Writes behind the end of a file: they leave NUL characters, and the code measures pages with strlen.
- NUL characters in general: pages, the write buffer, the file buffer, the text of the attribute and the 64
  bytes that are hashed for an inner node are taken to end where their length says. The code writes no
  terminating NUL for the last four.
- Empty files: a full build of one takes the logarithm of 0, which is undefined; a write never meets one.
- Int overflow in the tree code: the page code computes in `Int`, but node numbers and the running totals of
  string lengths are unbounded. Sizes are below 2^31; node numbers then fit (`Runs.CountsFit`), and the totals
  do, because a full build has at most 2^30 characters of pages and 2^14 of padding.
- Freeing a tree: free_merkle reads the data pointers of all leaves, which in a parsed tree were never written,
  after every successful update with two or more leaves. `Defined` is about the update itself and leaves this
  read out.
- MerkleTrees.MerkleTree.MBuildTree: does not model thread counts that are not powers of two, or one leaf
  per thread, because the code then shifts by a negative number or leaves nodes unhashed.
- MerkleTrees.MerkleTree.MHashNodes: threads interleave between two atomic steps of hash_node, one that
  reads the inputs and clears the hash and one that stores it; creation and join are the begin and end of
  the loop. Weak memory is not modelled, and is not needed, because no thread reads what another writes.
- Sha3.Sha3Context.Finalize: the code converts the state in place, in a union; here the bytes are a new array.
- TreeStrings.StrSplit: the hidden position of strtok, and the lock around its only use, are a local variable.
- FileSystem.MerkleFile.Write: does not model the free of a result that a failed update never set.
- The logarithm is the integer one; the code takes the floating-point logarithm of powers of two.
- That the constant for " " is its SHA3-256 hash; it is a constant of the model, too.
- Memory: sizes of allocations other than the node array, the slot tables and the data of a leaf, and that the
  file mode stores pointers to the page copies where the buffer mode copies the string.
- Printing a single hash or a whole tree.
