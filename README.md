# Sparse voxel DAG: compaction, packed encoding and query

This project models the core of `DAG.cpp` from the Sparse-Voxel-DAGs renderer and proves properties about it in Dafny.

The model starts from a sparse voxel octree (SVO). Its branch levels are 0 .. L-3, and 64-bit leaf words form level L-2. Building the DAG has three parts:

- **Compaction.** Working bottom-up, each level is copied, sorted and deduplicated into a canonical level. Every parent slot is then redirected to the canonical node (or leaf word) equal to its old target. The root is copied last.
- **Packed encoding.** Each canonical branch level becomes one word buffer. Each node is one mask word followed by one reference per present child, in ascending octant order. On the leaf-parent level the references are the leaf pointers themselves. On the levels above, they are the packed addresses recorded in an address map while the level below was written.
- **Query.** `isSet` walks the packed levels along the base-8 digits of a Morton index, most significant first. At each node it tests the mask bit and follows the reference at offset 1 + popcount(mask bits below the octant). At the end it tests bit `morton % 64` of the leaf word it reaches.

Pointers become arena indices (`Octree.Ptr`):

- `Orig(slot)` points into the octree's own level buffer.
- `Unique(slot)` points into the canonical copy of the level.
- `Packed(offset)` points at a word of a packed level.

A ghost `Semantics.Heap` collects every buffer. `Semantics.Occupied` says which voxels a node at some level covers, so the octree, every stage of the compaction and the packed DAG are all read with one definition.

The central results:

- `Compaction.Compact` leaves a canonical DAG whose root covers exactly the voxels of the original root.
- `Dag.FillLevels` writes each packed level as `Packing.PackLevel` of that DAG.
- `Dag.DAG.IsSet` answers exactly `Occupied` for the original octree.

Each imperative pass of the source is a Dafny method with loop invariants over arrays: the counting and emitting loops, the in-place pointer rewrites, the sizing loop, the encoder loops and the query loop. Each method is proved against a pure function: `Dedup`, `RewriteLevel`, `LevelSize`, `EncodeLevel` or `Occupied`. The sorts are the exception: `std::sort` becomes `Canonical.SortedCopy`, which fills a fresh array with the pure insertion sort `Sort`, a function with the same result (a sorted permutation).

The model follows the code at the leaf rewrite (DAG.cpp:143): it skips leaves whose value is 0. Those slots keep their pointer into the octree's leaf buffer, so the all-zero word is not shared through `uniqueLeafs`. The model keeps that buffer (`octreeLeaves`), so such slots still read as empty.

The leaf-parent mask is different. The code at DAG.cpp:339-342 is modelled as written, and a counterexample shows it is wrong (see Findings). The packed DAG is then built with the corrected mask, the same one the upper levels use, which is the corrected half of that finding.

## Model

| member | source | states |
|---|---|---|
| Dag.NewDAG | DAG.cpp:9-28 | fails exactly when `numLevels <= 2`; otherwise gives a valid DAG with `size == 8^L`, `dimension == 2^L`, built from the given octree |
| Dag.DAG.constructor | DAG.cpp:9-28 | for `L >= 3` the object is `Valid()`: each packed level equals `PackLevel` of a heap that is `Compacted` from the original octree, and the leaf buffers are the canonical and original leaf words |
| Dag.Build | DAG.cpp:39-393 | every packed level, every level size and the leaf buffers agree with `Packs`: compaction followed by packing of the given octree |
| Compaction.Compact | DAG.cpp:39-275 | the new levels and `uniqueLeafs` are a canonical DAG. Each level k >= 1 is `Dedup(Sort(...))` of the rewritten octree level, and the leaves are `Dedup(Sort(leaves))`. The root is the rewritten root, and for every Morton index it is occupied exactly as the original root |
| Compaction.LeafPass | DAG.cpp:53-160 | `uniqueLeafs` is the sorted, deduplicated leaf level, and the leaf-parent level is the leaf rewrite of its old contents |
| Compaction.BranchPass | DAG.cpp:172-263 | `uniqueChildren` is the sorted, deduplicated child level, and the parent level is the branch rewrite of its old contents |
| Compaction.BranchPassAt | DAG.cpp:170-269 | one pass at level p changes only `newLevels[p+1]` (a fresh array) and `svo[p]`, and the new state is `StepHeap` of the old |
| Compaction.Down | DAG.cpp:170-269 | the state after the branch passes from parent level L-4 down to p+1, one `StepHeap` per level; the passes keep the number of levels |
| Compaction.PassStep | DAG.cpp:172-265 | one iteration of the bottom-up loop changes only `newLevels[p+1]` (a fresh array) and `svo[p]`, and takes the buffers from `Down` at p to `Down` at p-1 |
| Compaction.RunPasses | DAG.cpp:170-269 | the whole branch loop leaves the buffers holding `Down` at -1, the state after the pass at level 0 |
| Compaction.DownInv | DAG.cpp:170-269 | from the state before the pass at L-4, every state of the loop satisfies the invariant and canonicity at its level; at -1 every level is canonical, closed and redirected, and its meaning is preserved |
| Compaction.DownStep | DAG.cpp:172-265 | invariant and canonicity after the passes down to p+1 give them after the pass at p+1 |
| Compaction.DownShape | DAG.cpp:172-265 | before each pass its child level is non-empty and its parent slots are null or original indices into that level |
| Compaction.BranchPasses | DAG.cpp:164-275 | after the leaf pass and the branch loop, copying the root gives a `Compacted` heap |
| Compaction.CopyRoot | DAG.cpp:272-275 | `newLevels[0]` becomes a fresh one-node copy of the rewritten root, and the other levels are the same arrays |
| Compaction.LeafStep | DAG.cpp:53-164 | after the leaf pass, the invariant holds with the leaf-parent level redirected to canonical leaves and meaning preserved |
| Compaction.LeafNodeStep | DAG.cpp:133-160 | a rewritten leaf-parent node covers the same voxels as before the rewrite |
| Compaction.BranchNodeStep | DAG.cpp:234-263 | a rewritten branch node covers the same voxels as before, once the level below is canonical |
| Compaction.BranchStep | DAG.cpp:170-269 | one branch step preserves the compaction invariant |
| Compaction.BranchCanon | DAG.cpp:183-225 | the level just built is `Dedup(Sort(...))` of the rewritten child level, and earlier canonical levels are kept |
| Compaction.BranchParentsClosed | DAG.cpp:234-263 | after the rewrite every non-null parent slot is a `Unique` index into the canonical level below |
| Compaction.StepInv | DAG.cpp:170-269 | invariant and canonicity at p give invariant and canonicity at p-1 for `StepHeap` |
| Compaction.RootSem | DAG.cpp:272-275 | the copied root covers exactly the voxels of the octree's root |
| Compaction.RootClosed | DAG.cpp:272-275 | once the root is copied, the canonical levels form a closed, well-formed DAG with a one-node level 0 |
| Compaction.RootStep | DAG.cpp:272-275 | the invariant at p = -1 plus the root copy gives `Compacted` |
| Compaction.CompactedStrict | DAG.cpp:74-225 | in a compacted DAG every canonical level and the canonical leaf words are strictly increasing, so no level holds two equal nodes and no two leaf words are equal |
| Canonical.SortedCopy | DAG.cpp:75-76 | a fresh array holding `Sort` of the level (the `memcpy` + `std::sort` of the leaf and child levels) |
| Canonical.SortPermutation | DAG.cpp:76 | sorting is a permutation of its input |
| Canonical.SortSorted | DAG.cpp:76 | under a total order, the sorted copy is sorted |
| Canonical.CountUnique | DAG.cpp:88-95 | the count is 1 plus the number of adjacent unequal pairs |
| Canonical.EmitUnique | DAG.cpp:99-114 | the emitting loop writes exactly `Dedup` of the sorted copy, each run's first element |
| Canonical.Canonicalize | DAG.cpp:75-114 | the unique array is `Dedup(Sort(level))` |
| Canonical.DedupLength | DAG.cpp:88-95 | the number of distinct runs is 1 + the number of adjacent unequal pairs |
| Canonical.DedupMembers | DAG.cpp:107-114 | deduplication keeps exactly the values of its input |
| Canonical.DedupNeighboursDiffer | DAG.cpp:218-225 | no two neighbours of the deduplicated level are equal |
| Canonical.StrictFromNeighbours | DAG.cpp:200-225 | sorted with unequal neighbours means strictly increasing |
| Canonical.CanonicalLevel | DAG.cpp:75-114 | the canonical level is strictly increasing, holds exactly the distinct values of the level, and has length 1 + the adjacent unequal pairs |
| Canonical.CanonicalMembers | DAG.cpp:183-225 | the canonical level holds exactly the values of the level it was built from |
| Ordering.LeafLeTotalOrder | DAG.cpp:76 | numeric order on leaf words is a total order |
| Ordering.NodeLeTotalOrder | DAG.cpp:186 | lexicographic order over the eight child pointers is a total order on nodes |
| Ordering.PtrsLeAntisymmetric | DAG.cpp:186 | two pointer sequences ordered both ways are equal |
| Ordering.PtrsLeTransitive | DAG.cpp:186 | the lexicographic order is transitive |
| Rewrite.LastIndexOf | DAG.cpp:143-152 | the search without `break` finds the last equal entry. It finds none exactly when the value is absent |
| Rewrite.FindLast | DAG.cpp:246-255 | the search loop returns `LastIndexOf` of the array |
| Rewrite.RewriteLeafRef | DAG.cpp:137-157 | null stays null. A pointer to a non-zero value present in `uniqueLeafs` becomes the index of that value. A zero or missing value leaves the pointer unchanged (the guard at line 143) |
| Rewrite.RewriteLeafNode | DAG.cpp:135-158 | for every slot: null stays null. A slot whose leaf value is non-zero and among the unique leaves becomes `Unique(k)` with `unique[k]` equal to that value. A slot whose value is zero or missing is unchanged |
| Rewrite.RewriteLeafParents | DAG.cpp:133-160 | in place, every leaf-parent node becomes `RewriteLeafNode` of its old value |
| Rewrite.RewriteNodeRef | DAG.cpp:238-261 | null stays null. A pointer to a node present in `uniqueChildren` becomes the index of an equal node. Otherwise it is unchanged |
| Rewrite.RewriteNode | DAG.cpp:236-262 | for every slot: null stays null. A slot whose target node is among the unique nodes becomes `Unique(k)` with `unique[k]` equal to that node. Any other slot is unchanged |
| Rewrite.RewriteParents | DAG.cpp:234-263 | in place, every parent node becomes `RewriteNode` of its old value |
| Semantics.OccupiedFrame | DAG.cpp:428-451 | what a node covers depends only on the buffers of the levels below it |
| Encoding.CountPointers | DAG.cpp:294-304 | the loop counts the non-null child slots of a level |
| Encoding.EncodeLevelSize | DAG.cpp:306-312 | a packed level has one word per node plus one per present child |
| Encoding.EncodedNodeAt | DAG.cpp:362-391 | node i's run sits at its offset, the sum of the sizes of the nodes before it |
| Encoding.EncodedChildRef | DAG.cpp:373-381 | the reference of child d sits at offset + 1 + popcount of the mask below d, and names the child's target |
| Encoding.EncodeLevelInto | DAG.cpp:362-391 | succeeds exactly when every child resolves (`unordered_map::at` never misses). On success the buffer is `EncodeLevel` and the map sends each node to its packed offset |
| Encoding.EncodeRun | DAG.cpp:364-390 | one node's mask and run are appended at the cursor, and the cursor and address map advance by that node |
| Encoding.EncodeNodeAt | DAG.cpp:364-390 | writes `EncodeNode` at the given offset, exactly when the node's children resolve |
| Encoding.EncodeOctants | DAG.cpp:371-387 | the octant loop produces the mask `ChildMask` and the present references in ascending octant order |
| Encoding.EncodeOctant | DAG.cpp:373-386 | one octant either appends a resolved reference and sets bit j, or leaves both unchanged |
| Encoding.WriteRef | DAG.cpp:375-381 | writes the child's reference through the map, and fails exactly on a map miss |
| Encoding.WriteMask | DAG.cpp:390 | storing the mask completes the node's run |
| Encoding.EncodeLeafParentAsWritten | DAG.cpp:326-345 | the as-written leaf-parent run: one mask word with bit 0 clear, followed by the present leaf pointers in octant order, one word per present child |
| Encoding.LeafParentAsWrittenBits | DAG.cpp:326-345 | as written, the references agree with the intended encoding, but present child j sets mask bit 8-j and bit 0 is never set |
| Encoding.LeafParentAsWrittenCounterexample | DAG.cpp:333-343 | a node with only child 0 gets a mask whose bit 0 is clear, where the intended mask has it set |
| Packing.ClosedResolvable | DAG.cpp:377 | every child of a closed canonical level has an entry in the address map of the level below |
| Dag.SizeLevels | DAG.cpp:290-315 | each packed buffer has `LevelSize` words (nodes plus non-null pointers), and `sizeAtLevel[L-2]` is the number of unique leaves |
| Dag.PackLevels | DAG.cpp:290-393 | sizes and fills every level: each buffer is `PackLevel` of the canonical DAG |
| Dag.FillLevels | DAG.cpp:320-393 | bottom-up, every packed level is `PackLevel` of the canonical DAG |
| Dag.FillLeafParent | DAG.cpp:320-345 | the leaf-parent level is encoded with the leaf pointers as references and the intended mask, and yields its address map |
| Dag.FillLevel | DAG.cpp:351-391 | an upper level is encoded through the address map of the level below, and yields its own address map |
| Dag.QueryMask | DAG.cpp:440 | a node's mask word sits at its offset. Bit d is set exactly when child d is present, and an absent child means the voxel is empty |
| Dag.BranchChildRef | DAG.cpp:444 | the reference after the mask at position popcount-below-d is the packed address of child d in the level below |
| Dag.BranchChildOccupied | DAG.cpp:444-447 | descending into child d preserves what is occupied |
| Dag.LeafChildRef | DAG.cpp:444 | on the leaf-parent level the reference at popcount-below-d is the leaf pointer itself |
| Dag.LeafChildOccupied | DAG.cpp:449-450 | on the leaf-parent level the voxel is bit `morton % 64` of the leaf word child d points at |
| Dag.FollowOctant | DAG.cpp:438-447 | one step of the query: an unset bit answers false. Otherwise it follows the child, which covers the same voxel, down to a leaf pointer at the last level |
| Dag.Query | DAG.cpp:428-451 | the walk over the packed levels returns exactly `Occupied` at the canonical root |
| Dag.DAG.IsSet | DAG.cpp:428-451 | `isSet(morton)` is exactly whether the voxel is set in the original octree |
| Dag.DAG.GetChildPointer | DAG.cpp:454-468 | returns the word at 1 + popcount of the mask bits below `index` after the node |
| Dag.DAG.GetNumChildren | DAG.cpp:598-609 | the corrected count is the popcount of the eight mask bits |
| Dag.DAG.GetNumChildrenAsWritten | DAG.cpp:598-609 | as written (the bitwise or of `toOr` and `mask` is tested), the count is always 8 |
| Dag.NumChildrenCounterexample | DAG.cpp:604-606 | for a node with exactly one child, the popcount is 1, while the as-written count is 8 |
| Bits.TestBitOr | DAG.cpp:379 | bit i of the bitwise or of a and b is set exactly when it is set in a or in b |
| Bits.TestBitPow2 | DAG.cpp:375 | `1 << k` has exactly bit k set |
| Bits.IsChildSet | DAG.cpp:558-564 | `isChildSet(mask, i)` holds exactly when `(mask / 2^i) % 2 == 1`, the arithmetic meaning of `mask & (1 << i)` being non-zero |
| Bits.IsLeafSet | DAG.cpp:545-550 | `isLeafSet(leaf, i)`, for i < 64, holds exactly when `(leaf / 2^i) % 2 == 1` |
| Bits.ChildMaskAsWritten | DAG.cpp:333-343 | the mask built by or-ing in 1 for a present child and shifting left once per octant fits in one bit more than the octants seen, and always has bit 0 clear |
| Bits.ChildMaskBits | DAG.cpp:371-387 | bit i of the mask is set exactly when child i is present |
| Bits.ChildMaskAsWrittenBits | DAG.cpp:328-343 | the as-written leaf-parent mask has bit 8-j set exactly when child j is present, and bit 0 clear |
| Bits.ChildMaskAsWrittenUpToBits | DAG.cpp:333-343 | after n octants, bit b of the as-written mask is set exactly when child n-b is present |
| Bits.PopcountBelowChildMask | DAG.cpp:458-464 | the popcount of the mask below j counts the present children before j |
| Bits.PopcountOffsetLaw | DAG.cpp:454-468 | the present-child run has popcount(mask) entries, and entry popcount-below-j is child j |
| Bits.PopcountChildMask | DAG.cpp:598-609 | the popcount of a node's mask is its number of present children |
| Digits.FirstDigit | DAG.cpp:434-436 | `morton / 8^(L-1)` is the first base-8 digit |
| Digits.NextDigit | DAG.cpp:445-447 | `(morton % modBy) / divBy` is the next digit, with `divBy` divided by 8 |
| Digits.LastScale | DAG.cpp:438-449 | the loop leaves at the leaf-parent level with `modBy == 64` |
| Digits.DigitAtIs | DAG.cpp:445-447 | the k-th base-8 digit is `(x / 8^k) % 8` |

## Left out

- Console and file output is not modelled: the `cout`/`cerr` tracing in `build`, `printLevels`, `printMask` and `writeImages` (DAG.cpp:471-595). It has no effect on the data.
- Floating point is not modelled: `voxelWidth`, `boundingBox.square()` (DAG.cpp:25-26), `Triangle.cpp` geometry and the bounding-box code of `OBJFile.cpp`.
- File input is not modelled: `OBJFile.cpp` parsing and `Main.cpp`.
- The SVO builder and voxeliser are not modelled. `SparseVoxelOctree.hpp` holds no logic for them. Their output is the `OctreeShape` precondition: level sizes in ratio 8:1, and slots that are null or index the level below.
- `mortonCode(x, y, z)` is not shown in the sources. `IsSet` takes the Morton index as its argument, with `morton < 8^L`.
- Byte-level memory is not modelled. `malloc`/`memcpy` sizes and the `sizeof(void*) == 8` behind the `/ 8` (DAG.cpp:307-312) become word counts. Raw pointers become arena indices. The packed levels have typed words (`Mask` or `Pointer`) instead of reinterpreted 64-bit slots.
- The internals of `std::sort` are not modelled. The sort is an insertion sort with the same result: a sorted permutation.
- The internals of `unordered_map` are not modelled. It is a Dafny `map`; a miss in `at` (DAG.cpp:377) is the `ok == false` result of the encoder. The model proves that a miss cannot happen on a compacted DAG.
- `SVONode`'s `<`, `==` and `!=` are not shown in the sources. They are modelled as equality of the eight child pointers and lexicographic order over them, where two pointers compare first by kind (`Null` < `Orig` < `Unique` < `Packed`, `Ordering.PtrRank`) and then by slot or offset (`Ordering.PtrKey`). Another total order gives levels of the same sizes that are equal up to a renumbering of slots and have the same meaning. The order of entries, the `Unique` indices that point at them and the packed offsets depend on the order chosen.
- Fixed widths are not modelled. `unsigned int` counters, `int divBy = pow(8, L-1)` and `1 << j` are 32-bit in the source. The model uses unbounded integers, and so does not model the overflow for large `numLevels`. Leaf words and masks are values below 2^64.
- `updateCount`, and the `foundUpdate` flag that is never reset per slot (DAG.cpp:233), only feed diagnostics and are not modelled.
- `DAG.hpp` and `SparseVoxelOctree.hpp` are stale headers with no logic. `DAG.cpp` is taken as the definition.
- Whether the octree's own leaf buffer outlives `build` (the zero-valued leaf slots that DAG.cpp:143 keeps still point into it) depends on `SparseVoxelOctree`'s destructor, which is not shown. The model keeps that buffer as `octreeLeaves`.

## Findings

| source | as written | input that shows it | evidently intended | confidence | as-written member | corrected member |
|---|---|---|---|---|---|---|
| DAG.cpp:326-345 | the leaf-parent mask is built by or-ing 1 into `mask` for a present child, then `mask <<= 1` for every octant, so child j lands on bit 8-j | a leaf-parent node whose only child is octant 0: its mask is 256 with bit 0 clear, so `isChildSet(node, 0)` is false and the voxel reads as empty | bit j set for present child j, as on the upper levels (`1 << j`, DAG.cpp:375) and as `getChildPointer` and `isSet` read it | not executed | Encoding.LeafParentAsWrittenCounterexample | Bits.ChildMaskBits |
| DAG.cpp:598-609 | `getNumChildren` tests the bitwise or of `toOr` and `mask`, which is never zero | a node with exactly one child (mask 1): the count is 8 | `toOr & mask`, the number of present children | not executed | Dag.NumChildrenCounterexample | Dag.DAG.GetNumChildren |

Both halves of each finding are in the model:

- **Leaf-parent mask.**
  - As written: `Encoding.EncodeLeafParentAsWritten`, with `Bits.ChildMaskAsWrittenBits` and `Encoding.LeafParentAsWrittenBits` stating its bit layout.
  - Corrected: the packed DAG uses `Encoding.EncodeNode` with `Bits.ChildMask` on every level (`Dag.FillLeafParent`), and that is what `Dag.DAG.IsSet` is proved correct against.
- **Child count.**
  - As written: `Dag.DAG.GetNumChildrenAsWritten`.
  - Corrected: `Dag.DAG.GetNumChildren`, with `Bits.PopcountChildMask` relating its result to the number of present children.
