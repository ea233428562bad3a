# Buddy allocator in Dafny

This project models a small buddy allocator written in Rust (`src/main.rs`).
The allocator owns an arena of `heap_size` zero bytes. It also keeps a flat
vector of block descriptors (the struct `BlockDesc` of `src/main.rs:2-7`,
the datatype `BlockTree.BlockDesc`: free flag, size, start and end
offset) laid out breadth-first as a complete binary tree: node `i` has
children `2i+1` and `2i+2`. The Rust code is modelled as it is written,
including two behaviours a textbook buddy allocator would not have (see
"Code as written" below).

- `Math.dfy`, module `BuddyMath`: the integer helpers.
  - `get_adjusted_order` becomes the function `AdjustedOrder`: the
    smallest `k >= 2` with `2^k >= size`.
  - `get_level` becomes `Level`, the number of halvings from the heap size
    to a block size. The predicate `HalvesTo` says exactly when that loop
    terminates.
  - `get_block_range_start_end` becomes `BlockRange`, the index range of
    one tree level.
- `Tree.dfy`, module `BlockTree`: the block tree.
  - The tree exactly as the lazy construction builds it: `LateralNodes`,
    `Levels`, `FreshTree`, with each node's offsets in closed form through
    `NodeStart` and `NodeEnd`.
  - The first-fit scan `FirstFree` and the walk that marks ancestors used,
    `MarkPath`.
  - free's scan by start offset `FindStart` and its merge walk `Coalesce`.
- `Allocator.dfy`, module `Allocator`: the allocator.
  - `AllocSpec` and `FreeSpec` give the state after allocation and after
    free, with the panics as error results.
  - The class `BuddyAllocator` has the Rust struct's fields. Its methods
    follow the Rust loops and are proved equal to those functions.
  - The lemmas state what allocation and free guarantee.
- `Scenarios.dfy`, module `Scenarios`: the 16-byte heap of the original's
  tests. It covers the tree that is built and where each allocation lands.
  It also shows what free gives back and two consequences of the code that
  the tests do not exercise.

Code as written:
- **Node offsets.** The lateral construction loop grows `end` by the new
  `start` instead of by the block size. The ranges of a level therefore do
  not tile the heap. Node `j > 0` of a level of `s`-byte blocks starts at
  `2^(j-1)*s` and ends at `2^j*s - 1`. Only the first `l + 1` nodes of
  level `l` lie inside the arena (`NodeInArena`).
  - On a 16-byte heap the leaves are `0..3`, `4..7`, `8..15` and `16..31`.
  - Allocating the last leaf takes the arena slice `16..32` and panics
    (`FourthAllocOverruns`). The model returns `Err(ArenaOverrun)`, with
    the node and its ancestors already marked used.
- **No descendant marking.** Allocation marks the chosen node and its
  ancestors used, never its descendants. A smaller block can therefore be
  handed out inside a larger one that is already allocated
  (`AllocOverlaps`).

A textbook buddy allocator differs from this code in three ways. The model
follows the code in each:
- A textbook buddy allocator tiles each level over the arena, and the two
  children of a node bisect it. This code does not.
- A textbook buddy allocator makes a node unavailable when any of its
  descendants is allocated, and the descendants of an allocated node
  unavailable too. This code marks ancestors only, so a node's descendants
  stay free while the node itself is given out.
- A textbook buddy allocator keeps the buddy rule ("a parent is free
  exactly when both children are") after every operation. This code does
  not keep it in general. The round trip allocation-then-free is therefore
  proved for trees that obey the rule (`Consistent`). Every fresh tree
  obeys it (`FreshConsistent`). Requests of at most 4 bytes and frees of
  4-byte blocks keep it (`SmallAllocConsistent`, `FreeLeafConsistent`), so
  the round trip holds after any sequence of such calls.

The panics become error results. "Out of memory!" (request larger than the
heap) and "OOM" (no free node at the level) are `Err(OutOfMemory)`. The
out-of-range arena slice is `Err(ArenaOverrun)`. Allocation returns the
node's `(start, end)` offsets instead of a raw pointer. free takes a byte
offset and the type's size instead of a pointer and `size_of::<T>()`.

## Model

| member | source | states |
|---|---|---|
| BuddyMath.AdjustedOrderFrom | src/main.rs:168-176 | counting up from exponent i ends at an exponent k >= i with 2^k >= size, every exponent passed over being too small |
| BuddyMath.AdjustedOrder | src/main.rs:167-177 | the order is at least 2, 2^order holds the request, and no order from 2 up to it does: the smallest k >= 2 with 2^k >= size |
| BuddyMath.AdjustedOrderUnique | src/main.rs:167-177 | any exponent with those two properties is the order get_adjusted_order returns |
| BuddyMath.AdjustedOrderTight | src/main.rs:167-177 | requests of at most 4 bytes get order 2; above order 2 the next smaller power of two is too small for the request |
| BuddyMath.AdjustedOrderOfPow2 | src/main.rs:167-177 | a power of two 2^k with k >= 2 is rounded to k itself |
| BuddyMath.AdjustedOrderMonotone | src/main.rs:167-177 | a larger request never gets a smaller order |
| BuddyMath.Level | src/main.rs:179-187 | halving the heap size Level times gives the block size |
| BuddyMath.LevelFirst | src/main.rs:179-187 | no smaller number of halvings gives the block size: the loop stops at the first match |
| BuddyMath.Halve | src/main.rs:180-186 | a number halved with integer division, any number of times, never grows |
| BuddyMath.HalvesTo | src/main.rs:180-186 | a block size the heap halves down to is at most the heap size; HalvingReaches and Level show it is exactly when get_level terminates |
| BuddyMath.HalvingReaches | src/main.rs:179-187 | whenever some number of halvings reaches the block size, get_level's loop terminates |
| BuddyMath.LevelOfPow2 | src/main.rs:179-187 | in a heap of 2^n bytes a block of 2^m bytes is reachable and sits at level n - m; get_level(heap_size) is 0 |
| BuddyMath.LevelOfBlockSize | src/main.rs:179-187 | a reachable block size of at least 4 bytes is 2^(n - level) with level <= n - 2, a level of the built tree |
| BuddyMath.BlockRange | src/main.rs:189-192 | the range starts after all nodes of shallower levels, ends just before the next level, and covers exactly 2^level indices |
| BuddyMath.RoundDown | src/main.rs:89-91 | the rounded offset is at most the offset and less than one type size below it |
| BuddyMath.RoundDownDiv | src/main.rs:89-91 | dividing the offset by the type size and multiplying back rounds it down to a multiple of the type size |
| BlockTree.Parent | src/main.rs:153-157 | (j - 1) / 2 is the node whose children are 2p + 1 and 2p + 2, one of them j |
| BlockTree.Sibling | src/main.rs:107-113 | the buddy (i + 1 for odd i, i - 1 for even i) is another non-root node with the same parent |
| BlockTree.LateralNodes | src/main.rs:133-143 | the lateral loop pushes `count` descriptors, every one free and of the level's size (offsets in LateralNodesAt) |
| BlockTree.LevelNodes | src/main.rs:133-143 | one level holds 2^level descriptors, every one free and of the level's size (offsets in LevelNodesAt) |
| BlockTree.Levels | src/main.rs:132-146 | the first `levels` levels hold 2^levels - 1 descriptors (positions in LevelsAt) |
| BlockTree.LateralNodesAt | src/main.rs:133-143 | the lateral loop's j-th push is a free node of the level's size; after the first, it starts at 2^(j-1) and ends one before 2^j first-region lengths |
| BlockTree.LevelNodesAt | src/main.rs:133-143 | node j of a level of s-byte blocks is free, has size s and covers NodeStart(s, j) through NodeEnd(s, j) |
| BlockTree.LevelsAt | src/main.rs:132-146 | the level loop pushes level after level, so node j of level l sits at index 2^l - 1 + j |
| BlockTree.FreshTree | src/main.rs:127-147 | the built tree of a 2^order-byte heap has 2^(order-1) - 1 nodes: 7 for 16 bytes, 15 for 32 |
| BlockTree.FreshTreeAt | src/main.rs:127-147 | node j of level l of the built tree is free, has heap_size / 2^l bytes and the lateral loop's start and end |
| BlockTree.FreshTreeShaped | src/main.rs:127-147 | the built tree has an odd number of nodes and every node is free |
| BlockTree.NodeStartIncreasing | src/main.rs:139-142 | within a level the starts strictly increase, so no two nodes of a level share a start |
| BlockTree.NodeStartAligned | src/main.rs:139-142 | every start of a level is a multiple of the level's block size |
| BlockTree.NodeSpan | src/main.rs:139-142 | every node of a level covers at least one block of the level's size |
| BlockTree.NodeInArena | src/main.rs:139-142 | exactly the first l + 1 nodes of level l end inside the heap |
| BlockTree.FirstFree | src/main.rs:150-151 | the found index is inside the scanned range and its node is free |
| BlockTree.FirstFreeIsFirst | src/main.rs:150-160 | every node the scan passes over is in use, and with no find every node of the range is in use |
| BlockTree.MarkPath | src/main.rs:152-157 | the marking walk keeps the tree's length; its node-by-node effect is MarkPathAt |
| BlockTree.MarkPathAt | src/main.rs:152-157 | the marking walk makes node i and each of its ancestors not free and leaves every other node unchanged |
| BlockTree.MarkPathLayout | src/main.rs:152-157 | the marking walk changes no size, start or end |
| BlockTree.MarkPathKeepsAncestorsUsed | src/main.rs:152-157 | if every used node had a used parent before the walk, it still does after it |
| BlockTree.MarkPathConsistent | src/main.rs:152-157 | marking a leaf and its ancestors used keeps the buddy rule |
| BlockTree.FindStart | src/main.rs:96-101 | the found index is inside the scanned range and its node starts at the offset |
| BlockTree.FindStartIsFirst | src/main.rs:96-102 | no node the scan passes over starts at the offset, and with no find none in the range does |
| BlockTree.ShapedFindStart | src/main.rs:96-102 | in a tree with the built layout, scanning a level for the start of one of its nodes finds that very node |
| BlockTree.Coalesce | src/main.rs:104-122 | the merge walk keeps the tree's length; CoalesceAt bounds what it changes and CoalesceExact says exactly which ancestors it frees, on every tree |
| BlockTree.CoalesceAt | src/main.rs:105-122 | the merge walk changes only strict ancestors of the freed node, and only to free |
| BlockTree.CoalesceExact | src/main.rs:104-122 | on any tree, a strict ancestor a of the start node ends up free exactly when it was free or every buddy on the path from the start node up to a was free: the walk climbs while buddies are free and stops at the first one in use |
| BlockTree.CoalesceLayout | src/main.rs:105-122 | the merge walk changes no size, start or end |
| BlockTree.FreshConsistent | src/main.rs:127-147 | the built tree obeys the buddy rule and has no used node |
| BlockTree.CoalesceRestores | src/main.rs:104-122 | from a free node of a tree obeying the buddy rule whose ancestors were all marked used, the merge walk restores every ancestor's flag |
| BlockTree.MergeStep | src/main.rs:115-118 | one merge step, made when both buddies are free, sets the parent free and leaves the buddy rule broken at most at the parent's own pair, where a free grandparent still has a free uncle |
| BlockTree.MergeStop | src/main.rs:115-121 | when the buddy is in use the walk stops, and the buddy rule then holds at every node |
| BlockTree.CoalesceConsistent | src/main.rs:104-122 | from a free node at which alone the buddy rule may fail, the merge walk yields a tree obeying the rule |
| Allocator.Built | src/main.rs:127-147 | the tree get_block works on, built on first use or kept, has 2^(order-1) - 1 nodes |
| Allocator.BuiltShaped | src/main.rs:127-147 | the tree get_block works on, built now or earlier, has the construction's layout |
| Allocator.TakeFirst | src/main.rs:150-160 | with a free node found the tree is the marking walk from it; without one the tree is unchanged |
| Allocator.GetBlockSpec | src/main.rs:149-163 | get_block on the level keeps the tree's length and takes a node inside it; which node and what is marked is GetBlockFirstFit and GetBlockMarks |
| Allocator.GetBlockFirstFit | src/main.rs:149-163 | get_block takes a free node of the requested level with every node before it in use, and answers OOM exactly when the whole level is in use |
| Allocator.GetBlockMarks | src/main.rs:149-163 | get_block marks the taken node and its ancestors used and keeps every other node; after OOM nothing is marked |
| Allocator.GetBlockLayout | src/main.rs:149-160 | get_block changes free flags only |
| Allocator.TakenNode | src/main.rs:149-160 | the taken node keeps the start and end the construction gave its position in the level |
| Allocator.Grant | src/main.rs:53-60 | OOM exactly when no node was found; offsets exactly when the node's slice ends inside the arena; the slice panic otherwise |
| Allocator.AllocFrom | src/main.rs:53-60 | allocation at a level keeps the tree's length; when it fails and succeeds is AllocOutOfMemory and AllocInArena |
| Allocator.AllocSpec | src/main.rs:41-85 | a request whose rounded size exceeds the heap panics with "Out of memory!" before the tree is touched or built |
| Allocator.AllocBuildsFresh | src/main.rs:126-147 | on the unbuilt tree allocation behaves as on the freshly built one |
| Allocator.AllocShaped | src/main.rs:41-62 | allocation keeps the tree's layout or leaves it unbuilt |
| Allocator.AllocOutOfMemory | src/main.rs:150-163 | allocation fails with OOM exactly when every node of the level is in use, and then changes nothing |
| Allocator.AllocGrantsBlock | src/main.rs:41-62 | a granted block ends inside the arena, holds at least 2^k bytes and starts at a multiple of 2^k |
| Allocator.AllocInArena | src/main.rs:53-60 | the taken node is granted exactly when it is among the first l + 1 of its level l, and overruns the arena otherwise |
| Allocator.AllocKeepsAncestorsUsed | src/main.rs:150-157 | allocation keeps every used node's parent used |
| Allocator.AllocTaken | src/main.rs:149-160 | a successful allocation took a free node of its level, marked it and its ancestors used and returned its start |
| Allocator.FreeSpec | src/main.rs:87-124 | free keeps the tree's length; its effect is FreeEffect, and AllocFreeRoundTrip shows it undoes an allocation |
| Allocator.FreeBlock | src/main.rs:93-123 | free at one level keeps the tree's length; FreeBlockRange and FreeBlockFound say what it scans and frees |
| Allocator.FreeInRange | src/main.rs:95-123 | the scan and merge walk keep the tree's length; FreeRangeConsistent shows they keep the buddy rule at the leaves |
| Allocator.FreeTarget | src/main.rs:95-102 | free's scan either changes nothing or sets exactly the found node free |
| Allocator.FreeBlockLayout | src/main.rs:93-123 | free changes free flags only |
| Allocator.FreeShaped | src/main.rs:87-124 | free keeps the tree's layout |
| Allocator.FreeEffect | src/main.rs:93-123 | free with no node starting at the offset changes nothing; otherwise the found node becomes free, every other change is an ancestor becoming free, and a strict ancestor ends up free exactly when it was free or every buddy on the path up to it was free |
| Allocator.FreeBlockFound | src/main.rs:96-123 | when node i is the first of the level starting at the offset, free sets it free and runs the merge walk from it |
| Allocator.FreeOfPow2 | src/main.rs:88-93 | with a type size of 2^k, free works at the level of 2^k-byte blocks, on the offset itself when it is a multiple of 2^k |
| Allocator.FreeTaken | src/main.rs:87-124 | freeing the start of a node that allocation's walk has just marked restores a tree that obeys the buddy rule |
| Allocator.AllocFreeRoundTrip | src/main.rs:87-124 | free of the returned start with the rounded size restores the tree a successful allocation started from, when that tree obeys the buddy rule |
| Allocator.AllocFreeFresh | src/main.rs:334-349 | on a fresh heap, free of the first allocation's start restores the fresh tree |
| Allocator.FreeRangeConsistent | src/main.rs:95-123 | the scan and merge walk over a range of leaves keep the buddy rule |
| Allocator.AllocLeafConsistent | src/main.rs:149-160 | allocating a 4-byte leaf keeps the buddy rule |
| Allocator.FreeLeafConsistent | src/main.rs:87-124 | freeing with a 4-byte type size keeps the buddy rule |
| Allocator.SmallAllocConsistent | src/main.rs:41-62 | a request of at most 4 bytes, on an unbuilt tree or on one obeying the buddy rule, leaves a tree obeying it |
| Allocator.BuddyAllocator.constructor | src/main.rs:28-39 | a zeroed arena of heap_size bytes, 4-byte minimum blocks and no tree |
| Allocator.BuddyAllocator.GetAdjustedOrder | src/main.rs:167-177 | the counting loop returns AdjustedOrder(size) |
| Allocator.BuddyAllocator.GetLevel | src/main.rs:179-187 | the halving loop returns Level(heap_size, block_size) |
| Allocator.BuddyAllocator.BuildTree | src/main.rs:127-147 | an empty tree is built fresh; an existing tree is left as it is |
| Allocator.BuddyAllocator.BuildLevels | src/main.rs:128-146 | the level loop produces the fresh tree |
| Allocator.BuddyAllocator.PushLevel | src/main.rs:133-143 | the lateral loop appends the level's nodes |
| Allocator.BuddyAllocator.GetBlock | src/main.rs:126-165 | builds the tree if needed and then takes the first free node of the level of the requested size |
| Allocator.BuddyAllocator.GetBlockAt | src/main.rs:149-163 | the scan of one level, as GetBlockSpec |
| Allocator.BuddyAllocator.TakeFirstFree | src/main.rs:150-160 | the scan returns the first free node of the range, marked together with its ancestors |
| Allocator.BuddyAllocator.MarkUsedToRoot | src/main.rs:152-157 | the while loop marks node i and all its ancestors used |
| Allocator.BuddyAllocator.AllocWithSize | src/main.rs:41-85 | result and new tree are AllocSpec's, and the allocator stays valid |
| Allocator.BuddyAllocator.Free | src/main.rs:87-124 | the new tree is FreeSpec's, and the allocator stays valid |
| Allocator.BuddyAllocator.FreeAt | src/main.rs:93-123 | the scan and merge walk at one level |
| Allocator.BuddyAllocator.ScaledIndex | src/main.rs:89-91 | the arena index is the offset rounded down to a multiple of the type size |
| Allocator.BuddyAllocator.FreeStartingAt | src/main.rs:95-102 | the scan sets the first node starting at the index free and returns it, or returns 0 with nothing changed |
| Allocator.BuddyAllocator.CoalesceFrom | src/main.rs:104-123 | the while loop frees parents while buddies are free |
| Scenarios.AdjustedOrderCases | src/main.rs:206-212 | 19 and 32 round to order 5, 1 and 0 to order 2 |
| Scenarios.LevelCases | src/main.rs:215-231 | in a 16-byte heap sizes 2, 4, 8, 16 are levels 3, 2, 1, 0 with index ranges (7,14), (3,6), (1,2), (0,0) |
| Scenarios.Fresh16Layout | src/main.rs:241-255 | the 16-byte heap's tree has 7 nodes: (0,15), (0,7), (8,15), (0,3), (4,7), and then (8,15), (16,31) |
| Scenarios.Fresh32Size | src/main.rs:257-259 | the 32-byte heap's tree has 15 nodes |
| Scenarios.FirstAlloc | src/main.rs:262-300 | the first i32 gets bytes 0..3 (node 3); nodes 3, 1, 0 become used, node 4 stays free |
| Scenarios.SecondAlloc | src/main.rs:275-289 | the second i32 gets bytes 4..7 (node 4) |
| Scenarios.FreeFirst | src/main.rs:334-349 | freeing the first i32 frees nodes 3, 1 and 0: the tree is fresh again |
| Scenarios.AllocAfterFree | src/main.rs:302-317 | allocating again after that free takes node 3 once more |
| Scenarios.MergeToRoot | src/main.rs:104-122 | the merge walk from leaf 3 or 4 with only nodes 0 and 1 used frees both |
| Scenarios.FreeFirstOfTwo | src/main.rs:104-122 | with two i32s out, freeing the first stops at its used buddy: only node 3 becomes free |
| Scenarios.FreeSecondOfTwo | src/main.rs:104-122 | freeing the second then merges up to the root: the tree is fresh again |
| Scenarios.ThirdAlloc | src/main.rs:149-160 | a third i32 gets node 5, bytes 8..15, and marks node 2 |
| Scenarios.FourthAllocOverruns | src/main.rs:53-60 | a fourth i32 takes node 6, whose range 16..31 overruns the arena |
| Scenarios.AllocOverlaps | src/main.rs:149-160 | after 8 bytes at 0..7, a 4-byte request is still handed 0..3 inside them |
| Scenarios.TooLarge | src/main.rs:41-45 | a 17-byte request rounds to 32 bytes and fails before the tree is built |
| Scenarios.MarkPathUsed | src/main.rs:152-157 | the marking walk from node i marks exactly i and its ancestors |

## Left out

- `main`, the `println!` output, the raw-pointer results, the `unsafe` writes through them, and the little-endian test. Allocation returns offsets, and the arena's bytes are never written after the constructor zeroes them.
- `alloc` and `alloc_with_size` are one operation, `AllocWithSize`, because they differ only in where the size comes from. The type parameter and `std::mem::size_of::<T>()` become an explicit size argument.
- free's pointer difference `p - arena` is the `offset` parameter.
- Allocator.BuddyAllocator.AllocWithSize: requires a request of at most 2^30 bytes. Above that, `2i32.pow` overflows a signed 32-bit integer (and `size as i32` truncates). AllocSpec itself rounds over unbounded integers.
- Allocator.BuddyAllocator.constructor: requires a power-of-two heap of 4 to 2^32 bytes; only those heaps are modelled. Some other heaps still halve down to 4 (9, 17 to 19, 36 to 39, ...) and build a tree whose root is not a power of two; such trees are not modelled. The remaining heaps never halve to 4 (0 to 3, 5, 6, 12, ...) and make get_level loop forever when the tree is built. The bound 2^32 keeps every level's index range within the i32 arithmetic of get_block_range_start_end.
- Allocator.BuddyAllocator.Free: requires an already built tree and a type size that the heap size halves down to and that is at least 4. Otherwise the original panics indexing an empty or too short vector, divides by zero, or loops forever in get_level.
- Allocator.BuddyAllocator.BuildLevels: integers are unbounded, so the usize overflow of `end += start` is not modelled. On a 64-bit target this overflow panics in debug builds from heaps of 256 bytes on, when the last level's ends exceed 2^64.
- Allocator.AllocFreeRoundTrip: proved only for trees that obey the buddy rule. The code does not keep that rule in general, for example after overlapping allocations. Requests of at most 4 bytes and frees of 4-byte blocks keep the rule (`SmallAllocConsistent`, `FreeLeafConsistent`), so the round trip applies after any sequence of those.
- free's `target_index & 1` is modelled as the parity of the index. They agree on non-negative indices.
- No handling the code lacks: no splitting of larger blocks, no rejection of a double free or an unknown address, no configuration checks.
