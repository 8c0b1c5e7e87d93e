# A verified model of the database's storage, search and expression cores

The repository is a small relational database. This project models the data structures and algorithms its queries
stand on, in the form the C code gives them, and proves what they promise:

| part | files | original |
|---|---|---|
| B+ tree, the index behind every table | Sequences, BPlusNode, BPlusMoves, BPlusLevels, BPlusTree, BPlusRuns | BPlusTreeLib/BPlusTree.c |
| AVL tree with parent pointers | AvlShape, AvlTree | Tree/avl.c |
| page memory allocator, intrusive list, page bitmap | Glthreads, PageTiles, FreeQueues, Allocators, AllocatorRuns, Pager | mem_allocator, gluethread, disk_io/pager.cpp |
| expression compiler | ExpressionGrammar, Stacks, ExpressionCompiler, ExpressionParser, ExpressionPipeline, ExpressionLaws | Parsers, stack |
| join executor | Rows, JoinExecutor | core/qep.c |
| chained hash table and its deleting iterator | HashTables, HashTableIterators | c-hashtable |

Objects the C code updates in place are classes here, and their methods run the same loops and recursions. Next to the
mutable fields stands a ghost value (levels of nodes, a tree with a hole, a tiling of the page, chains of entries), and
every method is proved against it. The main results are about whole operations and whole runs.

## What the model takes for granted

* B+ tree: keys are integers standing for the ranks of keys in the comparator's order; `Compare` is positive when its
  first argument is the smaller, as the comparators here are. Number 0 is what the zero-filled key of a slot never
  written compares as; with `rdbms_key_comp_fn` (core/sql_utils.c:22-23) no real key compares equal to it.
  `MaxChildNumber` is 4, as `BPlusTree_init` sets it. The inline slot arrays are fields of fixed-length sequences; slots
  beyond `key_num` keep their old contents, as in the original.
* AVL tree: nodes compare like integer keys; balance and parent are separate fields (Tree/avl.c:23-67).
* Allocator: memory is a map from addresses to block headers; pages lie at positive addresses and do not overlap;
  53 and 4 are the packed sizes of a header and of the field before the first one.
* Pager: a bitmap word is 64 booleans, most significant first; the number of words is arbitrary.
* Expressions: numbers are reals, and `sin`, `sqrt` and `pow` are given functions. A line ends with an end-of-line
  lexeme, every lexeme has positive length, there are at most 512 lexemes, and neither conversion ever needs more than
  the stack's 256 slots (`push` lets a 257th element past its array, stack/stack.c:69-72); a line of at most 256
  operators and 256 operands never does.
* Join: at least one table; no stored record is the null pointer; WHERE implies each table's own predicate, and for a
  single table the two agree. Predicates are functions of the records.
* Hash table: equal keys have equal numbers; the hash is any function of the key, its mixing included; the load limit
  is 65% of the length rounded up exactly; allocation succeeds.

## Where the code does not do what its documentation or callers expect

* An emptied B+ tree keeps its last key in slot 0 of the root, and the slot is read without asking whether it is
  occupied. Inserting that key is refused although it is absent, and deleting it again hands its record to `free_fn` a
  second time and makes `key_num` -1. `InsertRecord` and `DeleteRecord` state the exact condition (`Stale`).
  `BPlusRuns` says for every run of requests what each is answered and in which state it leaves the tree: a run is
  answered as by a map throughout if and only if no request names the key whose deletion emptied the tree while it is
  still empty (`RunIsMap`), and exactly a deletion of that key breaks the tree (`BrokenExactly`). The bytes of that key
  were released before they are compared again (BPlusTreeLib/BPlusTree.c:490-492); "refused" and "broken" presume that
  they still compare equal.
* A failed allocation has already taken the largest free block off the free list
  (mem_allocator/mem_allocator.cpp:177-181). `AllocMem` states that the list loses exactly that block, that nothing else
  changes, and that a complete list is complete afterwards if and only if the allocation succeeded or the list was empty;
  `FailedAllocation` is a run that loses the only block. Putting the page away and mapping it again brings the block back
  (`Remap`).
* `allocator_is_vm_page_empty` asks for the page's block to be alone in the list of all pages, so an empty page is
  reported as not empty whenever another page has a listed free block, and `uapi_mem_free` does not give it back then
  (mem_allocator/mem.cpp:86-90). `IsPageEmpty` states exactly that.
* `F` falls off its end without a result when a unary function name is not followed by `(`
  (Parsers/ExpressionParser.c:190-207). The parsing functions have a third outcome for that, which passes through to their
  callers; the reference parse says exactly when it comes, and `CallsOpen` is sufficient for it not to.
* The limit is always 0: the parser recognises a limit clause and stores nothing (Parsers/SQLSelectParserCFG.c:62-83), and
  the only assignment in the plan is of 0 (core/qep.c:304). The row loop is proved for any value of the field.
* The hash table's header promises that growing reverses the order of entries with equal keys. That is what `Expand`
  does, and it is proved; a search for a repeated key therefore finds the newest value or the oldest, depending on how
  often the table has grown since.

## Model

| member | source | states |
|---|---|---|
| BPlusNodes.Node.BinarySearch | BPlusTreeLib/BPlusTree.c:37-53 | finds the last slot whose key is not above the key, 0 when there is none; an empty node is searched too |
| BPlusNodes.Node.InsertSlot | BPlusTreeLib/BPlusTree.c:120-126 | shifting opens one slot: the node's entries are the old ones with the pair put in at that place |
| BPlusNodes.Node.RemoveSlot | BPlusTreeLib/BPlusTree.c:288-292 | shifting closes one slot; on an empty node the count becomes -1; a last key stays in slot 0 |
| BPlusMoves.Resort | BPlusTreeLib/BPlusTree.c:152-198 | two neighbours share their entries evenly, in order, and every moved child names its new father |
| BPlusMoves.Absorb | BPlusTreeLib/BPlusTree.c:243-256 | merging: the left node holds both nodes' entries, in order, and every moved child names its new father |
| BPlusTrees.BPlusTree.constructor | BPlusTreeLib/BPlusTree.c:17-34 | a new tree is valid and is the empty map |
| BPlusTrees.BPlusTree.MoveTail | BPlusTreeLib/BPlusTree.c:69-86 | splitting moves the upper half of a full node to a new node and re-fathers the moved children |
| BPlusTrees.BPlusTree.NewRoot | BPlusTreeLib/BPlusTree.c:88-102 | a split root gets a new root over the two halves, which are linked if they are leaves |
| BPlusTrees.BPlusTree.Split | BPlusTreeLib/BPlusTree.c:67-108 | from a tree with one overfull node to a valid tree with the same records, through any cascade, which ends |
| BPlusTrees.BPlusTree.LinkNew | BPlusTreeLib/BPlusTree.c:127-146 | a new leaf in a slot of its father that is not the first makes the leaf chain the leaf level again; Insert only comes here with such a slot |
| BPlusTrees.BPlusTree.LinkAfter | BPlusTreeLib/BPlusTree.c:131-139 | the new leaf enters the doubly linked leaf chain at its place |
| BPlusTrees.BPlusTree.Insert | BPlusTreeLib/BPlusTree.c:111-149 | an insertion due at position p of the leaf order yields a valid tree whose records have the pair at position p and are otherwise the old ones |
| BPlusTrees.BPlusTree.FindForInsert | BPlusTreeLib/BPlusTree.c:323-338 | the leaf the key belongs to; separators above the key are lowered to it on the way and nothing else changes |
| BPlusTrees.BPlusTree.Find | BPlusTreeLib/BPlusTree.c:323-338 | the one leaf in which the key can be |
| BPlusTrees.BPlusTree.InsertRecord | BPlusTreeLib/BPlusTree.c:374-382 | succeeds exactly when the key is absent and not the stale key of an emptied tree; then the map gains the pair, otherwise nothing changes; the tree stays valid |
| BPlusTrees.BPlusTree.CorrectPath | BPlusTreeLib/BPlusTree.c:303-314 | after a node lost its first key, every separator that was that key equals its child's minimum again |
| BPlusTrees.BPlusTree.Unlink | BPlusTreeLib/BPlusTree.c:293-302 | the merged-away leaf leaves the leaf chain |
| BPlusTrees.BPlusTree.ShrinkRoot | BPlusTreeLib/BPlusTree.c:214-221 | a root left with one child gives way to it; the records are the same |
| BPlusTrees.BPlusTree.EvenOut | BPlusTreeLib/BPlusTree.c:227-242 | borrowing from either brother repairs the node and the father's separator; the records are the same |
| BPlusTrees.BPlusTree.MergeInto | BPlusTreeLib/BPlusTree.c:243-276 | merging with either brother and deleting the emptied node from the father gives a valid tree with the same records |
| BPlusTrees.BPlusTree.Redistribute | BPlusTreeLib/BPlusTree.c:213-278 | from a tree with one node one short to a valid tree with the same records; the only-child branch is never reached |
| BPlusTrees.BPlusTree.Delete | BPlusTreeLib/BPlusTree.c:281-318 | deleting slot i of a leaf removes that one record from the leaf order and keeps every invariant, through any cascade of merges |
| BPlusTrees.BPlusTree.DeleteFromEmpty | BPlusTreeLib/BPlusTree.c:285-315 | on an empty root leaf the deletion leaves the count at -1 and hands what slot 0 still holds to free_fn |
| BPlusTrees.BPlusTree.DeleteRecord | BPlusTreeLib/BPlusTree.c:474-493 | valid afterwards if and only if the key was not stale; then the map is the old one minus the key, which for an absent key is the old one; free_fn gets the record under the key, or for a stale key the left-over one; the deletion that empties the tree makes its key stale |
| BPlusTrees.BPlusTree.QueryKey | BPlusTreeLib/BPlusTree.c:385-410 | the map's value under the key, or NULL |
| BPlusTrees.BPlusTree.NextRecord | BPlusTreeLib/BPlusTree.c:512-550 | from position p of the leaf order the next call delivers record p + 1, and after the last one NULL and a rewound cursor |
| BPlusTrees.BPlusTree.ScanAll | BPlusTreeLib/BPlusTree.h:74-100 | the scan delivers every record once, in key order |
| BPlusTrees.BPlusTree.QueryRange | BPlusTreeLib/BPlusTree.c:413-448 | visits one stretch of the leaf order, exactly the records with l <= key <= r, in order, and counts them |
| BPlusTrees.NodeInvariant | BPlusTreeLib/BPlusTree.h:25-34 | in every valid tree: sorted slots, at least 2 and at most 3 entries in a node below the root, father.key[i] is child[i].key[0], fathers are right, leaves at one depth, next and last are inverse |
| BPlusTrees.KeyOrder | BPlusTreeLib/BPlusTree.h:74-100 | in every valid tree the records come by strictly rising keys, and they are exactly the map's |
| BPlusRuns.Serve | BPlusTreeLib/BPlusTree.c:374-493 | one request takes the tree from any caller-visible state to the next and answers as that state says; the tree is one afterwards exactly when the next state is not the broken one |
| BPlusRuns.Run | BPlusTreeLib/BPlusTree.c:374-493 | any sequence of insertions, queries and deletions on a new tree is answered as the abstract states before each request say, and the tree returned is in the state after the last one served; the run only ends early when the tree is broken, and then its root has key_num -1 |
| BPlusRuns.BrokenExactly | BPlusTreeLib/BPlusTree.c:480-493 | a run breaks the tree if and only if some request deletes the left-over key of an empty tree |
| BPlusRuns.RunIsMap | BPlusTreeLib/BPlusTree.c:374-493 | for every run: all answers are a plain map's and a tree is left, if and only if no request inserts or deletes the left-over key of an empty tree |
| BPlusRuns.ReinsertionRefused | BPlusTreeLib/BPlusTree.c:378-380 | the run insert k, delete k, insert k: the second insertion is refused though the map is empty |
| BPlusRuns.RecordFreedTwice | BPlusTreeLib/BPlusTree.c:281-318 | the run insert k, delete k, delete k: free_fn gets the same record twice, and the tree is broken |
| AvlShape.FibonacciBound | Tree/avl.c:168-173 | a balanced tree of height h, -1 when empty, has at least Fib(h + 3) - 1 nodes |
| AvlShape.FibDoubles | Tree/avl.c:168-173 | that bound at least doubles every second level: the height is logarithmic in the number of nodes |
| AvlTrees.AvlTree.constructor | Tree/avl.c:566-574 | a new tree is valid and empty, of height -1 |
| AvlTrees.AvlTree.RotateLeft | Tree/avl.c:174-194 | rotating a subtree in any surroundings keeps all links right, root pointer included |
| AvlTrees.AvlTree.RotateRight | Tree/avl.c:196-216 | the mirror image of rotate_left |
| AvlTrees.RotationOrder | Tree/avl.c:174-216 | a rotation does not change the order of the nodes |
| AvlTrees.AvlTree.GetFirst | Tree/avl.c:119-124 | the leftmost node of a subtree, with nothing before it |
| AvlTrees.AvlTree.GetLast | Tree/avl.c:126-131 | the rightmost node of a subtree, with nothing after it |
| AvlTrees.AvlTree.Next | Tree/avl.c:143-153 | the element after the given one in the whole tree's order, or NULL |
| AvlTrees.AvlTree.Prev | Tree/avl.c:155-165 | the element before the given one, or NULL; undoes Next |
| AvlTrees.AvlTree.Walk | Tree/avl.c:133-153 | first and then next, until NULL, is the whole order |
| AvlTrees.AvlTree.DoLookup | Tree/avl.c:223-250 | the node with the key, or the hole where it belongs, all smaller keys before and all larger after it, and the deepest unbalanced node above it |
| AvlTrees.AvlTree.Lookup | Tree/avl.c:252-259 | a node with the key if the tree has one, and otherwise NULL |
| AvlTrees.AvlTree.AdjustUpwards | Tree/avl.c:298-308 | correcting balances from the new node up to the deepest unbalanced node makes every balance below it right and leaves all above it right |
| AvlTrees.AvlTree.FixGrownRight | Tree/avl.c:316-343 | case 2: the subtree gets back the height it had before its right side grew, in the same order |
| AvlTrees.AvlTree.FixGrownLeft | Tree/avl.c:344-371 | the mirror image |
| AvlTrees.AvlTree.DoubleLeft | Tree/avl.c:322-341 | the two rotations balance a subtree whose right side is too high on its inner side, in every case of the inner balance |
| AvlTrees.AvlTree.DoubleRight | Tree/avl.c:350-369 | the mirror image |
| AvlTrees.AvlTree.Settle | Tree/avl.c:310-373 | whatever balance the correction left at the deepest unbalanced node, the closing case distinction makes the whole tree balanced with at most two rotations, its order unchanged, and the cached height the true one |
| AvlTrees.AvlTree.Insert | Tree/avl.c:270-374 | the node already there, the given one included, and then nothing changes; or the new node, put at one place of the order, and the tree is a balanced search tree again with right height, first and last, after at most two rotations |
| AvlTrees.AvlTree.FixRightHeavy | Tree/avl.c:468-498 | the cases 3.1 to 3.3: the subtree is balanced in the same order, and is lower than before exactly when its right child was not evenly balanced |
| AvlTrees.AvlTree.FixLeftHeavy | Tree/avl.c:507-537 | the mirror image |
| AvlTrees.AvlTree.StepRemove | Tree/avl.c:455-538 | one round at a node one of whose sides became lower: the subtree is balanced, in the same order, and the loop goes on exactly when it became lower itself |
| AvlTrees.AvlTree.RebalanceUp | Tree/avl.c:455-540 | stopping at the first subtree that keeps its height leaves the whole tree balanced and the cached height true; at most two rotations per level |
| AvlTrees.AvlTree.CutOut | Tree/avl.c:390-401 | a node with at most one child is replaced by that child |
| AvlTrees.AvlTree.SpliceIn | Tree/avl.c:403-430 | a node with two children is replaced by its successor, which leaves its own place to its right subtree; order and links are right |
| AvlTrees.AvlTree.LeaveEnds | Tree/avl.c:385-388 | first and last are the extremes of the order without the node |
| AvlTrees.AvlTree.Remove | Tree/avl.c:376-541 | exactly the given element leaves the order, and the tree is a balanced search tree again with right height, first and last, after at most two rotations per level |
| AvlTrees.AvlTree.Replace | Tree/avl.c:543-564 | the new node takes the element's place in the order, and every invariant is kept |
| Glthreads.GlueMemory.AddNext | gluethread/glthread.c:43-62 | the node is linked in behind the given one; nodes elsewhere are untouched |
| Glthreads.GlueMemory.Remove | gluethread/glthread.c:86-107 | the node leaves its list and is loose; a node in no list stays as it is |
| Glthreads.GlueMemory.PriorityInsert | gluethread/glthread.c:148-196 | the node goes behind all it does not come before, up to the first that it does come before, in each of the four cases |
| Glthreads.GlueMemory.DequeueFirst | gluethread/glthread.c:198-207 | the first node, taken out, or NULL from an empty list |
| PageTiles.NothingLost | mem_allocator/mem_allocator.h:85-92 | headers, user bytes and gaps of a tiled page sum to the page |
| PageTiles.AllFree | mem_allocator/mem_allocator.cpp:63-76 | a tiled, coalesced page without allocated blocks is the single block of a new page |
| PageTiles.TakenTiled | mem_allocator/mem_allocator.cpp:125-171 | cutting an allocation out of a free block keeps the page tiled and coalesced, with or without a rest |
| PageTiles.FreedCoalesced | mem_allocator/mem_allocator.cpp:192-254 | taking the gap back and merging with both neighbours keeps the page tiled and leaves no two free neighbours |
| PageTiles.FreedAt | mem_allocator/mem_allocator.cpp:230-250 | freeing swallows exactly the free neighbours; every other block stays as it is |
| PageTiles.Disjoint | mem_allocator/mem_allocator.cpp:159-167 | the bytes of two blocks overlap neither each other nor a header |
| FreeQueues.EnqueuedAt | mem_allocator/mem_allocator.cpp:8-24 | in a sorted list, the place of a new block: every block before it is at least as large, every block after it is smaller |
| FreeQueues.InTurn | mem_allocator/mem_allocator.cpp:52-61 | of two blocks listed one after the other, the earlier stands before the later exactly when it is at least as large |
| FreeQueues.HeadInTurn | mem_allocator/mem_allocator.cpp:173-178 | at the head of the list stands the block that has been listed longest among the largest |
| FreeQueues.ExceptQueue | mem_allocator/mem_allocator.cpp:147-149 | blocks that leave the list do not change the order of the others |
| Allocators.LargestFirst | mem_allocator/mem_allocator.cpp:8-24 | worst fit: with every free block listed, the first one suffices exactly when some free block does |
| Allocators.LiveTaken | mem_allocator/mem_allocator.cpp:173-190 | an allocation adds one region in use, at an address no region had |
| Allocators.LiveFreed | mem_allocator/mem_allocator.cpp:256-264 | a release takes exactly its own region away |
| Allocators.LiveDisjoint | mem_allocator/mem_allocator.cpp:173-190 | a region in use overlaps no other block's header or bytes, on any page |
| Allocators.NothingLive | mem_allocator/mem_allocator.cpp:63-76 | a page with nothing in use is the single free block it was initialised with |
| Allocators.Allocator.AddToFreeList | mem_allocator/mem_allocator.cpp:52-61 | the block enters the list at one place: every block before it is at least as large, every block after it is strictly smaller; so equally large blocks stand in the order in which they were listed |
| Allocators.Allocator.SplitFreeBlock | mem_allocator/mem_allocator.cpp:125-171 | the free block is cut to size; the rest is listed, behind its equals, if a header fits into it; headers, links and list agree |
| Allocators.Allocator.AllocMem | mem_allocator/mem_allocator.cpp:173-190 | fails exactly when the list is empty or its largest block too small, and then only the list has lost that block; otherwise a region of the requested size behind its header is in use, cut from the block that had been listed longest among the largest; and every other region still is |
| Allocators.Allocator.Dequeue | mem_allocator/mem_allocator.cpp:176-180 | the block taken off the list: none listed is larger, and every one listed before it is strictly smaller |
| Allocators.Allocator.UnionFreeBlocks | mem_allocator/mem_allocator.cpp:38-50 | two free neighbours become one block, in no list |
| Allocators.Allocator.Reclaim | mem_allocator/mem_allocator.cpp:199-228 | the freed block takes over the gap behind it, to the next header or to the page's end |
| Allocators.Allocator.MergeNeighbours | mem_allocator/mem_allocator.cpp:230-250 | the freed block is merged with whichever neighbours are free, which leave the list |
| Allocators.Allocator.FreeBlock | mem_allocator/mem_allocator.cpp:192-254 | the page is the old one with that block freed and coalesced; returns the size of the free block it is now part of; the list is the old one less the free neighbours, with that block behind every block at least as large and before every smaller one |
| Allocators.Allocator.FreeMem | mem_allocator/mem_allocator.cpp:256-264 | the region of the given address is in use no longer and every other one still is |
| Allocators.Allocator.InitPage | mem_allocator/mem_allocator.cpp:63-76 | the page is one free block, its header is written, and it enters the list behind every block at least as large and before every smaller one |
| Allocators.Allocator.DeinitPage | mem_allocator/mem_allocator.cpp:103-123 | exactly the page's free blocks leave the list, whose order stays the same; the page's blocks stay as they are |
| Allocators.Allocator.ReinitPage | mem_allocator/mem_allocator.cpp:78-101 | exactly the page's free blocks join the list, one after the other in the order of the page |
| Allocators.Allocator.IsPageEmpty | mem_allocator/mem_allocator.cpp:266-296 | true exactly when the page is one free block and that block is alone in the list |
| AllocatorRuns.Grant | mem_allocator/mem_allocator.cpp:173-190 | one allocation by a caller: it fails exactly when no free block anywhere is large enough |
| AllocatorRuns.GiveBack | mem_allocator/mem_allocator.cpp:256-264 | one release by a caller |
| AllocatorRuns.HeldExactly | mem_allocator/mem_allocator.cpp:173-264 | what is held after a run is what some allocation was granted and no later release gave back |
| AllocatorRuns.FirstComeFirstServed | mem_allocator/mem_allocator.cpp:173-190 | of two new pages of one size, the one set up first is allocated from first, at byte 57 of it |
| AllocatorRuns.HeldApart | mem_allocator/mem_allocator.cpp:173-190 | what a caller holds never overlaps |
| AllocatorRuns.Run | mem_allocator/mem_allocator.cpp:173-264 | any run of allocations and releases, in any order: every allocation is granted an address where nothing was held; after every request the regions held lie in the pages and do not overlap; in the end exactly the regions that the requests and the granted addresses say are held are in use, the list is complete, and with nothing held every page is as initialised; the run ends early only when no block is large enough |
| AllocatorRuns.FailedAllocation | mem_allocator/mem_allocator.cpp:177-181 | a run after which a free block is in no list |
| AllocatorRuns.Remap | mem_allocator/mem_allocator.cpp:78-123 | putting a page away and mapping it again restores all blocks, and the free list too if it was complete; otherwise the page's missing blocks are back in it |
| Pager.DbFileHdr.constructor | disk_io/pager.cpp:114-130 | exactly page 0 is in use |
| Pager.DbFileHdr.FirstZero | disk_io/pager.cpp:188-194 | shifting finds the first zero bit |
| Pager.DbFileHdr.AllocPage | disk_io/pager.cpp:168-203 | the smallest page not in use, and only its bit changes; INVALID exactly when every page is in use |
| Pager.DbFileHdr.FreePage | disk_io/pager.cpp:205-217 | only that page's bit changes |
| Pager.AllocatedThenFreed | disk_io/pager.cpp:168-217 | a bitmap that gains one page and then loses it is the old bitmap, bit by bit |
| Pager.AllocNext | disk_io/pager.cpp:168-203 | in any run, one more allocation is given the smallest page not in use then, and exactly that page is in use in addition |
| Pager.AllocThenFree | disk_io/pager.cpp:168-217 | the smallest unused page is given, in use in between, and freeing it restores the bitmap |
| Pager.Run | disk_io/pager.cpp:114-217 | any run of requests on a new header: every allocation is answered with the smallest page not in use at that time, or INVALID, and the bitmap has in the end the pages in use that the requests say |
| Pager.ZeroGiven | disk_io/pager.cpp:127-128 | page 0 is handed out exactly in the runs that free it and allocate afterwards |
| Pager.OffsetInPage | disk_io/pager.cpp:106-112 | the page an offset falls in is the one whose bytes contain it |
| Stacks.Stack.Push | stack/stack.c:65-78 | with a slot left, the element is on top of the old contents |
| Stacks.Stack.Pop | stack/stack.c:92-109 | the top element and the rest, or nothing from an empty stack |
| ExpressionCompiler.InfixToPostfixCorrect | Parsers/MExpr.c:108-186 | for every sentence of the grammar, with white space anywhere, no pop finds the stack empty, no bracket is left over, and the output is the postfix form of the sentence's own derivation |
| ExpressionCompiler.ShuntStrip | Parsers/MExpr.c:102-124 | white space has no effect on the conversion |
| ExpressionCompiler.BlankAnywhere | Parsers/MExpr.c:102-124 | a token of white space may stand anywhere in a line |
| ExpressionCompiler.ConvertOne | Parsers/MExpr.c:120-177 | one round of the loop on the 256-slot stack is one step of the conversion |
| ExpressionCompiler.ConvertInfixToPostfix | Parsers/MExpr.c:108-186 | on any line whose conversion never needs more than the stack's 256 slots, the loops compute the conversion, and its output is no longer than the line, which has at most 512 tokens; on a sentence the result is the postfix form |
| ExpressionCompiler.FitsStrip | Parsers/MExpr.c:102-124 | white space needs no stack slot |
| ExpressionCompiler.FewOperatorsFit | Parsers/MExpr.c:126-176 | a line with at most 256 operators and brackets never needs more |
| ExpressionCompiler.BuildSum | Parsers/MExpr.c:227-271 | the postfix form of a derivation, on any stack, builds exactly its left-associative, precedence-correct tree |
| ExpressionCompiler.ConvertPostfixToTree | Parsers/MExpr.c:227-271 | no pop finds the stack empty, one root is left, and it is the derivation's tree |
| ExpressionCompiler.EvaluateSum | Parsers/MExpr.c:313-424 | the tree of a derivation never violates evaluation's assertions, and its value is the direct meaning of the sentence; what that meaning is, ExpressionLaws says |
| ExpressionCompiler.FailureExactly | Parsers/MExpr.c:320-411 | evaluation fails exactly when some operand is unresolved or some divisor is zero |
| ExpressionParser.LostAtName | Parsers/ExpressionParser.c:190-207 | at a unary function name F has a result exactly when an opening bracket follows and the sum inside has one |
| ExpressionParser.LostSumAt | Parsers/ExpressionParser.c:151-207 | if E has no result, the words up to some bare unary name start a sentence that has an operand in its place |
| ExpressionParser.LostSumExactly | Parsers/ExpressionParser.c:151-207 | E has no result exactly when the words up to some unary name without a bracket start a sentence that has an operand in its place |
| ExpressionParser.LostFactorExactly | Parsers/ExpressionParser.c:118-208 | the same, for F |
| ExpressionParser.LostConditionExactly | Parsers/ExpressionParser.c:315-357 | the same, for Q, although it first takes every bracket for its own |
| ExpressionParser.LostSumRefused | Parsers/ExpressionParser.c:151-207 | no sentence is left without a result |
| ExpressionParser.LostConditionRefused | Parsers/ExpressionParser.c:315-357 | nor is a condition, although Q may try a bracket the wrong way first |
| ExpressionParser.NeverLost | Parsers/ExpressionParser.c:190-207 | if every unary function name from here on has its bracket, E, F and Q have a result |
| ExpressionParser.BareNameLost | Parsers/ExpressionParser.c:190-207 | every line that starts with sin and an operand leaves F, E and Q without a result |
| ExpressionParser.SumSound | Parsers/ExpressionParser.c:36-45 | what a successful E() has consumed derives from E |
| ExpressionParser.SumComplete | Parsers/ExpressionParser.c:36-45 | every sentence that is not continued by an operator is accepted whole |
| ExpressionParser.ConditionSound | Parsers/ExpressionParser.c:36-45 | what a successful Q() has consumed is a condition |
| ExpressionParser.NoCondition | Parsers/ExpressionParser.c:325-336 | a bracket that opens an arithmetic expression is never taken for one that opens a condition |
| ExpressionParser.ConditionComplete | Parsers/ExpressionParser.c:36-45 | every condition is accepted whole, through any nesting of brackets that makes Q back up |
| ExpressionParser.SumExactly | Parsers/ExpressionParser.c:263-313 | E succeeds with a derivation and an end exactly when that derivation's words stand there and no + - * / comes after them; so an operator without a term after it fails |
| ExpressionParser.SumTailExactly | Parsers/ExpressionParser.c:263-293 | the same for the rest of a sum |
| ExpressionParser.TermExactly | Parsers/ExpressionParser.c:210-261 | a term is accepted exactly when its words stand there and no * / comes after them |
| ExpressionParser.TermTailExactly | Parsers/ExpressionParser.c:210-240 | the same for the rest of a term |
| ExpressionParser.FactorExactly | Parsers/ExpressionParser.c:118-208 | a factor is accepted exactly when its words stand there |
| ExpressionParser.ConditionExactly | Parsers/ExpressionParser.c:315-357 | a condition is accepted exactly when its words stand there and, unless it is in brackets, no + - * / comes after them |
| ExpressionParser.Parser.Cyylex | Parsers/SQLSelectParser.l:86-108 | the next token at the cursor; it and the blanks before it, and nothing else, are recorded, and the cursor is the sum of the recorded lengths |
| ExpressionParser.Parser.Rewind | Parsers/SQLSelectParser.l:52-72 | the last n records are taken back and the cursor with them |
| ExpressionParser.Parser.Ineq | Parsers/ExpressionParser.c:59-77 | consumes a comparison operator or nothing |
| ExpressionParser.Parser.G | Parsers/ExpressionParser.c:80-97 | consumes a two-argument function name or nothing |
| ExpressionParser.Parser.P | Parsers/ExpressionParser.c:100-116 | consumes a one-argument function name or nothing |
| ExpressionParser.Parser.F | Parsers/ExpressionParser.c:118-208 | has no result exactly when the reference parse says so; otherwise agrees with the reference parse of a factor, and on error the undo stack and the cursor are as at entry |
| ExpressionParser.Parser.TDash | Parsers/ExpressionParser.c:210-240 | the same for the rest of a term |
| ExpressionParser.Parser.T | Parsers/ExpressionParser.c:243-261 | the same for a term |
| ExpressionParser.Parser.EDash | Parsers/ExpressionParser.c:263-293 | the same for the rest of a sum |
| ExpressionParser.Parser.E | Parsers/ExpressionParser.c:295-313 | the same for a sum; E and F, which call each other, end |
| ExpressionParser.Parser.Q | Parsers/ExpressionParser.c:315-357 | the same for a condition, through its backing up from a bracket |
| ExpressionPipeline.SumOperands | Parsers/MExpr.c:159-162 | the postfix form has as many operands as the sentence |
| ExpressionPipeline.FewTokensFit | stack/stack.h:4-12 | on a line of at most 256 operators and brackets and 256 operands both conversions fit the stack |
| ExpressionPipeline.ShortLineFits | stack/stack.h:4-12 | so they do on every line of at most 256 tokens |
| ExpressionPipeline.BuildMathExpressionTree | core/SqlMexprIntf.cpp:18-42 | recogniser, conversion and tree building together: the tree of the one derivation of what was consumed; or no tree and nothing consumed; or no result, exactly when E has none |
| ExpressionPipeline.SentenceToValue | Parsers/MExpr.c:313-424 | every sentence is accepted and its tree evaluates to the sentence's meaning |
| ExpressionPipeline.OneDerivation | Parsers/ExpressionParser.c:36-45 | the grammar is unambiguous |
| ExpressionLaws.LastSumOperator | Parsers/MExpr.c:227-271 | of a sentence, + or -, and a term, the operator is the root of the tree, with all of the sentence on its left: + and - group to the left |
| ExpressionLaws.LastTermOperator | Parsers/MExpr.c:227-271 | the same for a term, * or /, and a factor |
| ExpressionLaws.Arguments | Parsers/MExpr.c:227-271 | brackets leave no trace in the tree, and arguments are children in their order |
| ExpressionLaws.SumLaws | Parsers/MExpr.c:386-396 | l - r is what added to r gives l; (l + r) - r and (l - r) + r are worth l; l + r is worth r + l |
| ExpressionLaws.ProductLaws | Parsers/MExpr.c:398-412 | division fails exactly for a divisor worth 0; otherwise l / r is what times r gives l, and (l / r) * r and (l * r) / r are worth l |
| ExpressionLaws.ExtremeLaws | Parsers/MExpr.c:375-384 | max is at least both operands and one of them, min at most both, and together they are worth the operands' sum |
| ExpressionLaws.FunctionLaws | Parsers/MExpr.c:344-418 | sqr is worth l * l; sin, sqrt and pow are the library's, pow with the base first |
| ExpressionLaws.MinusMinus | Parsers/MExpr.c:108-424 | words to number: for any factors, x - y - z is accepted whole and its tree is worth (x - y) - z |
| ExpressionLaws.MinusTimes | Parsers/MExpr.c:108-424 | the same for x - y * z, worth x - (y * z) |
| ExpressionLaws.TimesMinus | Parsers/MExpr.c:108-424 | the same for x * y - z, worth (x * y) - z |
| ExpressionLaws.DivideDivide | Parsers/MExpr.c:108-424 | the same for x / y / z, worth (x / y) / z |
| Rows.FirstThenPending | core/qep.c:489-501 | the first row and the rows pending after it are the whole Cartesian product |
| Rows.StepLast | core/qep.c:437-456 | while the last column has something left, the next row of the product changes that column only |
| Rows.StepCarry | core/qep.c:457-486 | when it is used up, the earlier columns step and it starts over: that is the next row of the product |
| Rows.ProductAt | core/qep.c:427-487 | the product has every combination exactly once, in lexicographic order, the last table fastest |
| Rows.ProductEmpty | core/qep.c:411-415 | the product is empty exactly when some column is |
| Rows.ProductFiltered | core/qep.c:419-422 | filtering each column first yields the rows that pass column by column, in the same order |
| Rows.PushDown | core/qep.c:419-422 | if the condition implies every table's own test, filtering the tables first loses no row and changes no order |
| Rows.PushDownOne | core/qep.c:526-530 | with one table the pushed-down test makes the condition superfluous |
| JoinExecutor.Qep.constructor | core/qep.c:303-317 | rewound cursors and no limit; the whole product is still to come |
| JoinExecutor.Qep.Advance | core/qep.c:439-442 | one fetch on one table's cursor: the next record in key order, or NULL and that cursor is rewound |
| JoinExecutor.Qep.Search | core/qep.c:437-451 | the do-while loop ends and delivers the next record that passes the table's test, or NULL and a rewound cursor |
| JoinExecutor.Qep.TableIteratorsFirst | core/qep.c:394-425 | the join is finished at once exactly when some filtered table is empty; otherwise every cursor stands on its first qualified record |
| JoinExecutor.Qep.TableIteratorsNext | core/qep.c:427-487 | the odometer steps to the next row of the product, or past the last one, for any number of tables |
| JoinExecutor.Qep.ExecuteJoin | core/qep.c:489-505 | delivers the head of the rows still to come, or says that there are none |
| JoinExecutor.Qep.Execute | core/qep.c:516-570 | the rows emitted are the full product filtered by WHERE, in order; if the limit field is positive, the first so many of them; with one table although WHERE is not evaluated |
| HashTables.Hashtable.Create | c-hashtable/hashtable.c:28-53 | NULL exactly when more than 2^30 is asked for; otherwise an empty table whose length is the first listed prime above the request |
| HashTables.Hashtable.InItsBucket | c-hashtable/hashtable_private.h:36-41 | in every valid table each entry hangs in bucket h mod tablelength, h being its key's hash value |
| HashTables.Hashtable.LoadFactor | c-hashtable/hashtable.c:25-51 | in every valid table 100 * (loadlimit - 1) < 65 * tablelength <= 100 * loadlimit, and only a table of the last listed length holds more entries than the limit |
| HashTables.PrimesAscend | c-hashtable/hashtable.c:15-23 | the listed lengths ascend |
| HashTables.MoveHead | c-hashtable/hashtable.c:92-97 | one entry goes from the front of its old bucket to the front of its new one; both tables stay well linked |
| HashTables.TurnStep | c-hashtable/hashtable.c:89-90 | along the growth, the values moved so far under a key, turned round, followed by those still to move, are the values there were |
| HashTables.RehashStep | c-hashtable/hashtable.c:92-97 | along the growth, each new bucket, turned round, followed by the entries still to move there, is what the old table had for it, in its order |
| HashTables.Hashtable.Expand | c-hashtable/hashtable.c:70-126 | grows to the next listed prime exactly when there is one; every new bucket holds exactly the entries whose hash value mod the new length is its number, the last moved first; none is lost or gained, and the values under each key come in reverse order |
| HashTables.Hashtable.Insert | c-hashtable/hashtable.c:136-159 | the table grows first exactly when 100 * entrycount >= 65 * tablelength and a further prime is listed, and then to that prime; the new entry comes first in bucket hash(k) mod tablelength, and nothing else changes but for the growth; for a new key the map is updated, grown or not |
| HashTables.StoredInMap | c-hashtable/hashtable.c:136-159 | with distinct keys an insertion is a map update, whether or not the table grows |
| HashTables.Hashtable.Walk | c-hashtable/hashtable.c:167-176 | the first entry of the key in bucket hash(k) mod tablelength with its predecessor, or none |
| HashTables.Hashtable.Search | c-hashtable/hashtable.c:162-177 | the first value under the key, or NULL; with distinct keys the map's value |
| HashTables.Unlink | c-hashtable/hashtable.c:198-201 | taking an entry out of the middle or the front of a chain keeps all chains well linked |
| HashTables.Hashtable.Remove | c-hashtable/hashtable.c:180-211 | returns what a search would and drops the first entry of that key only; with distinct keys the key leaves the map |
| HashTables.DroppedFromMap | c-hashtable/hashtable.c:180-211 | with distinct keys a removal deletes the key from the map |
| HashTables.ReversedTwice | c-hashtable/hashtable.h:92-97 | growing twice restores the order of equal keys |
| HashTables.EachOnce | c-hashtable/hashtable.c:136-159 | no entry stands at two places of the table |
| HashTableIterators.Iterator.constructor | c-hashtable/hashtable_itr.c:11-35 | the iterator stands on the first entry of the table, or past the end of an empty one |
| HashTableIterators.Iterator.AdvanceTo | c-hashtable/hashtable_itr.c:60-87 | the next entry in its chain or of the first bucket after it that is not empty, with the right parent |
| HashTableIterators.Iterator.Advance | c-hashtable/hashtable_itr.c:53-88 | one position further, until past the end |
| HashTableIterators.Iterator.Remove | c-hashtable/hashtable_itr.c:98-124 | exactly the current entry leaves the table, and the iterator stands, with the right parent, on the next one |
| HashTableIterators.Iterator.Search | c-hashtable/hashtable_itr.c:127-154 | stands on the first entry of the key in its bucket, with the right parent, or stays as it is |
| HashTableIterators.VisitAll | c-hashtable/tester.c:108-121 | advancing visits every entry exactly once, bucket after bucket by h mod tablelength, and along the chain within each |
| HashTableIterators.RemoveAll | c-hashtable/tester.c:221-226 | a loop of removals empties a table of n entries in n steps, taking them in iteration order |

## Left out

- BPlusTree_Modify, BPlusTree_Destroy, BPlusTree_SetMaxChildNumber and all printing and formatting of keys and records: easy members or output only.
- malloc, calloc and free everywhere, their failures, and memory a caller still points into after it was freed.
- rdbms_key_comp_fn on composite keys and key metadata: keys are ranks of a total order.
- The AVL tree's tagged parent words (Tree/avl.c:69-114); the separate-field variant of the same functions is modelled.
- Allocators.Allocator.AllocMem: zeroing of the user bytes and the byte contents of pages are not modelled, only headers.
- The map from pages to virtual addresses, mapping and swapping of pages, file descriptors (disk_io, mem_allocator/mem.cpp): effects of the operating system.
- glthread_add_before, glthread_add_last, counting and iteration macros: simpler members of the list.
- ExpressionParser.Parser.F: what happens after the original returns without a value is not modelled; the outcome is passed on as "no result".
- Stacks.Stack.Push: a push on 256 elements, which the original stores past its array, is not modelled.
- BPlusTrees.BPlusTree.InsertRecord: that the bytes of a left-over key have been released before they are compared is not modelled; they are taken to be unchanged.
- Tabs and continued lines in the scanner, whose widths break the cursor arithmetic, and the scanner's own rules; a line is a given sequence of lexemes.
- ExpressionCompiler.EvaluateSum: sin, sqrt and pow are uninterpreted and rounding is not modelled.
- The external MathExpressionParser library that prunes WHERE per table; what the pruning must guarantee is a precondition of JoinExecutor.Qep.Execute.
- core/sql_where.c, core/qplanner.c, core/sql_groupby.c, the aggregates of core/sql_utils.c, the select list's computed columns and the SQL statement parsers.
- HashTables.Hashtable.Insert: 32-bit wrap-around of entrycount and the in-place "Plan B" growth after a failed allocation are not modelled; the load limit is computed exactly, not in single precision.
- hashtable_destroy, hashtable_utility.c and hashtable_powers.c.

Nothing here was executed; the statements are about the model, which follows the cited lines.
