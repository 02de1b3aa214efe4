# Seven Java containers, modelled and verified in Dafny

This project models the containers of the `data-structures` Java repository
and proves what each of them promises:

- an AVL tree with cached heights and balance factors, four rotation cases
  and a fail-fast in-order iterator (`avl_tree.dfy`, module `Avl`);
- an unbalanced binary search tree (`bst.dfy`, module `Bst`);
- a Fenwick (binary indexed) tree over a `long` array with an in-place
  linear build (`fenwick_tree.dfy`, module `Fenwick`);
- an open-addressing hash table with quadratic probing, tombstones, lazy
  relocation and doubling (`quadratic_probing.dfy`, module
  `QuadraticProbing`);
- a separate-chaining hash table with doubling rehash
  (`separate_chaining.dfy`, module `SeparateChaining`);
- a doubly linked list of real `prev`/`next` nodes
  (`doubly_linked_list.dfy`, module `LinkedLists`);
- a stack over a list (`stack.dfy`, module `Stacks`).

`common.dfy` (module `Common`) holds what they share:
- `Option` stands for a nullable reference.
- `Result`/`Error` turn each Java exception into a value.
- `NonTermination` marks a call whose loop never exits.
- `NormalizeIndex` is the `(hash & 0x7FFFFFFF) % capacity` of both hash tables.

Each class keeps the source's form:
- **Trees.** Nodes are exclusively owned, so the tree nodes are datatype values. The recursive private `insert`/`remove` are functions that return the new subtree root. The public tree object (`root`, `nodeCount`) is a class whose methods assign those fields. `findMin`, `findMax` and `digLeft` are loops proved equal to specification functions.
- **Array-based structures.** The Fenwick tree and both hash tables keep Java's arrays and loops.
- **Linked list.** The list is a class over real `Node` objects whose pointers are rewired in place. Ghost `nodes`/`contents` sequences give it an abstract value.
- **Stack.** The stack is a class over a sequence.

Where the source is wrong, the code is modelled as written and the
intended behaviour is modelled and proved beside it (see "## Findings").

For the tree built by inserting 2, 1, 4, 3, 5, the left subtree of 2 (the leaf 1, height 0) is not taller than the right one (4 over 3 and 5, height 1), so `remove(2)` takes `findMin(node.right)` = 3 (AVLTree.java:209-221); `RemoveRootExample` proves that 3 ends at the root.

## Model

| member | source | states |
|---|---|---|
| Common.NormalizeIndex | HashTableQuadraticProbing/src/com/abhinavgautam/HashTableQuadraticProbing.java:55-57 | the index always lies in [0, capacity); a non-negative hash is reduced modulo capacity, a negative one after masking its sign bit (adding 2^31) |
| Avl.CachedHeightIsDepth | AVLTree/src/com/abhinavgautam/AVLTree.java:42-43 | in a tree whose cached fields are correct, the cached height is the real number of edges to the furthest leaf |
| Avl.InorderSorted | AVLTree/src/com/abhinavgautam/AVLTree.java:65-79 | an ordered tree's in-order walk lists each value once, strictly ascending, and has as many entries as the tree has nodes |
| Avl.OrderedIffSorted | AVLTree/src/com/abhinavgautam/AVLTree.java:65-79 | search-tree order holds exactly when the in-order walk is strictly ascending |
| Avl.SameInorderSameElements | AVLTree/src/com/abhinavgautam/AVLTree.java:160-179 | two trees with the same in-order walk hold the same values and are ordered alike |
| Avl.ContainsNode | AVLTree/src/com/abhinavgautam/AVLTree.java:65-79 | on an ordered tree, compare-and-descend answers true exactly when the value is in the tree |
| Avl.NewNode | AVLTree/src/com/abhinavgautam/AVLTree.java:17-19 | a new node is a one-value AVL tree of height 0 |
| Avl.Update | AVLTree/src/com/abhinavgautam/AVLTree.java:115-128 | keeps value and children; with correct children the node's height is 1 + max(hL, hR) and bf = hR - hL, an absent child counting -1 |
| Avl.RightRotation | AVLTree/src/com/abhinavgautam/AVLTree.java:160-169 | the former left child becomes the subtree root, keeping its own left subtree; cached fields stay correct |
| Avl.LeftRotation | AVLTree/src/com/abhinavgautam/AVLTree.java:171-179 | the former right child becomes the subtree root, keeping its own right subtree; cached fields stay correct |
| Avl.LeftLeftCase | AVLTree/src/com/abhinavgautam/AVLTree.java:145-147 | the left child's value ends at the root, cached fields correct |
| Avl.LeftRightCase | AVLTree/src/com/abhinavgautam/AVLTree.java:148-151 | the left child's right child's value ends at the root, cached fields correct |
| Avl.RightRightCase | AVLTree/src/com/abhinavgautam/AVLTree.java:152-154 | the right child's value ends at the root, cached fields correct |
| Avl.RightLeftCase | AVLTree/src/com/abhinavgautam/AVLTree.java:155-158 | the right child's left child's value ends at the root, cached fields correct |
| Avl.Balance | AVLTree/src/com/abhinavgautam/AVLTree.java:131-143 | the result is a node whose cached height and balance factor are correct |
| Avl.RightRotationKeepsOrder | AVLTree/src/com/abhinavgautam/AVLTree.java:160-169 | a right rotation keeps the in-order sequence, the value set and the search-tree order |
| Avl.LeftRotationKeepsOrder | AVLTree/src/com/abhinavgautam/AVLTree.java:171-179 | a left rotation keeps the in-order sequence, the value set and the search-tree order |
| Avl.BalanceKeepsOrder | AVLTree/src/com/abhinavgautam/AVLTree.java:131-158 | every case of `balance` keeps the in-order sequence, the value set and the order |
| Avl.LeftLeftAvl | AVLTree/src/com/abhinavgautam/AVLTree.java:133-134 | bf -2 with a left child not right-heavy: one right rotation balances the node, height within one of the left child's |
| Avl.RightRightAvl | AVLTree/src/com/abhinavgautam/AVLTree.java:137-138 | mirror image: bf +2 with a right child not left-heavy is balanced by one left rotation |
| Avl.LeftRightAvl | AVLTree/src/com/abhinavgautam/AVLTree.java:133-135 | bf -2 with a right-heavy left child: the double rotation balances it at the left child's height |
| Avl.RightLeftAvl | AVLTree/src/com/abhinavgautam/AVLTree.java:137-139 | mirror image for bf +2 with a left-heavy right child |
| Avl.BalanceAvl | AVLTree/src/com/abhinavgautam/AVLTree.java:131-143 | with AVL children and bf within 2 of zero the result is an AVL tree; bf in -1..1 returns the node unchanged; a rotated node ends at the taller child's height or one more |
| Avl.InsertNode | AVLTree/src/com/abhinavgautam/AVLTree.java:92-112 | the recursive insert returns a node with correct cached fields |
| Avl.InsertElements | AVLTree/src/com/abhinavgautam/AVLTree.java:92-112 | insertion adds exactly the inserted value to the value set |
| Avl.InsertCount | AVLTree/src/com/abhinavgautam/AVLTree.java:92-112 | inserting adds exactly one node |
| Avl.InsertLeftStep | AVLTree/src/com/abhinavgautam/AVLTree.java:100-111 | after a left insertion, update and balance give an AVL tree whose height grew by at most one |
| Avl.InsertRightStep | AVLTree/src/com/abhinavgautam/AVLTree.java:103-111 | the same after a right insertion |
| Avl.InsertAvl | AVLTree/src/com/abhinavgautam/AVLTree.java:92-112 | inserting a new value into an AVL tree gives an AVL tree whose height grew by 0 or 1 |
| Avl.MinValue | AVLTree/src/com/abhinavgautam/AVLTree.java:234-237 | the leftmost value is in the tree and, in an ordered tree, no larger than any value |
| Avl.MaxValue | AVLTree/src/com/abhinavgautam/AVLTree.java:240-243 | the rightmost value is in the tree and, in an ordered tree, no smaller than any value |
| Avl.FindMin | AVLTree/src/com/abhinavgautam/AVLTree.java:234-237 | the loop returns the tree's minimum |
| Avl.FindMax | AVLTree/src/com/abhinavgautam/AVLTree.java:240-243 | the loop returns the tree's maximum |
| Avl.RemoveNode | AVLTree/src/com/abhinavgautam/AVLTree.java:193-231 | the recursive remove returns a tree with correct cached fields |
| Avl.RemoveLeftStep | AVLTree/src/com/abhinavgautam/AVLTree.java:197-198 | after removal from the left subtree the result is AVL, lacks the value, and is at most one lower |
| Avl.RemoveRightStep | AVLTree/src/com/abhinavgautam/AVLTree.java:199-200 | the same for removal from the right subtree |
| Avl.RemoveLeafStep | AVLTree/src/com/abhinavgautam/AVLTree.java:203-206 | a found node with at most one child is replaced by that child: AVL, value gone, at most one lower |
| Avl.RemovePredecessorStep | AVLTree/src/com/abhinavgautam/AVLTree.java:209-214 | two children, left strictly taller: copying in the left maximum and removing it there gives an AVL tree without the value |
| Avl.RemoveSuccessorStep | AVLTree/src/com/abhinavgautam/AVLTree.java:216-221 | two children otherwise: copying in the right minimum and removing it there gives an AVL tree without the value |
| Avl.RemovesWell | AVLTree/src/com/abhinavgautam/AVLTree.java:193-231 | by induction over the branches of `remove`, every removal keeps the AVL invariant |
| Avl.RemoveAvl | AVLTree/src/com/abhinavgautam/AVLTree.java:193-231 | removing from an AVL tree gives an AVL tree holding exactly the old values minus the removed one, its height lower by 0 or 1 |
| Avl.AvlHeightLogarithmic | AVLTree/src/com/abhinavgautam/AVLTree.java:81 | an AVL tree of height h has at least 2^((h+1)/2) - 1 nodes, so insert and remove walk a logarithmic path |
| Avl.AvlFibonacciBound | AVLTree/src/com/abhinavgautam/AVLTree.java:81 | an AVL tree of height h holds at least Fib(h + 3) - 1 nodes, the node count of the sparsest AVL tree of that height |
| Avl.AvlHeightBound | AVLTree/src/com/abhinavgautam/AVLTree.java:81 | an AVL tree of height h with n nodes has (8/5)^(h+1) <= n + 1, so h < 1.475 * log2(n + 1) |
| Avl.DescendingInsertExample | AVLTree/src/com/abhinavgautam/AVLTree.java:92-112 | inserting 3, 2, 1 (any descending triple) leaves 2 at the root with leaves 1 and 3 |
| Avl.ZigZagInsertExample | AVLTree/src/com/abhinavgautam/AVLTree.java:133-135 | inserting smallest, largest, middle rotates twice and puts the middle value at the root |
| Avl.FiveInsertExample | AVLTree/src/com/abhinavgautam/AVLTree.java:92-112 | the exact tree built by inserting 2, 1, 4, 3, 5 (any ascending x1..x5 in that order) |
| Avl.RemoveRootExample | AVLTree/src/com/abhinavgautam/AVLTree.java:216-221 | removing 2 from that tree puts 3, the smallest value on the right, at the root |
| Avl.AVLTree.constructor | AVLTree/src/com/abhinavgautam/AVLTree.java:36-40 | a new tree is empty and valid |
| Avl.AVLTree.Height | AVLTree/src/com/abhinavgautam/AVLTree.java:44-47 | 0 for the empty tree, otherwise the number of edges to the furthest leaf (also 0 for one node) |
| Avl.AVLTree.Size | AVLTree/src/com/abhinavgautam/AVLTree.java:50-52 | the number of values held |
| Avl.AVLTree.IsEmpty | AVLTree/src/com/abhinavgautam/AVLTree.java:55-57 | true exactly when no value is held |
| Avl.AVLTree.Contains | AVLTree/src/com/abhinavgautam/AVLTree.java:60-62 | true exactly when the value is held |
| Avl.AVLTree.Insert | AVLTree/src/com/abhinavgautam/AVLTree.java:82-90 | true exactly for a non-null absent value, which is then added and counted; null or present leaves tree and count unchanged; the AVL invariant holds after |
| Avl.AVLTree.Remove | AVLTree/src/com/abhinavgautam/AVLTree.java:182-191 | true exactly for a non-null present value, which is then removed and uncounted; otherwise nothing changes; the AVL invariant holds after |
| Avl.AVLTree.Iterator | AVLTree/src/com/abhinavgautam/AVLTree.java:246-253 | the iterator will yield every value of the tree, strictly ascending, nodeCount values in all |
| Avl.PushLeftKeepsPending | AVLTree/src/com/abhinavgautam/AVLTree.java:266-269 | pushing the left child and moving `trav` to it leaves the values still to come unchanged |
| Avl.PopPending | AVLTree/src/com/abhinavgautam/AVLTree.java:271-276 | once `trav` has no left child, the popped node's value comes first, then its right subtree, then the rest of the stack |
| Avl.NodesPending | AVLTree/src/com/abhinavgautam/AVLTree.java:258 | a stack of nodes has something still to yield exactly when it is non-empty |
| Avl.AvlIterator.constructor | AVLTree/src/com/abhinavgautam/AVLTree.java:248-253 | remembers the node count; pending values are the tree's in-order walk |
| Avl.AvlIterator.HasNext | AVLTree/src/com/abhinavgautam/AVLTree.java:256-259 | ConcurrentModification exactly when the node count changed, otherwise whether anything is pending |
| Avl.AvlIterator.ExpandLeft | AVLTree/src/com/abhinavgautam/AVLTree.java:266-269 | the left-spine loop keeps the pending values and stops at a node without left child |
| Avl.AvlIterator.Pop | AVLTree/src/com/abhinavgautam/AVLTree.java:271-278 | returns the first pending value and drops it from the pending sequence |
| Avl.AvlIterator.Next | AVLTree/src/com/abhinavgautam/AVLTree.java:262-279 | ConcurrentModification when the count changed; otherwise it returns the next value in ascending order, or fails on an exhausted iterator |
| Avl.SwapValue | AVLTree/src/com/abhinavgautam/AVLTree.java:82-90 | inserting one absent value and removing one present value changes the values but leaves the node count as it was |
| Avl.UndetectedModification | AVLTree/src/com/abhinavgautam/AVLTree.java:262-264 | after such a swap the iterator still returns the value 1 that is no longer in the tree, raising no ConcurrentModification |
| Bst.CountIsSize | BinarySearchTree/src/BinarySearchTree.java:4-5 | an ordered tree's node count is the size of its value set |
| Bst.ContainsNode | BinarySearchTree/src/BinarySearchTree.java:119-130 | on an ordered tree, true exactly when the element is in the tree |
| Bst.AddNode | BinarySearchTree/src/BinarySearchTree.java:45-58 | adds exactly the element and one node; an absent element keeps the order |
| Bst.AddNodeAddsLeaf | BinarySearchTree/src/BinarySearchTree.java:47-55 | the new element hangs as a leaf at the end of the compare path (left when smaller, else right), all other nodes in place |
| Bst.MinValue | BinarySearchTree/src/BinarySearchTree.java:106-112 | the leftmost value is in the tree and, in an ordered tree, the minimum |
| Bst.DigLeft | BinarySearchTree/src/BinarySearchTree.java:106-112 | the loop stops at a node without left child holding the minimum |
| Bst.RemoveNodeCorrect | BinarySearchTree/src/BinarySearchTree.java:70-103 | removal keeps the order, takes exactly the element out of the value set and one node when it was there |
| Bst.RemoveNode | BinarySearchTree/src/BinarySearchTree.java:70-103 | on any tree, ordered or not, removal adds no value and takes away at most one node |
| Bst.RemoveLeftStep | BinarySearchTree/src/BinarySearchTree.java:75-76 | the same after descending left |
| Bst.RemoveRightStep | BinarySearchTree/src/BinarySearchTree.java:77-78 | the same after descending right |
| Bst.RemoveSuccessorStep | BinarySearchTree/src/BinarySearchTree.java:94-100 | a node with two children takes the right subtree's minimum, which is removed there |
| Bst.Height | BinarySearchTree/src/BinarySearchTree.java:137-140 | as written: at least 1 for a node and never above the real height |
| Bst.HeightMissesLeftEdges | BinarySearchTree/src/BinarySearchTree.java:139 | a node with only a left leaf reports 1 although its height is 2, so 2^height no longer bounds the count |
| Bst.IntendedHeightBounds | BinarySearchTree/src/BinarySearchTree.java:137-140 | the evidently intended height h satisfies h <= count < 2^h |
| Bst.BinarySearchTree.constructor | BinarySearchTree/src/BinarySearchTree.java:4-8 | a new tree is empty and valid |
| Bst.BinarySearchTree.Size | BinarySearchTree/src/BinarySearchTree.java:22-24 | the number of values held |
| Bst.BinarySearchTree.IsEmpty | BinarySearchTree/src/BinarySearchTree.java:27-29 | true exactly when no value is held |
| Bst.BinarySearchTree.Contains | BinarySearchTree/src/BinarySearchTree.java:115-117 | true exactly when the element is held |
| Bst.BinarySearchTree.Add | BinarySearchTree/src/BinarySearchTree.java:32-42 | true exactly for an absent element, which is added as a leaf and counted; a present one changes nothing |
| Bst.BinarySearchTree.Remove | BinarySearchTree/src/BinarySearchTree.java:61-68 | true exactly for a present element, which is removed and uncounted; an absent one changes nothing |
| Bst.BinarySearchTree.TreeHeight | BinarySearchTree/src/BinarySearchTree.java:133-135 | 0 for the empty tree, otherwise between 1 and the real height |
| Fenwick.Lsb | FenwickTree/src/com/abhinavgautam/FenwickTree.java:25-27 | `lowestOneBit`: 0 for 0, otherwise between 1 and i |
| Fenwick.LsbPow2 | FenwickTree/src/com/abhinavgautam/FenwickTree.java:25-27 | the result for i >= 1 is a power of two |
| Fenwick.LsbIsLowestBit | FenwickTree/src/com/abhinavgautam/FenwickTree.java:25-27 | it divides i and leaves an odd quotient: it is i's lowest set bit |
| Fenwick.LsbStep | FenwickTree/src/com/abhinavgautam/FenwickTree.java:46 | each step of `add` at least doubles the lowest bit, so cells covering i are visited in turn |
| Fenwick.PointUpdateSums | FenwickTree/src/com/abhinavgautam/FenwickTree.java:43-48 | adding k at i raises every prefix sum from i on by k and no other |
| Fenwick.CellUpdate | FenwickTree/src/com/abhinavgautam/FenwickTree.java:43-48 | adding k at i changes exactly the cells m whose range (m - lsb(m), m] contains i, each by k |
| Fenwick.SkippedCells | FenwickTree/src/com/abhinavgautam/FenwickTree.java:44-46 | cells below i and cells strictly between two visited cells are unchanged by the update |
| Fenwick.KidsUpTo | FenwickTree/src/com/abhinavgautam/FenwickTree.java:19-22 | the cells that push into m cover exactly the values of (m - lsb(m), m - q] |
| Fenwick.AllKids | FenwickTree/src/com/abhinavgautam/FenwickTree.java:19-22 | a value plus everything pushed into its cell is the cell's range sum |
| Fenwick.BuildStep | FenwickTree/src/com/abhinavgautam/FenwickTree.java:20-21 | one turn of the build loop keeps its invariant (cells finished below i, partial above) |
| Fenwick.BuildDone | FenwickTree/src/com/abhinavgautam/FenwickTree.java:19-22 | at the end of the loop every cell holds its range sum |
| Fenwick.FenwickTree.constructor | FenwickTree/src/com/abhinavgautam/FenwickTree.java:10-12 | for an array length size + 1 in [0, 2^31): length size + 1, all values zero |
| Fenwick.FenwickTree.Create | FenwickTree/src/com/abhinavgautam/FenwickTree.java:10-12 | NegativeArraySize exactly when the `int` size + 1 is negative (size < -1, or size = 2^31 - 1 by wrapping); otherwise a fresh all-zero tree of size + 1 cells |
| Fenwick.FenwickTree.PushAll | FenwickTree/src/com/abhinavgautam/FenwickTree.java:19-22 | succeeds exactly on arrays of at most 2^30 cells, and then the in-place loop turns the array of values into the tree of those values; on longer arrays the wrapped parent index of cell 2^30 is an index error |
| Fenwick.FenwickTree.PushOne | FenwickTree/src/com/abhinavgautam/FenwickTree.java:20-21 | an index error, with nothing written, exactly when the `int` i + lsb(i) wraps; otherwise cell i is added to cell i + lsb(i) when it exists and nothing else changes |
| Fenwick.FenwickTree.FromValues | FenwickTree/src/com/abhinavgautam/FenwickTree.java:14-23 | null is an IllegalArgument, more than 2^30 cells an index error; otherwise a valid tree of a fresh clone of the values |
| Fenwick.HalfRangeParent | FenwickTree/src/com/abhinavgautam/FenwickTree.java:20 | lsb(2^30) = 2^30, so index 2^30 is the first whose parent overflows `int` |
| Fenwick.LsbOfPow2 | FenwickTree/src/com/abhinavgautam/FenwickTree.java:25-27 | the lowest set bit of a power of two is itself |
| Fenwick.WrapNeedsLongArray | FenwickTree/src/com/abhinavgautam/FenwickTree.java:44-47 | the index walk of `add` can wrap only on an array of more than 2^30 cells |
| Fenwick.LongArrayWraps | FenwickTree/src/com/abhinavgautam/FenwickTree.java:44-47 | on every array of more than 2^30 cells the walk from 2^30 wraps |
| Fenwick.FenwickTree.PrefixSum | FenwickTree/src/com/abhinavgautam/FenwickTree.java:29-36 | 0 for i = 0, values[1] + ... + values[i] for 1 <= i < length, an index error otherwise |
| Fenwick.FenwickTree.Sum | FenwickTree/src/com/abhinavgautam/FenwickTree.java:38-41 | IllegalArgument when j < i; otherwise the total of values i..j, or an index error out of range |
| Fenwick.FenwickTree.Add | FenwickTree/src/com/abhinavgautam/FenwickTree.java:43-48 | for 1 <= i < length value i grows by k and the tree stays valid, and the call fails with an index error exactly when the `int` walk wraps; i = 0 never terminates, i < 0 is an index error, i >= length changes nothing |
| Fenwick.FenwickTree.Climb | FenwickTree/src/com/abhinavgautam/FenwickTree.java:44-47 | the loop leaves the array representing the values with k added at i, and reports a wrap of the `int` index exactly when the walk wraps |
| Fenwick.FenwickTree.Set | FenwickTree/src/com/abhinavgautam/FenwickTree.java:50-53 | outside 1 .. length - 1 an index error with nothing changed; inside, value i becomes k and no other value changes, and the call fails exactly when the walk of `add` wraps |
| QuadraticProbing.Wrap32 | HashTableQuadraticProbing/src/com/abhinavgautam/HashTableQuadraticProbing.java:51-53 | Java `int` arithmetic: the result is congruent modulo 2^32 and unchanged inside the int range |
| QuadraticProbing.PValue | HashTableQuadraticProbing/src/com/abhinavgautam/HashTableQuadraticProbing.java:51-53 | P(x) is (x*x + x) / 2 under 32-bit wrap, and exactly x(x+1)/2 while no overflow happens |
| QuadraticProbing.P | HashTableQuadraticProbing/src/com/abhinavgautam/HashTableQuadraticProbing.java:51-53 | `(x*x + x) >> 1` on `int`s: the wrapped product and sum, shifted right arithmetically (its facts are stated by `PValue`) |
| QuadraticProbing.Probe | HashTableQuadraticProbing/src/com/abhinavgautam/HashTableQuadraticProbing.java:119 | the n-th probe index lies in [0, capacity) |
| QuadraticProbing.NextProbe | HashTableQuadraticProbing/src/com/abhinavgautam/HashTableQuadraticProbing.java:119 | `normalizeIndex(hash + P(x++))` gives the next probe index and the next x |
| QuadraticProbing.ProbePeriodic | HashTableQuadraticProbing/src/com/abhinavgautam/HashTableQuadraticProbing.java:119 | the probe sequence repeats with period 2^32, so 2^32 probes without a stop mean the loop never ends |
| QuadraticProbing.Threshold | HashTableQuadraticProbing/src/com/abhinavgautam/HashTableQuadraticProbing.java:41 | `(int)(capacity * loadFactor)`: capacity * num / den, saturated at Integer.MAX_VALUE |
| QuadraticProbing.ThresholdGrows | HashTableQuadraticProbing/src/com/abhinavgautam/HashTableQuadraticProbing.java:209-210 | doubling the capacity never lowers the threshold, at least doubles it while that fits in an `int`, and strictly raises any threshold between 1 and Integer.MAX_VALUE |
| QuadraticProbing.Scan | HashTableQuadraticProbing/src/com/abhinavgautam/HashTableQuadraticProbing.java:80-120 | the first probe step at which the loop stops (the key or a null slot), none when no step within a period stops |
| QuadraticProbing.ScanFinds | HashTableQuadraticProbing/src/com/abhinavgautam/HashTableQuadraticProbing.java:80-120 | in a consistent table the probe loop for a stored key stops at that key's slot |
| QuadraticProbing.Lookup | HashTableQuadraticProbing/src/com/abhinavgautam/HashTableQuadraticProbing.java:136-164 | a key is present exactly when the loop stops at a live slot, which then holds the key and its value; an absent key stops at a null slot |
| QuadraticProbing.TombSlot | HashTableQuadraticProbing/src/com/abhinavgautam/HashTableQuadraticProbing.java:82-83 | the first tombstone passed, or -1 |
| QuadraticProbing.InsertStep | HashTableQuadraticProbing/src/com/abhinavgautam/HashTableQuadraticProbing.java:85-117 | insert's writes keep the table consistent, bind key to value, and count a new key, plus a used bucket when no tombstone is reused |
| QuadraticProbing.RelocateStep | HashTableQuadraticProbing/src/com/abhinavgautam/HashTableQuadraticProbing.java:147-153 | get's move into the first tombstone keeps the table consistent and the map unchanged |
| QuadraticProbing.RemoveStep | HashTableQuadraticProbing/src/com/abhinavgautam/HashTableQuadraticProbing.java:177-183 | tombstoning a found key keeps the table consistent and removes just that key |
| QuadraticProbing.PlaceValid | HashTableQuadraticProbing/src/com/abhinavgautam/HashTableQuadraticProbing.java:103-115 | writing a new pair into a free slot on its probe path keeps every key reachable and adds one live slot |
| QuadraticProbing.MoveValid | HashTableQuadraticProbing/src/com/abhinavgautam/HashTableQuadraticProbing.java:93-98 | moving a pair into an earlier tombstone keeps the table consistent and both counts |
| QuadraticProbing.DeleteValid | HashTableQuadraticProbing/src/com/abhinavgautam/HashTableQuadraticProbing.java:178-182 | a tombstone keeps the other keys reachable and usedBuckets unchanged |
| QuadraticProbing.EmptyTable | HashTableQuadraticProbing/src/com/abhinavgautam/HashTableQuadraticProbing.java:43-44 | all-null arrays form a consistent empty table without tombstones |
| QuadraticProbing.GrowRoom | HashTableQuadraticProbing/src/com/abhinavgautam/HashTableQuadraticProbing.java:208-233 | the live keys of a full table fit below the doubled table's threshold |
| QuadraticProbing.LiveListed | HashTableQuadraticProbing/src/com/abhinavgautam/HashTableQuadraticProbing.java:188-206 | keys and values listed in slot order pair up as the map's bindings, each key once |
| QuadraticProbing.HashTableQuadraticProbing.constructor | HashTableQuadraticProbing/src/com/abhinavgautam/HashTableQuadraticProbing.java:34-45 | capacity max(capacity, 8), all slots null, zero counts, empty map |
| QuadraticProbing.HashTableQuadraticProbing.Create | HashTableQuadraticProbing/src/com/abhinavgautam/HashTableQuadraticProbing.java:34-38 | IllegalArgument exactly for capacity <= 0 or a non-positive load factor |
| QuadraticProbing.HashTableQuadraticProbing.Size | HashTableQuadraticProbing/src/com/abhinavgautam/HashTableQuadraticProbing.java:68 | keyCount is the number of keys held |
| QuadraticProbing.HashTableQuadraticProbing.IsEmpty | HashTableQuadraticProbing/src/com/abhinavgautam/HashTableQuadraticProbing.java:70 | true exactly when no key is held |
| QuadraticProbing.HashTableQuadraticProbing.Clear | HashTableQuadraticProbing/src/com/abhinavgautam/HashTableQuadraticProbing.java:59-66 | every slot null, zero counts, one more modification, empty map |
| QuadraticProbing.HashTableQuadraticProbing.Seek | HashTableQuadraticProbing/src/com/abhinavgautam/HashTableQuadraticProbing.java:77-120 | the probe loop stops at step n exactly when the scan does, reporting the slot and the first tombstone passed |
| QuadraticProbing.HashTableQuadraticProbing.Store | HashTableQuadraticProbing/src/com/abhinavgautam/HashTableQuadraticProbing.java:85-117 | the arrays become exactly the writes of the branch taken, with the counters of that branch |
| QuadraticProbing.HashTableQuadraticProbing.Put | HashTableQuadraticProbing/src/com/abhinavgautam/HashTableQuadraticProbing.java:77-120 | the key is bound to the value, the old value or null is returned, keyCount grows for a new key, usedBuckets only when no tombstone is reused; no stop means no termination |
| QuadraticProbing.HashTableQuadraticProbing.Insert | HashTableQuadraticProbing/src/com/abhinavgautam/HashTableQuadraticProbing.java:73-121 | null key is IllegalArgument; below the threshold it returns exactly when the probe loop stops, changing nothing otherwise; at the threshold it returns exactly when the capacity can double and both the refill and the probe loop in the doubled table stop (`GrowInsertStops`); on return the key is bound and the old value returned |
| QuadraticProbing.Refill | HashTableQuadraticProbing/src/com/abhinavgautam/HashTableQuadraticProbing.java:227-233 | the arrays after re-inserting old slots i, i + 1, ... in slot order by `insert`'s probe loop; none as soon as one loop never stops; a result keeps the new arrays' length |
| QuadraticProbing.BlankTable | HashTableQuadraticProbing/src/com/abhinavgautam/HashTableQuadraticProbing.java:212-213 | a table with no used slot is all null keys and absent values, the arrays `resizeTable` allocates |
| QuadraticProbing.HashTableQuadraticProbing.Allocate | HashTableQuadraticProbing/src/com/abhinavgautam/HashTableQuadraticProbing.java:209-226 | new capacity and threshold, fresh all-null arrays, zero counts |
| QuadraticProbing.HashTableQuadraticProbing.Readd | HashTableQuadraticProbing/src/com/abhinavgautam/HashTableQuadraticProbing.java:229 | fails (no termination) exactly when the probe loop for the key never stops; otherwise the new key lands in a null slot, both counts grow by one, and the arrays are the refill's next step |
| QuadraticProbing.HashTableQuadraticProbing.Forget | HashTableQuadraticProbing/src/com/abhinavgautam/HashTableQuadraticProbing.java:231-232 | the old key slot i becomes null and, in a separate value array, the old value slot too; nothing else changes |
| QuadraticProbing.HashTableQuadraticProbing.TransferSlot | HashTableQuadraticProbing/src/com/abhinavgautam/HashTableQuadraticProbing.java:228-230 | a live old slot is re-inserted; the map grows to the old slots seen so far; it fails exactly when the refill from this slot never stops, and otherwise leaves the arrays the refill reaches at the next slot (`RefillsTo`) |
| QuadraticProbing.HashTableQuadraticProbing.Transfer | HashTableQuadraticProbing/src/com/abhinavgautam/HashTableQuadraticProbing.java:227-233 | fails exactly when `Refill` of the old slots into the new arrays is none; otherwise the arrays are that refill, holding exactly the old live pairs, without tombstones, keyCount == usedBuckets |
| QuadraticProbing.HashTableQuadraticProbing.Resize | HashTableQuadraticProbing/src/com/abhinavgautam/HashTableQuadraticProbing.java:208-234 | capacity doubles, the map is kept, tombstones vanish and keyCount == usedBuckets below the threshold; an overflowing capacity is a NegativeArraySize; below that it fails exactly when the refill of the old slots into blank arrays of twice the length is none, and otherwise the arrays are that refill |
| QuadraticProbing.HashTableQuadraticProbing.Relocate | HashTableQuadraticProbing/src/com/abhinavgautam/HashTableQuadraticProbing.java:145-156 | the found pair moves into the first tombstone (or stays) and containsFlag is set |
| QuadraticProbing.HashTableQuadraticProbing.Get | HashTableQuadraticProbing/src/com/abhinavgautam/HashTableQuadraticProbing.java:129-165 | as written: a present key's value, relocated lazily, map unchanged; an absent key reaching a null slot is a NullPointer, no stop is no termination |
| QuadraticProbing.HashTableQuadraticProbing.GetIntended | HashTableQuadraticProbing/src/com/abhinavgautam/HashTableQuadraticProbing.java:158-161 | as intended: an absent key reaching a null slot returns null and clears containsFlag; a probe loop that never stops is no termination |
| QuadraticProbing.HashTableQuadraticProbing.HasKey | HashTableQuadraticProbing/src/com/abhinavgautam/HashTableQuadraticProbing.java:123-126 | as written: true exactly for a present key; an absent key fails as `get` does |
| QuadraticProbing.HashTableQuadraticProbing.HasKeyIntended | HashTableQuadraticProbing/src/com/abhinavgautam/HashTableQuadraticProbing.java:123-126 | over the intended `get`: whether the key is present, returned exactly when the probe loop stops, the map unchanged |
| QuadraticProbing.HashTableQuadraticProbing.Delete | HashTableQuadraticProbing/src/com/abhinavgautam/HashTableQuadraticProbing.java:178-183 | the slot becomes a tombstone, keyCount drops, usedBuckets stays |
| QuadraticProbing.HashTableQuadraticProbing.Remove | HashTableQuadraticProbing/src/com/abhinavgautam/HashTableQuadraticProbing.java:167-186 | as written: a present key is tombstoned and its value returned; an absent key reaching a null slot is a NullPointer |
| QuadraticProbing.HashTableQuadraticProbing.RemoveIntended | HashTableQuadraticProbing/src/com/abhinavgautam/HashTableQuadraticProbing.java:176 | as intended: an absent key reaching a null slot returns null and changes nothing; a probe loop that never stops is no termination |
| QuadraticProbing.HashTableQuadraticProbing.ListKeys | HashTableQuadraticProbing/src/com/abhinavgautam/HashTableQuadraticProbing.java:190-194 | the loop lists the keys of the live slots in slot order |
| QuadraticProbing.HashTableQuadraticProbing.ListValues | HashTableQuadraticProbing/src/com/abhinavgautam/HashTableQuadraticProbing.java:200-204 | the loop lists the values of the live slots in slot order |
| QuadraticProbing.HashTableQuadraticProbing.Keys | HashTableQuadraticProbing/src/com/abhinavgautam/HashTableQuadraticProbing.java:188-196 | each key of the map exactly once, in slot order |
| QuadraticProbing.HashTableQuadraticProbing.Values | HashTableQuadraticProbing/src/com/abhinavgautam/HashTableQuadraticProbing.java:198-206 | the values in slot order, the a-th being the value of the a-th listed key |
| QuadraticProbing.AbsentKeyFails | HashTableQuadraticProbing/src/com/abhinavgautam/HashTableQuadraticProbing.java:129-186 | on a fresh table both `get` and `remove` of any key fail with NullPointer |
| SeparateChaining.KeyIndex | HashTableSeperateChaining/src/com/abhinavgautam/HashTableSeparateChaining.java:124-134 | the position of the first entry with the key, -1 exactly when none has it |
| SeparateChaining.HashTableSeparateChaining.EntriesDistinct | HashTableSeperateChaining/src/com/abhinavgautam/HashTableSeparateChaining.java:19-22 | `Entry.equals` (same hash and same key) holds between two stored entries only at the same position |
| SeparateChaining.EntryEquals | HashTableSeperateChaining/src/com/abhinavgautam/HashTableSeparateChaining.java:19-22 | `Entry.equals`: the cached hashes are equal and the keys are equal (`equals` taken as Dafny equality) |
| SeparateChaining.Threshold | HashTableSeperateChaining/src/com/abhinavgautam/HashTableSeparateChaining.java:52 | `(int)(capacity * maxLoadFactor)`, also at line 138: the largest integer t with t * den <= capacity * num, non-negative for a non-negative product |
| SeparateChaining.AppendValid | HashTableSeperateChaining/src/com/abhinavgautam/HashTableSeparateChaining.java:112-116 | appending a new key to its bucket keeps placement and uniqueness, adds one entry and binds the key |
| SeparateChaining.ReplaceValid | HashTableSeperateChaining/src/com/abhinavgautam/HashTableSeparateChaining.java:117-121 | overwriting an entry keeps the entry count and rebinds the key |
| SeparateChaining.DeleteValid | HashTableSeperateChaining/src/com/abhinavgautam/HashTableSeparateChaining.java:99-102 | deleting an entry drops one entry and unbinds its key |
| SeparateChaining.BucketLookup | HashTableSeperateChaining/src/com/abhinavgautam/HashTableSeparateChaining.java:124-134 | a key is in the map exactly when its home bucket holds it, with the stored value |
| SeparateChaining.RehashFlatten | HashTableSeperateChaining/src/com/abhinavgautam/HashTableSeparateChaining.java:140-154 | rehashing keeps the multiset of entries |
| SeparateChaining.RehashValid | HashTableSeperateChaining/src/com/abhinavgautam/HashTableSeparateChaining.java:136-155 | the rehashed table has every entry in its new home bucket, the same count and the same map |
| SeparateChaining.MapOfSame | HashTableSeperateChaining/src/com/abhinavgautam/HashTableSeparateChaining.java:143-147 | two key-unique entry lists with the same entries stand for the same map |
| SeparateChaining.HashTableSeparateChaining.constructor | HashTableSeperateChaining/src/com/abhinavgautam/HashTableSeparateChaining.java:45-54 | capacity max(3, capacity), every bucket null, size 0 |
| SeparateChaining.HashTableSeparateChaining.Create | HashTableSeperateChaining/src/com/abhinavgautam/HashTableSeparateChaining.java:46-49 | IllegalArgument exactly for a negative capacity or a non-positive load factor |
| SeparateChaining.HashTableSeparateChaining.Size | HashTableSeperateChaining/src/com/abhinavgautam/HashTableSeparateChaining.java:57 | size is the number of keys |
| SeparateChaining.HashTableSeparateChaining.IsEmpty | HashTableSeperateChaining/src/com/abhinavgautam/HashTableSeparateChaining.java:59 | true exactly when no key is held |
| SeparateChaining.HashTableSeparateChaining.Clear | HashTableSeperateChaining/src/com/abhinavgautam/HashTableSeparateChaining.java:65-68 | every bucket null, size 0, empty map |
| SeparateChaining.HashTableSeparateChaining.SeekEntry | HashTableSeperateChaining/src/com/abhinavgautam/HashTableSeparateChaining.java:124-134 | null key or null bucket finds nothing; otherwise the first entry with the key |
| SeparateChaining.HashTableSeparateChaining.HasKey | HashTableSeperateChaining/src/com/abhinavgautam/HashTableSeparateChaining.java:70-73 | whether the key is held; a null key throws from `hashCode` |
| SeparateChaining.HashTableSeparateChaining.Get | HashTableSeperateChaining/src/com/abhinavgautam/HashTableSeparateChaining.java:82-88 | the key's value when held, null for an absent or null key |
| SeparateChaining.HashTableSeparateChaining.CreateBucket | HashTableSeperateChaining/src/com/abhinavgautam/HashTableSeparateChaining.java:110 | a null bucket becomes an empty list, the map unchanged |
| SeparateChaining.HashTableSeparateChaining.AppendEntry | HashTableSeperateChaining/src/com/abhinavgautam/HashTableSeparateChaining.java:114-115 | the entry is appended to its bucket, size grows, the key is bound |
| SeparateChaining.HashTableSeparateChaining.ReplaceEntry | HashTableSeperateChaining/src/com/abhinavgautam/HashTableSeparateChaining.java:118-120 | the entry's value is overwritten and the key rebound |
| SeparateChaining.HashTableSeparateChaining.Insert | HashTableSeperateChaining/src/com/abhinavgautam/HashTableSeparateChaining.java:75-122 | as written: null key is IllegalArgument; a null bucket gets an empty list and then a NullPointer; otherwise the key is bound, the old value returned, a new key grows size and resizes past the threshold |
| SeparateChaining.HashTableSeparateChaining.InsertIntended | HashTableSeperateChaining/src/com/abhinavgautam/HashTableSeparateChaining.java:108-116 | as intended: the key is always bound and the old value or null returned |
| SeparateChaining.HashTableSeparateChaining.Remove | HashTableSeperateChaining/src/com/abhinavgautam/HashTableSeparateChaining.java:90-106 | a held key leaves its bucket and the map, size drops, its value is returned; null or absent keys change nothing |
| SeparateChaining.HashTableSeparateChaining.RemoveAt | HashTableSeperateChaining/src/com/abhinavgautam/HashTableSeparateChaining.java:99-102 | the found entry leaves its bucket and the map, size drops, its value is returned |
| SeparateChaining.HashTableSeparateChaining.DeleteEntry | HashTableSeperateChaining/src/com/abhinavgautam/HashTableSeparateChaining.java:100-101 | the bucket loses exactly that entry, the map that key |
| SeparateChaining.HashTableSeparateChaining.ResizeTable | HashTableSeperateChaining/src/com/abhinavgautam/HashTableSeparateChaining.java:136-155 | capacity doubles, the new table is the rehash of the old entries in order, the map is kept, old buckets are nulled |
| SeparateChaining.HashTableSeparateChaining.MoveBuckets | HashTableSeperateChaining/src/com/abhinavgautam/HashTableSeparateChaining.java:141-153 | the loop fills the new table with the rehash of all old entries and nulls the old buckets |
| SeparateChaining.HashTableSeparateChaining.MoveBucket | HashTableSeperateChaining/src/com/abhinavgautam/HashTableSeparateChaining.java:143-148 | one bucket's entries are appended to their new home buckets in order |
| SeparateChaining.HashTableSeparateChaining.AppendToBucket | HashTableSeperateChaining/src/com/abhinavgautam/HashTableSeparateChaining.java:144-147 | one entry is appended to its new home bucket, created when null |
| SeparateChaining.HashTableSeparateChaining.Keys | HashTableSeperateChaining/src/com/abhinavgautam/HashTableSeparateChaining.java:157-167 | the keys of the buckets in index order: each held key once, size of them |
| SeparateChaining.HashTableSeparateChaining.Values | HashTableSeperateChaining/src/com/abhinavgautam/HashTableSeparateChaining.java:169-179 | the values in the same order, the j-th being the value of the j-th key |
| SeparateChaining.FirstInsertFails | HashTableSeperateChaining/src/com/abhinavgautam/HashTableSeparateChaining.java:109-114 | the first insert into a fresh table fails with NullPointer |
| LinkedLists.FirstIndex | DoublyLinkedList/src/DoublyLinkedList.java:177-195 | the first position holding x, -1 exactly when x is absent |
| LinkedLists.Without | DoublyLinkedList/src/DoublyLinkedList.java:118-133 | the sequence with position k dropped, the rest in order |
| LinkedLists.Node.constructor | DoublyLinkedList/src/DoublyLinkedList.java:13-17 | a node with the given data and links |
| LinkedLists.DoublyLinkedList.constructor | DoublyLinkedList/src/DoublyLinkedList.java:5-7 | a new list is empty and valid |
| LinkedLists.DoublyLinkedList.Clear | DoublyLinkedList/src/DoublyLinkedList.java:25-34 | the list is empty with null head and tail and size 0 |
| LinkedLists.DoublyLinkedList.Size | DoublyLinkedList/src/DoublyLinkedList.java:37-39 | the number of elements |
| LinkedLists.DoublyLinkedList.IsEmpty | DoublyLinkedList/src/DoublyLinkedList.java:42-44 | true exactly when there are none |
| LinkedLists.DoublyLinkedList.Add | DoublyLinkedList/src/DoublyLinkedList.java:47-49 | appends the element |
| LinkedLists.DoublyLinkedList.AddFirst | DoublyLinkedList/src/DoublyLinkedList.java:52-60 | prepends the element in a fresh head node |
| LinkedLists.DoublyLinkedList.AddLast | DoublyLinkedList/src/DoublyLinkedList.java:63-71 | appends the element in a fresh tail node |
| LinkedLists.DoublyLinkedList.PeekFirst | DoublyLinkedList/src/DoublyLinkedList.java:74-77 | the first element, EmptyList when empty |
| LinkedLists.DoublyLinkedList.PeekLast | DoublyLinkedList/src/DoublyLinkedList.java:80-83 | the last element, EmptyList when empty |
| LinkedLists.DoublyLinkedList.RemoveFirst | DoublyLinkedList/src/DoublyLinkedList.java:86-99 | returns and drops the first element; EmptyList when empty; head and tail null once empty |
| LinkedLists.DoublyLinkedList.RemoveLast | DoublyLinkedList/src/DoublyLinkedList.java:102-115 | returns and drops the last element; EmptyList when empty; head and tail null once empty |
| LinkedLists.DoublyLinkedList.RemoveNode | DoublyLinkedList/src/DoublyLinkedList.java:118-133 | returns the node's element and drops exactly that position |
| LinkedLists.DoublyLinkedList.Bypass | DoublyLinkedList/src/DoublyLinkedList.java:122-130 | an inner node is unlinked from both neighbours, its position dropped |
| LinkedLists.DoublyLinkedList.RemoveAt | DoublyLinkedList/src/DoublyLinkedList.java:136-152 | as written: IllegalArgument out of range; index < size/2 or the last index removes that element; size/2 <= index < size-1 runs off the head, a NullPointer with the list unchanged |
| LinkedLists.DoublyLinkedList.RemoveAtIntended | DoublyLinkedList/src/DoublyLinkedList.java:146-150 | as intended: every index in range removes and returns that element |
| LinkedLists.DoublyLinkedList.Remove | DoublyLinkedList/src/DoublyLinkedList.java:155-174 | true exactly when the element occurs; only its first occurrence is dropped |
| LinkedLists.DoublyLinkedList.IndexOf | DoublyLinkedList/src/DoublyLinkedList.java:177-195 | the first index holding the element, -1 exactly when absent |
| LinkedLists.DoublyLinkedList.Contains | DoublyLinkedList/src/DoublyLinkedList.java:198-200 | true exactly when the element occurs |
| LinkedLists.DoublyLinkedList.Iterator | DoublyLinkedList/src/DoublyLinkedList.java:203-205 | the iterator will yield the elements from head to tail |
| LinkedLists.ListIterator.constructor | DoublyLinkedList/src/DoublyLinkedList.java:204-205 | a new iterator starts at the head with nothing consumed |
| LinkedLists.ListIterator.HasNext | DoublyLinkedList/src/DoublyLinkedList.java:207-209 | true exactly when elements remain |
| LinkedLists.ListIterator.Next | DoublyLinkedList/src/DoublyLinkedList.java:212-216 | the next element, in order; NullPointer once exhausted |
| LinkedLists.RemoveAtTailSideFails | DoublyLinkedList/src/DoublyLinkedList.java:147 | removeAt(2) on a four-element list fails with NullPointer |
| Stacks.Stack.constructor | Stack/src/Stack.java:10 | the stack is empty |
| Stacks.Stack.WithElement | Stack/src/Stack.java:13-15 | size 1 with the element on top |
| Stacks.Stack.Size | Stack/src/Stack.java:18-20 | the number of elements |
| Stacks.Stack.IsEmpty | Stack/src/Stack.java:23-25 | empty exactly when size is 0 |
| Stacks.Stack.Push | Stack/src/Stack.java:28-30 | the element goes on top; size grows by one |
| Stacks.Stack.Pop | Stack/src/Stack.java:33-36 | EmptyStack when empty; otherwise returns and drops the top; always what `peek` would have returned |
| Stacks.Stack.Peek | Stack/src/Stack.java:39-42 | EmptyStack exactly when empty, otherwise the top |
| Stacks.PushThenPop | Stack/src/Stack.java:28-36 | push then pop returns the pushed element and restores the stack (LIFO) |
| Stacks.PeekThenPop | Stack/src/Stack.java:33-42 | peek and the following pop give the same result |

## Left out

- Printing: `AVLTree.display`, `TreePrinter`, `AVLTree.main` and every `toString` are not modelled. TreePrinter is not part of this model, and `main` draws random numbers.
- Iterators other than the AVL tree's are not modelled: the hand-written walks of the quadratic-probing table over its key slots (HashTableQuadraticProbing.java:248-276) and of the separate-chaining table over its buckets (HashTableSeparateChaining.java:183-225), both with their modification checks, and the `Stack` iterator, which hands out the list's own. The unused helper `next2power` is not modelled either.
- `hashCode` is a parameter `hash: K -> Int32` of each hash table, and `equals` is Dafny equality.
- Nodes, buckets and `java.util.LinkedList` are sequences: tree nodes are datatype values, buckets are `seq<Entry>`, and the stack's list is a `seq`.
- Load factors are a positive fraction num/den, so `(int)(capacity * loadFactor)` is an exact floor. Double rounding, NaN and infinity are not modelled.
- Integers are unbounded except in the quadratic-probing table, whose 32-bit `int` arithmetic (`P`, `hash + P(x)`, `capacity *= 2`) is modelled exactly. Fenwick `long` overflow is not modelled; the Fenwick `int` index arithmetic that can wrap (`size + 1`, `i + lsb(i)` in the build and in `add`) is modelled. Neither is `int` overflow of the tree counters or of the separate-chaining `capacity *= 2`.
- Bst: values are `int`, and `Comparable` is integer order. Java's `add(null)` on an empty tree stores null at the root, after which every comparison with it throws `NullPointerException`; null elements are not modelled.
- Avl: values are `int`, and `Comparable` is integer order. `contains(null)`, which throws from `compareTo`, is not modelled; null is refused by `insert`/`remove` only.
- LinkedLists.ListIterator: `Valid()` ties the cursor to a list that does not change while it is walked. Java's iterator follows the live `next` links with no modification check (DoublyLinkedList.java:203-216), so using it after the list is modified is not modelled.
- Avl.AvlHeightLogarithmic: the cruder bound, roughly h <= 2 * log2(n + 1) + 1; the sharper statements are `Avl.AvlFibonacciBound` and `Avl.AvlHeightBound`.
- Avl.AvlHeightBound: states the height bound with the ratio 8/5 in place of the golden ratio, so its constant is 1.475 rather than the textbook 1.4405 (from h <= 1.4405 * log2(n + 2) - 0.3277), since the golden ratio is irrational. The exact statement from which the textbook constant follows is `Avl.AvlFibonacciBound`.
- Avl.AvlIterator.Next: the iterator walks the tree as it was when created, while Java's iterator walks the live nodes. After an undetected insert+remove the two may yield different values. `UndetectedModification` shows that the modification goes undetected and a stale value comes back, not which value Java would return.
- LinkedLists: null elements are not told apart from other values. `indexOf`/`remove(Object)` compare with Dafny equality, which covers Java's `==` for null and `equals` otherwise when `equals` is an equivalence.
- QuadraticProbing.HashTableQuadraticProbing.constructor: requires an initial threshold of at least 1, so every table whose `(int)(capacity * loadFactor)` is 0 is left out. For most of these Java is harmless: with capacity 8 and load factor 0.1 the first insert resizes to 16, where the threshold is 1, and goes on normally. Only a load factor so small that the threshold stays 0 after doubling (0.01, say) goes wrong: the second insert resizes, and `resizeTable` re-inserts the live key through `insert` while `usedBuckets` (0) is still not below the threshold (0), so that `insert` resizes again inside the first resize. Neither kind of table is modelled.
- QuadraticProbing.HashTableQuadraticProbing.Put: the probe loop is bounded by 2^32 steps. The probe sequence repeats with that period (`ProbePeriodic`), so `NonTermination` is returned exactly when Java would loop forever.
- QuadraticProbing.HashTableQuadraticProbing.Insert: when the resize itself fails (no termination, or a capacity that overflows `int`), the contract says when that happens and which error is returned, but not the state left behind.
- Fenwick.FenwickTree.constructor: requires 0 <= size + 1 < 2^31; `Create` models Java's `NegativeArraySizeException` for the other `int` sizes, including the wrap of size + 1 at size = 2^31 - 1. The `OutOfMemoryError` of an array too large for the heap is not modelled.
- SeparateChaining.HashTableSeparateChaining.constructor: requires a non-negative capacity and a positive load factor. `Create` models the `IllegalArgumentException` otherwise.
- Fenwick.FenwickTree.FromValues: the clone is modelled as a fresh array equal to the input. That the caller's array stays untouched follows from the freshness, not from a separate clause. When the build fails on more than 2^30 cells, the half-built clone is discarded with the exception, so its contents are not stated.

## Findings

| source | as written | input that shows it | evidently intended | confidence | as-written member | corrected member |
|---|---|---|---|---|---|---|
| BinarySearchTree/src/BinarySearchTree.java:139 | `Math.max(height(node.left), height(node.right)+1)` adds 1 only for right edges | a node with only a left leaf child: reports 1, real height 2 | `Math.max(height(node.left), height(node.right)) + 1` | high (not executed) | Bst.HeightMissesLeftEdges | Bst.IntendedHeightBounds |
| HashTableQuadraticProbing/src/com/abhinavgautam/HashTableQuadraticProbing.java:142 | `keyTable[i] != TOMBSTONE` is always true after line 137, so a null slot reaches `keyTable[i].equals(key)` | `get(k)` on a fresh table: NullPointerException | test `keyTable[i] != null`, so that lines 159-161 return null | high (not executed) | QuadraticProbing.AbsentKeyFails | QuadraticProbing.HashTableQuadraticProbing.GetIntended |
| HashTableQuadraticProbing/src/com/abhinavgautam/HashTableQuadraticProbing.java:176 | `keyTable == null` tests the array, never null, so a null slot reaches `equals` | `remove(k)` on a fresh table: NullPointerException | test `keyTable[i] == null` and return null | high (not executed) | QuadraticProbing.AbsentKeyFails | QuadraticProbing.HashTableQuadraticProbing.RemoveIntended |
| HashTableSeperateChaining/src/com/abhinavgautam/HashTableSeparateChaining.java:109-114 | the new list is stored in the table, but `bucket.add` uses the stale null local | the first `insert` into a fresh table: NullPointerException | `table[bucketIndex] = bucket = new LinkedList<>()` | high (not executed) | SeparateChaining.FirstInsertFails | SeparateChaining.HashTableSeparateChaining.InsertIntended |
| DoublyLinkedList/src/DoublyLinkedList.java:147 | the backward walk increments `i` while moving to `prev`, so it never meets `index` below `size-1` | `removeAt(2)` on a list of four elements walks off the head: NullPointerException | `i--` | high (not executed) | LinkedLists.RemoveAtTailSideFails | LinkedLists.DoublyLinkedList.RemoveAtIntended |
