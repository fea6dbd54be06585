# Ordered key stores: AVL tree, binary search tree, B-tree

The repository has three independent in-memory ordered sets of integer keys,
written in C. Each supports insert (duplicates rejected), lookup, and size.
The two binary trees also support removal, minimum, maximum and height.

- `avl.c`: a self-balancing AVL tree. Every node stores its subtree's size
  and height. After each insert or removal, `updateHeight` and `rotate`
  restore the balance of every node on the path.
- `bst.c`: the same interface without rebalancing. `removeNode` finds the
  replacement key's parent with `getParent`, decrements the stored sizes with
  `decrementChain`, and unlinks the node.
- `btree.c`: a B-tree of configurable degree. Each node owns
  `degree + 1` key slots and `degree + 2` child slots, allocated zeroed.
  Inserting into a full node splits it around its middle key, which moves up
  into the parent. A full root is split under a new root.

This project models the three stores as three Dafny modules: `Avl`
(`avl.dfy`), `Bst` (`bst.dfy`) and `BTree` (`btree.dfy`).

**AVL tree and binary search tree.** Both are modelled on values. A tree is a
datatype whose nodes carry the stored `size` and `height` fields. Each C
mutator takes a `struct node **` slot. It becomes a function that returns the
subtree the call leaves in that slot, together with the C return code
(0 or -1, or the removed key for `avlDeleteMin`/`avlDeleteMax`). The
functions follow the C code branch by branch:

- `rotate` chooses between a single and a double rotation exactly as the C
  code does.
- `avlRemove` takes the right subtree's minimum whenever a right child exists
  (even when there is no left child). It takes the left subtree's maximum only
  when there is no right child.
- `removeNode` in `bst.c` is modelled through `getParent` and
  `decrementChain`, with paths (`seq<Dir>`) standing in for parent pointers.
  This includes its "not found" failure path.

The lemmas prove what the C code maintains:

- the order invariant;
- the size fields;
- for the AVL tree, the height fields and the balance condition;
- the exact key set after each operation;
- the meaning of every return code.

**B-tree.** Nodes are values too, but their key and child arrays are kept
at their allocated lengths, including the stale slots beyond `size` that the
C code never clears. `memmove` and `memcpy` are the sequence functions
`Move`, `OpenIn` and `Copy`. `_btree_insert` is the imperative method
`InsertInto`, with its scan loop. Its leaf store is the method `PlaceInLeaf`,
its recursive descent is `Descend`, and its handling of the child's result is
`Adopt`: either store the new child, or split it and take the lifted key.
`btree_insert` is `InsertAtRoot`, called by the class `Tree`, whose fields
are those of `struct btree` (`degree`, `size`, `root`). Every method is
proved against an ordered in-order walk of the tree (`Walk`) and `Place`, the
insertion of one key into a sorted sequence. `Shape` states the layout
invariant:

- slot counts;
- at most `degree` keys in every node (one more while an overflow waits to be split);
- no child links in a leaf, and live children at least at the first `size + 1` positions of inner nodes;
- all leaves at the same depth.

In `Tree.Insert`, the first key's `size = 1` is written as `size + 1`. The
two agree because a tree without a root has size 0, which `Tree.Valid`
records.

## Model

| member | source | states |
|---|---|---|
| Avl.UpdateHeight | avl.c:21-31 | an empty slot stays empty and a node stays a node; its effect is stated by UpdateHeightRepairs and UpdateHeightIdle |
| Avl.RotateLeft | avl.c:33-53 | the promoted right child is the new top node; keys, order and fields are stated by RotateLeftInOrder, RotateLeftOrdered and RotateLeftMetrics |
| Avl.RotateRight | avl.c:54-74 | the mirror of RotateLeft, stated by RotateRightInOrder, RotateRightOrdered and RotateRightMetrics |
| Avl.Rotate | avl.c:76-123 | an empty slot stays empty and a node stays a node; what it restores is stated by RotateRestores |
| Avl.UpdateHeightRepairs | avl.c:21-31 | given children with correct heights, updateHeight leaves a node whose height is one more than its taller child's, and changes nothing else |
| Avl.UpdateHeightIdle | avl.c:21-31 | updateHeight on a node whose heights are already right changes nothing |
| Avl.RotateLeftInOrder | avl.c:33-53 | a left rotation keeps the in-order sequence of keys |
| Avl.RotateRightInOrder | avl.c:54-74 | a right rotation keeps the in-order sequence of keys |
| Avl.RotateLeftOrdered | avl.c:33-53 | a left rotation of an ordered tree keeps the key set and the order |
| Avl.RotateRightOrdered | avl.c:54-74 | a right rotation of an ordered tree keeps the key set and the order |
| Avl.RotateLeftMetrics | avl.c:40-52 | after the size and height rewrites of rotateLeft, both moved nodes have correct sizes and heights, and the subtree's size is unchanged |
| Avl.RotateRightMetrics | avl.c:61-73 | the mirror for rotateRight |
| Avl.FixLeftSingle | avl.c:97-100 | when the left side is two higher and not heavier on its inner side, one right rotation yields an AVL tree with the same keys and size, at most one level lower |
| Avl.DoubleLeftSound | avl.c:91-96 | the left-right double rotation keeps the keys, the order, the sizes and the heights |
| Avl.FixLeftDouble | avl.c:91-96 | when the left child's inner side is higher, the double rotation yields an AVL tree exactly one level lower |
| Avl.FixRightSingle | avl.c:113-116 | the mirror of FixLeftSingle for a right side two higher |
| Avl.DoubleRightSound | avl.c:107-112 | the right-left double rotation keeps the keys, the order, the sizes and the heights |
| Avl.FixRightDouble | avl.c:107-112 | the mirror of FixLeftDouble |
| Avl.RotateRestores | avl.c:76-123 | rotate turns a node whose children are AVL and differ in height by at most two into an AVL tree with the same keys and size, at most one level lower; it changes the node exactly when the children differ by more than one |
| Avl.Rebuild | avl.c:149-155 | a node reassembled from two AVL children, with its size set and then updateHeight and rotate applied, is AVL, holds the children's keys and its own, and is as tall as its taller child or one taller |
| Avl.Insert | avl.c:127-161 | avlInsert returns 0 or -1, and on -1 (duplicate) the slot is left as it was |
| Avl.InsertLeftStep | avl.c:142-155 | one level of avlInsert into the left subtree keeps the AVL invariants and adds the key |
| Avl.InsertRightStep | avl.c:142-155 | the same for the right subtree |
| Avl.InsertCorrect | avl.c:127-161 | on an AVL tree, avlInsert returns 0 exactly when the key was absent, leaves an AVL tree with exactly the old keys plus the key, raises the root size by one only on success, and grows the height by at most one |
| Avl.DeleteMin | avl.c:163-194 | the key avlDeleteMin returns is a key of the tree; DeleteMinCorrect states that it is the smallest and what is left |
| Avl.DeleteMinStep | avl.c:165-174 | one level of avlDeleteMin's leftward descent keeps the delete guarantee |
| Avl.DeleteMinHere | avl.c:175-190 | at the node without a left child, its right subtree takes its place and its key is the smallest |
| Avl.DeleteMinCorrect | avl.c:163-194 | avlDeleteMin on a non-empty AVL tree returns its smallest key and leaves an AVL tree of the other keys, one node smaller, at most one level lower |
| Avl.DeleteMax | avl.c:195-226 | the key avlDeleteMax returns is a key of the tree; DeleteMaxCorrect states that it is the largest and what is left |
| Avl.DeleteMaxStep | avl.c:197-206 | the mirror of DeleteMinStep |
| Avl.DeleteMaxHere | avl.c:207-222 | the mirror of DeleteMinHere |
| Avl.DeleteMaxCorrect | avl.c:195-226 | avlDeleteMax returns the largest key with the same guarantees |
| Avl.Remove | avl.c:228-275 | avlRemove returns 0 or -1, and on -1 the slot is left as it was |
| Avl.RemoveRoot | avl.c:230-249 | removing the key at a node empties the slot exactly when the node is a leaf |
| Avl.ReplaceByMin | avl.c:233-235 | overwriting the removed key with the minimum taken from the right subtree, then updating size, height and balance, meets the removal guarantee |
| Avl.ReplaceByMax | avl.c:236-238 | the same with the maximum of the left subtree when there is no right subtree |
| Avl.RemoveHereRight | avl.c:230-235 | removal at a node with a right child meets the removal guarantee |
| Avl.RemoveHereLeft | avl.c:230-238 | removal at a node with only a left child meets the removal guarantee |
| Avl.RemoveLeftStep | avl.c:251-261 | a successful removal in the left subtree, followed by the size decrement, updateHeight and rotate, meets the removal guarantee |
| Avl.RemoveRightStep | avl.c:262-271 | the same for the right subtree |
| Avl.RemoveDescendLeft | avl.c:251-261 | if removal is correct in the left subtree, it is correct at the node, whether or not the key was found there |
| Avl.RemoveDescendRight | avl.c:262-271 | the same for the right subtree |
| Avl.RemoveCorrect | avl.c:228-275 | on an AVL tree, avlRemove returns 0 exactly when the key was present, leaves an AVL tree of exactly the other keys, lowers the root size by one only on success, and drops the height by at most one |
| Avl.Find | avl.c:278-290 | avlFind returns 1 with the node holding the key, or 0 with no node; a node is returned only when it holds the key |
| Avl.FindComplete | avl.c:278-290 | in an ordered tree, avlFind finds every key that is present |
| Avl.Size | avl.c:292-302 | size() counts one per key in the in-order walk |
| Avl.SizeMatchesField | avl.c:292-302 | the recursive count of size() equals the root's size field when the sizes are correct |
| Avl.SizeCountsKeys | avl.c:292-302 | in an ordered tree, size() is the number of distinct keys |
| Avl.MaxHeight | avl.c:304-323 | the longest downward path of a non-empty tree has fewer edges than the tree has nodes |
| Avl.MaxHeightMatchesField | avl.c:304-323 | the recursive maxHeight (edges on the longest path) is one less than the root's stored height |
| Avl.AvlHeightBound | avl.c:76-123 | the balance rotate maintains bounds the height by the size: an AVL tree of height h holds at least 2^(h/2) - 1 keys, so h is at most about 2 log2(size + 1) |
| Avl.MaxKey | avl.c:325-329 | max returns 0 for an empty tree, otherwise a key of the tree |
| Avl.MaxKeyIsLargest | avl.c:325-329 | in an ordered tree, no key exceeds max |
| Avl.MinKey | avl.c:330-334 | min returns 0 for an empty tree, otherwise a key of the tree |
| Avl.MinKeyIsSmallest | avl.c:330-334 | in an ordered tree, no key is below min |
| Avl.CheckAvl | avl-test.c:24-93 | checkAVL returns 0 exactly when every node passes the local checks (each child's key on its side of the parent's, the size sum at nodes with two children, child heights within one), and -1 or 1 otherwise |
| Avl.AvlPassesCheck | avl-test.c:24-93 | every AVL tree passes checkAVL |
| Avl.InsertAll | avl-test.c:108-120 | the insert loop yields one return code per key; InsertAllCorrect states what the loop leaves |
| Avl.InsertAllCorrect | avl-test.c:108-120 | a run of inserts leaves an AVL tree holding the old keys and all inserted ones, with one more key per insert that returned 0 |
| Avl.RemoveAll | avl-test.c:131-141 | the remove loop yields one return code per key; RemoveAllDrains states what the loop leaves |
| Avl.RemoveAllDrains | avl-test.c:131-141 | removing every key of an AVL tree, each once, succeeds every time and leaves the empty tree |
| Bst.Put | bst.c:116 | storing a subtree through a slot path that leads through nodes puts exactly that subtree in the slot, and a slot below the root keeps the root's key and size |
| Bst.PutElsewhere | bst.c:141 | storing through one slot leaves every slot apart from it unchanged |
| Bst.Insert | bst.c:60-87 | insert returns 0 or -1, and on -1 the tree is left as it was |
| Bst.InsertCorrect | bst.c:60-87 | on an ordered tree with correct sizes, insert returns 0 exactly when the key was absent, keeps both invariants, adds exactly the key, and raises the root size by one only on success |
| Bst.InsertGrafts | bst.c:60-87 | inserting an absent key returns 0 and hangs one new leaf of size 1 in the empty slot at the end of the search path; apart from the sizes, every other link and key is unchanged |
| Bst.GetParent | bst.c:22-42 | when getParent finds a slot, the slot lies below the root and holds the key |
| Bst.GetParentFinds | bst.c:22-42 | in an ordered tree, getParent finds a slot exactly when the key is present below the root |
| Bst.DecrementChain | bst.c:45-58 | decrementChain changes only sizes: the links and keys stay as they were, so does the order, and the node count is unchanged |
| Bst.SizesOkAbove | bst.c:45-58 | in a subtree without the key, the sizes decrementChain leaves are the plain node counts |
| Bst.DecrementChainCounts | bst.c:45-58 | on a valid tree containing the key, decrementChain lowers by one exactly the sizes of the nodes strictly above the key's node |
| Bst.UnlinkMin | bst.c:106-118 | for the smallest key below the root, getParent always finds its slot, and unlinking it after decrementChain leaves a valid tree of the other keys, one node smaller |
| Bst.UnlinkMax | bst.c:131-143 | the same for the largest key, with the node's left subtree taking its place |
| Bst.LeftmostHasNoLeft | bst.c:100-105 | the node holding a tree's smallest key has no left child |
| Bst.RightmostHasNoRight | bst.c:126-131 | the node holding a tree's largest key has no right child |
| Bst.MinKey | bst.c:218-222 | min returns 0 for an empty tree, otherwise a key of the tree |
| Bst.MinKeyIsSmallest | bst.c:218-222 | in an ordered tree, no key is below min |
| Bst.MaxKey | bst.c:213-217 | max returns 0 for an empty tree, otherwise a key of the tree |
| Bst.MaxKeyIsLargest | bst.c:213-217 | in an ordered tree, no key exceeds max |
| Bst.RemoveHere | bst.c:95-150 | removing the node at the top of a slot returns 0 or -1 |
| Bst.PromoteRight | bst.c:100-105 | when the right child holds the right minimum, moving it up with its right subtree meets the removal guarantee |
| Bst.SpliceRight | bst.c:106-118 | when the right minimum sits deeper, getParent finds its slot, and overwriting the key, decrementChain and the relink meet the removal guarantee |
| Bst.PromoteLeft | bst.c:126-131 | the mirror of PromoteRight with the left maximum |
| Bst.SpliceLeft | bst.c:132-143 | the mirror of SpliceRight with the left maximum |
| Bst.RemoveHereRight | bst.c:95-120 | removal at a node with a right child, with its key replaced by the right subtree's minimum, keeps the invariants, drops exactly the key, and returns 0 |
| Bst.RemoveHereLeft | bst.c:121-145 | the same with the left subtree's maximum when there is no right child |
| Bst.Remove | bst.c:89-165 | removeNode returns 0 or -1 |
| Bst.RemoveCorrect | bst.c:89-165 | on a valid tree, removeNode returns 0 exactly when the key was present, keeps the invariants, drops exactly the key, lowers the root size by one only on success, and leaves the tree untouched when the key is absent |
| Bst.Find | bst.c:168-178 | find returns 1 or 0, and 1 only for a present key |
| Bst.FindComplete | bst.c:168-178 | in an ordered tree, find returns 1 for every present key |
| Bst.Size | bst.c:180-190 | size counts zero exactly for the empty tree; SizeMatchesField and SizeCountsKeys state what it counts |
| Bst.SizeMatchesField | bst.c:180-190 | the recursive count equals the root's size field when the sizes are correct |
| Bst.SizeCountsKeys | bst.c:180-190 | in an ordered tree, size is the number of distinct keys |
| Bst.MaxHeight | bst.c:192-211 | the longest downward path of a non-empty tree has fewer edges than the tree has nodes |
| Bst.MaxHeightCountsEdges | bst.c:192-211 | maxHeight of a non-empty tree is one less than its number of levels |
| BTree.NewNode | btree.c:33-58 | a new node is an empty leaf with the layout for its degree |
| BTree.Zeros | btree.c:43-48 | the zeroed key array holds degree + 1 zeros |
| BTree.Nulls | btree.c:50-55 | the zeroed child array holds degree + 2 null links |
| BTree.Move | btree.c:131-138 | memmove of count slots one place up: the slots from at + 1 to at + count hold their left neighbours' old values, every other slot is unchanged |
| BTree.Copy | btree.c:156-157 | memcpy to the front: the first slots hold the source, the rest of the destination is unchanged |
| BTree.MoveOpens | btree.c:113-118 | shifting the live slots from the insertion point up by one, then storing the new element there, leaves the slots below unchanged, the new element at the point and the old live slots one place higher |
| BTree.OpenIn | btree.c:131-141 | the guarded shift-and-store of the key and child arrays yields an array opened at the point with the new element |
| BTree.Probe | btree.c:104-107 | the live probe matches only on a live slot; ScanDivides states what it decides |
| BTree.ScanDivides | btree.c:99-107 | after the scan stops at the first key not below k, all keys before the stop slot are below k; unless the live key at the stop slot equals k, all keys after that child are above k; and k is in the node's walk exactly when the live probe matches or k is in the child at the stop slot |
| BTree.LiveKeysAscending | btree.c:99-101 | the live keys of a node whose walk is sorted are strictly ascending, which is what the linear scan relies on |
| BTree.LeafInsert | btree.c:109-120 | storing the key at the stop slot of a leaf, after the shift, gives a leaf whose walk is the old walk with k placed in order |
| BTree.PlaceInLeaf | btree.c:109-120 | the leaf insertion keeps the layout (allowing one key of overflow), places k in order, and grows the node by one key |
| BTree.ChildOf | btree.c:122-124 | the child at the stop slot of an inner node exists, has the layout one level down, and its walk is sorted |
| BTree.AdoptChild | btree.c:124 | replacing the child at the stop slot by one whose walk is the old child's walk with k placed keeps the layout and places k in the parent's walk |
| BTree.Cleave | btree.c:144-162 | the two halves and the middle key account for every live key of the overfull node; the left half keeps the node's arrays, and the new right node has the full allocated lengths |
| BTree.CleaveRight | btree.c:144-162 | the new right node holds exactly the keys and children above the middle slot, copied to its front, and null links elsewhere |
| BTree.CleaveShape | btree.c:144-162 | splitting an overfull node at its middle gives two nodes with the full layout invariant |
| BTree.CleaveWalk | btree.c:144-162 | the left half's walk, the middle key and the right half's walk make up the overfull node's walk |
| BTree.CleaveSplits | btree.c:144-162 | the split gives left and right halves of sizes size/2 and (size-1)/2 holding the keys below and above the middle key, in order |
| BTree.AdoptSplitShape | btree.c:131-149 | storing the lifted key and the new right node in the parent keeps the parent's layout, with at most one key of overflow |
| BTree.AfterGrown | btree.c:131-141 | after opening the parent at the stop slot, the part of its walk after the stop child is the lifted key, the right node's walk, and the old part after it |
| BTree.AdoptSplitWalk | btree.c:125-166 | the parent's new walk is its old walk with k placed in order |
| BTree.AdoptHalves | btree.c:125-166 | adopting both halves of a split child and the lifted key keeps the layout and places k in order |
| BTree.AdoptSplit | btree.c:125-166 | the same for the exact arrays _btree_insert builds after a child's split |
| BTree.Adopt | btree.c:124-166 | after a successful recursive insert, storing the child or adopting its split halves keeps the layout and places k in order; the node gains a key exactly when the child split |
| BTree.Descend | btree.c:122-124 | the recursive insert into the stop child returns -1 exactly when k was in that child, leaving the node as it was, and otherwise leaves a node with k placed in order |
| BTree.InsertInto | btree.c:94-178 | _btree_insert returns -1 exactly when k is already in the subtree (nothing changes), otherwise leaves a node with the layout and k placed in order; it returns a positive middle index and the lifted key exactly when the node overflowed |
| BTree.FindIn | btree.c:258-274 | _btree_find returns 1 exactly when k is in the subtree |
| BTree.PlaceAdds | btree.c:94-178 | placing a key lengthens the walk by one, adds exactly that key, and keeps a sorted walk sorted when the key is new |
| BTree.SortedCount | btree-test.c:45-47 | a sorted walk has no repeated key, so its length is the number of distinct keys |
| BTree.Grows | btree.c:94-178 | inserting a new key into a sorted walk keeps it sorted, lengthens it by one and adds exactly that key to the key set |
| BTree.FirstRoot | btree.c:188-203 | the first root has size 1, the key in slot 0, the allocated key length and only null links |
| BTree.FirstRootWalk | btree.c:188-203 | the first root, holding the key in slot 0, is a leaf with the layout whose walk is that key alone |
| BTree.SplitRoot | btree.c:221-240 | the new root holds the lifted key alone, the old root as child 0, the new right node as child 1 and null links elsewhere |
| BTree.RootSplit | btree.c:221-251 | splitting an overfull root under a new root holding the middle key gives a tree one level taller with the layout, whose walk is the old root's walk |
| BTree.InsertAtRoot | btree.c:183-256 | btree_insert returns -1 exactly when k is present, leaving the root as it was; otherwise the tree keeps its invariants, gains exactly k, and grows in height by at most one, and only by a root split whose new root has one key and two children |
| BTree.Tree.constructor | btree-test.c:9 | a new tree with the given degree is empty, with size 0 |
| BTree.Tree.Insert | btree.c:183-256 | btree_insert keeps the tree valid, returns -1 exactly when the key was present, adds exactly the key, counts it in size only on success, and leaves a duplicate insert without effect |
| BTree.Tree.Find | btree.c:276-278 | btree_find returns 1 exactly when the key is in the tree |
| BTree.Tree.SizeCountsKeys | btree-test.c:45-47 | the size field equals the number of distinct keys, which is the test driver's final check |
| BTree.ProbeAsWritten | btree.c:104-107 | the probe as written agrees with the live-key probe whenever the scan stops on a live slot |
| BTree.StaleSlotMatches | btree.c:104 | a degree-3 tree holding only -5 has a zero in its first stale slot, so the probe as written claims that the absent key 0 is present |

## Left out

- In-place update and aliasing in `avl.c` and `bst.c`. The mutators work on `struct node **` slots, and the model returns the new subtree as a value. Pointer identity, `malloc` and `free` are not modelled.
- B-tree nodes are values. The model captures neither sharing of nodes nor the in-place writes into a node's arrays: each write yields a new node value.
- Allocation failure (`btree.c:145-147`, `192-194`, `223-225`, `237-239`) is not modelled. Neither are the unchecked `malloc` results in `avl.c:130` and `bst.c:63`.
- The `NULL` tree and node guards of `btree.c:95` and `btree.c:184` are not modelled, because a `Tree` object always exists. The empty root is modelled.
- Integer widths are not modelled: `long` keys (`data_t`) in the AVL tree, `int` keys in the binary search tree, `long` keys and `unsigned short` degree in the B-tree, `size_t` and `uint32_t` size fields, and `char` return codes. Keys and counts are unbounded integers.
- Degree 0 is not modelled: the B-tree requires `degree >= 1`. With degree 0 the C code writes past the arrays it allocates.
- `printTree`, `btree_print` and the destroy functions are left out, because they do I/O or only free memory. So are the diagnostic `printf` calls: "Something wrong" in `rotateLeft` and `rotateRight` (`avl.c:35`, `avl.c:56`), the pointer `avlFind` prints on every call (`avl.c:279`), "Remove failed" in `bst.c`'s removal failure path, and those of `checkAVL` in `avl-test.c`.
- The B-tree's minimum occupancy is not stated: `Shape` does not say that a non-root node holds at least `degree / 2` keys, although every split in `btree.c:144-162` and `btree.c:236-251` leaves both halves at least that full.
- The driver loop of `btree-test.c` (random keys, timing, output) is left out. Its size check is `Tree.SizeCountsKeys`, together with the size clause of `Tree.Insert`.
- Avl.DeleteMinCorrect requires a non-empty tree, so the `NULL` branch of `avlDeleteMin` (return 0) is not modelled. `avlRemove` never calls it on an empty slot.
- Avl.DeleteMaxCorrect requires a non-empty tree, so the `NULL` branch of `avlDeleteMax` (return -1) is not modelled.
- BTree.InsertInto returns `lift` as 0 when no split happens. The C code leaves `*lift` unwritten in that case, and no caller reads it then.
- The B-tree's `height` is a ghost field. The C structure does not store it, and it serves only to state that all leaves are at the same depth.

## Findings

| source | as written | input that shows it | evidently intended | confidence | as-written member | corrected member |
|---|---|---|---|---|---|---|
| btree.c:104 | after the scan, `_btree_insert` compares `data[stop]` with the key even when `stop == size`, which reads a stale (zeroed or left-over) slot | degree 3: insert -5 into an empty tree, then insert 0. The scan stops at slot 1 == size, whose zero equals 0, so -1 is returned and 0 is never stored | compare only live keys (`stop < size`): the comment before the function speaks of the indices [0, size) only | not executed | BTree.StaleSlotMatches | BTree.InsertInto |
| btree.c:266 | `_btree_find` makes the same unguarded comparison | the same tree holding only -5: `btree_find(0)` returns 1 | report only keys stored in live slots | not executed | BTree.ProbeAsWritten | BTree.FindIn |
