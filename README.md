# Unbalanced binary search tree, modelled and verified in Dafny

The system is one unbalanced binary search tree over numeric keys, written in
`binary-search-tree.js`. It has two classes:

- `Node` has a key and two child links. It searches, inserts and runs the
  three depth-first traversals by recursion.
- `BinarySearchTree` owns the root. It has an iterative `insert` and `find`,
  wrappers for the recursive forms, a queue-based `bfs`, `findSuccessorNode`
  (the leftmost node of a right subtree), and `remove`. `remove` walks down
  with a trailing parent. It then unlinks a leaf, splices in the only child,
  or, when there are two children, copies the successor's key into the node.

The model has the same two layers:

- `trees.dfy` (module `Trees`) gives the tree as a value:
  `Tree = Empty | Node(left, val, right)`. A null link or a null root is
  `Empty`. The ordering invariant is `IsBst`, the key set is `Keys`, and the
  keys counted per node are `Elements`. A reference to a node is its
  *address*: the left/right steps from the root. A field write through a
  reference (`current.left = new Node(val)`, `parent.right = null`,
  `remove.val = updated`) is `Replace` at that address. `Routes` says that an
  address is the walk a search for a key takes.
- `node.dfy` (module `NodeOps`) turns the recursive `Node` methods into
  functions over `Tree`. The receiver may be `Empty`, which stands for the
  null test that the caller makes in the source.
- `bst.dfy` (module `Bst`) is the class `BinarySearchTree` with a mutable
  `root`. Its loops (`Insert`, `Find`, `Bfs`, `FindSuccessorNode`, `Remove`)
  are methods, and each is proved against the functions of the other modules.
- `levels.dfy` (module `LevelOrder`) defines breadth-first order without a
  queue: level by level, each level left to right. It also defines what a
  FIFO queue of nodes emits (`BfsQueue`) and proves the two equal.
- `removal.dfy` (module `Removal`) defines removal as a function of the tree
  (`Removed`), plus the successor (`Leftmost`). It proves what removal keeps.
- `scenarios.dfy` (module `Scenarios`) builds the small and large fixture
  trees of the source's test suite. It states the outcomes the suite expects
  of insert, find, the traversals, the successor and the removal cases as
  assertions about the model's methods. One further case states that the
  iterative and the recursive insert build the same tree.

Three behaviours of the code shape the contracts:

- The iterative `insert` has no branch for an equal key, so it never ends
  on a key the search finds.
- `remove` dereferences null on an absent key.
- `remove` returns a node, not a key.

## Model

| member | source | states |
|---|---|---|
| NodeOps.FindRecursively | binary-search-tree.js:13-22 | a found result is a node holding exactly `val`, and its keys are keys of the searched tree |
| NodeOps.FindRecursivelyOnBst | binary-search-tree.js:13-22 | on a search tree the search succeeds exactly when `val` is one of the tree's keys |
| NodeOps.FindRecursivelyReachesNode | binary-search-tree.js:13-22 | a successful search returns the tree's own subtree at the end of the search route for `val` |
| NodeOps.FindAlongRoute | binary-search-tree.js:14-20 | after walking a search route, the search from the reached subtree gives the same answer as the search from the root |
| NodeOps.InsertRecursively | binary-search-tree.js:27-39 | the result is a node whose key set is the old key set plus `val`; the root keeps its key |
| NodeOps.InsertRecursivelyKeepsOrder | binary-search-tree.js:27-39 | insertion preserves the ordering invariant |
| NodeOps.InsertRecursivelyDuplicate | binary-search-tree.js:27-39 | a key the search finds fires neither branch, so the tree is unchanged |
| NodeOps.InsertRecursivelyAttachesLeaf | binary-search-tree.js:27-39 | an absent key goes into a new leaf at the empty slot where its search route ends (so, by `Trees.ReplaceElsewhere` and `Trees.ReplaceBelow`, every other node keeps its key and place); the size grows by one |
| NodeOps.DfsPreOrder | binary-search-tree.js:44-56 | lists every node's key once (multiset equals the tree's) and starts with the root key |
| NodeOps.DfsInOrder | binary-search-tree.js:61-73 | lists every node's key once |
| NodeOps.DfsPostOrder | binary-search-tree.js:78-90 | lists every node's key once and ends with the root key |
| NodeOps.TraversalsArePermutations | binary-search-tree.js:44-90 | the three depth-first orders are permutations of each other, of length the node count, and hold exactly the tree's keys |
| NodeOps.IncreasingAround | binary-search-tree.js:61-73 | `left ++ [v] ++ right` is strictly increasing iff both parts are and `v` lies strictly between them |
| NodeOps.InOrderIncreasingIffBst | binary-search-tree.js:61-73 | the in-order traversal is strictly ascending if and only if the tree satisfies the ordering invariant |
| Bst.BinarySearchTree.constructor | binary-search-tree.js:96-98 | the tree starts with the given root, empty by default |
| Bst.BinarySearchTree.FindRecursively | binary-search-tree.js:162-166 | `None` on an empty tree; otherwise the node search; on a search tree it succeeds exactly for present keys |
| Bst.BinarySearchTree.Find | binary-search-tree.js:145-157 | the cursor loop returns exactly what the recursive search returns, on every tree; on a search tree it finds exactly the present keys |
| Bst.BinarySearchTree.Insert | binary-search-tree.js:103-127 | for a key the search does not find, the new root equals the recursive insertion's result; the key set gains `val`, the size grows by one, and the ordering invariant is kept |
| Bst.BinarySearchTree.InsertRecursively | binary-search-tree.js:132-140 | a single leaf on an empty tree, otherwise the node insertion; the key set gains `val`, the order is kept, and a key already present leaves the tree unchanged |
| Bst.BinarySearchTree.DfsPreOrder | binary-search-tree.js:171-175 | `[]` on an empty tree; otherwise starts with the root key and holds each node's key once |
| Bst.BinarySearchTree.DfsInOrder | binary-search-tree.js:180-184 | `[]` on an empty tree; holds each node's key once; strictly ascending exactly when the tree is a search tree |
| Bst.BinarySearchTree.DfsPostOrder | binary-search-tree.js:189-193 | `[]` on an empty tree; otherwise ends with the root key and holds each node's key once |
| Bst.BinarySearchTree.Bfs | binary-search-tree.js:198-214 | the queue loop returns the level order (level by level, left before right); it is `[]` exactly on an empty tree, starts with the root key, holds each node once, and is a permutation of the pre-order |
| Bst.BinarySearchTree.FindSuccessorNode | binary-search-tree.js:219-227 | `None` exactly when there is no right child; otherwise the leftmost node of the right subtree, which has no left child; on a search tree its key is the smallest key of the subtree above the node's own |
| Bst.BinarySearchTree.Remove | binary-search-tree.js:233-282 | for a present key in a search tree, the new root equals `Removed(old root, val)`; the tree stays a search tree, loses exactly `val`, and has one node fewer; the result is the unlinked node, or with two children the node that stayed and now holds the successor's key |
| Removal.Leftmost | binary-search-tree.js:222-226 | the node reached by left links has no left child, holds a key of the tree, and on a search tree holds its smallest key |
| Removal.LeftmostAddress | binary-search-tree.js:222-226 | the leftmost node lies at an address made only of left steps |
| Removal.SuccessorIsNextLarger | binary-search-tree.js:216-227 | on a search tree the leftmost key of the right subtree is the smallest key above the node's; the right subtree is empty iff no key is above the node's |
| Removal.FindLeftmost | binary-search-tree.js:255-257 | searching a search tree for its smallest key finds its leftmost node, as the recursive removal of the successor's key does |
| Removal.Removed | binary-search-tree.js:233-282 | removal never adds keys |
| Removal.RemovedKeepsOrder | binary-search-tree.js:233-282 | removal from a search tree gives a search tree with key set minus `val`, and one node fewer exactly when `val` was present |
| Removal.RemovedBelowKeepsOrder | binary-search-tree.js:237-244 | the same, when the walk leaves the root for the side the comparison picks |
| Removal.RemovedRootKeepsOrder | binary-search-tree.js:254-258 | the same, when the removed node has two children and takes its successor's key |
| Removal.RemovedLeftmostUnlinks | binary-search-tree.js:254-258 | removing the successor's key unlinks only the successor's node: the tree is the old one with its right subtree written at the successor's address, so by `Trees.ReplaceElsewhere` and `Trees.ReplaceBelow` every other node stays in place |
| Removal.RemovedAlongRoute | binary-search-tree.js:237-244 | a removal whose walk has reached an address is a write of the removed-from subtree at that address, so (by `Trees.ReplaceElsewhere`) nothing off the walk changes |
| LevelOrder.Children | binary-search-tree.js:209-210 | what one visit pushes: only existing children, left before right |
| LevelOrder.BfsQueueStep | binary-search-tree.js:206-211 | one turn of the loop emits the front key and leaves a queue of nodes with the children appended, with fewer keys left to emit |
| LevelOrder.BfsQueueElements | binary-search-tree.js:206-211 | the queue loop emits every node of the queued trees exactly once |
| LevelOrder.BfsQueueSplit | binary-search-tree.js:206-211 | draining a queue emits the roots of its front part first and queues their children behind the rest |
| LevelOrder.BfsQueueIsLevelOrder | binary-search-tree.js:198-214 | the loop seeded with the root emits exactly the level order |
| LevelOrder.BfsQueueFromRoot | binary-search-tree.js:198-214 | the loop seeded with one root emits the level order, which holds each node once, is a permutation of the pre-order, and starts with the root key |
| Trees.Replace | binary-search-tree.js:113-120 | writing a subtree at an address leaves that address reaching exactly the written subtree |
| Trees.ReplaceElsewhere | binary-search-tree.js:113-120 | a write at one address leaves every address that turns off it reaching the same subtree as before |
| Trees.ReplaceBelow | binary-search-tree.js:248-252 | seen from a node above the written address, the write happens inside that node's subtree; the node keeps its key |
| Trees.ReplaceStep | binary-search-tree.js:113-120 | writing child slot `d` of the node at `a` is writing the subtree at address `a + [d]` |
| Trees.ReplaceTwice | binary-search-tree.js:257-258 | a second write at the same address overrides the first |
| Trees.RoutesStep | binary-search-tree.js:237-244 | a walk that meets a node with a different key goes one step further, in the direction the comparison picks |
| Trees.RoutesToSubtreeKeys | binary-search-tree.js:254-257 | in a search tree, the walk to a node is also the walk for every key below it, so the successor's removal from the root passes through the node |

## Left out

- NodeOps.InsertRecursively: models only the effect on the tree. The source's doc comment promises the inserted node, but the code always returns `undefined`, and that return value is not modelled.
- Bst.BinarySearchTree.Insert: requires that the search does not find `val`. The source loop has no equal-key branch and never ends on a duplicate. It also returns `this` for chaining, which is not modelled.
- Bst.BinarySearchTree.InsertRecursively: returns nothing. The source returns `this` for chaining.
- Bst.BinarySearchTree.Remove: requires a search tree holding `val`. On an absent key or an empty tree the source dereferences null. On a tree that breaks the ordering, the second walk for the successor's key may not reach the successor. Neither case is modelled, and no NotFound result is invented.
- Bst.BinarySearchTree.FindSuccessorNode: requires a node. The source reads `node.right` without a null check, so a null or undefined argument throws a TypeError, and that error path is not modelled. The node is taken as a tree value. Whether it belongs to this tree is not tracked, and the source ignores it too.
- Object identity and aliasing: nodes are values. A node returned by `find` is a snapshot of its subtree, and a later change to the tree does not show in it. `this.root === remove` and `parent.left === remove` are modelled by the walk's address: an empty address is the root, and the last step is the parent's slot.
- Test fixtures built by assigning `.left`/`.right` by hand are tree literals in `Scenarios`. The large fixture's depth-first and breadth-first sequences are not restated there; only the small fixture's are.
- JavaScript comparison semantics (`===` against `<`/`>` on non-numbers, NaN, mixed types, `null` against `undefined`) are not modelled. Keys are unbounded integers, and absence is `None` or `Empty`.
- `dfsInOrderWithHelper` and `dfsPostOrderWithHelper` are called by the test suite but do not exist in the source, so there is nothing to model.
- `module.exports` and the test framework scaffolding are not modelled.
