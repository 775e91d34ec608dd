# Two-dimensional k-d tree (`TwoDTree`)

A Dafny model of the spatial index in `src/app/build_graph/kdtree.rs`.

`TwoDTree` is a binary tree of `TreeNode`s. Each node stores:

- an entity;
- a location;
- two optional branches: slot 0 holds points less than or equal to the node
  on its splitting axis, slot 1 holds greater points;
- a depth, which picks the splitting axis as `depth % DIMENSION`.

The model covers these operations:

- `insert`: an empty index gets a root at depth 0. Otherwise, under the write
  lock, `search_parent_mut` descends to an empty slot and a childless node is
  attached there, one deeper than its parent.
- `search_parent_list` / `explore_subtree`: the stack of nodes along the
  descent of a query.
- `nearest_neighboor_search`: the backtracking nearest-neighbour search over
  that stack.
- `n_nearest_neighboors_search`: the k-nearest search, as far as the code
  implements it.
- `Item`: the search result and the order it ranks by.

Modules, one per file:

| module | file | content |
|---|---|---|
| `Wrappers` | wrappers.dfy | `Option` |
| `Geometry` | geometry.dfy | points, axes, the side rule, squared distances |
| `KdTree` | kdtree.dfy | the tree datatype, contents, the depth and k-d ordering invariants, addresses |
| `Insertion` | insertion.dfy | `search_parent_mut` and `insert` |
| `SearchPath` | searchpath.dfy | `explore_subtree` and `search_parent_list` |
| `Items` | items.dfy | `Item`, its order, `peek` |
| `Nearest` | nearest.dfy | both searches as written |
| `NearestCorrected` | nearest_corrected.dfy | the nearest search with its two omissions repaired, proved exact |
| `Counterexamples` | counterexamples.dfy | concrete indexes showing both omissions |

Modelling decisions:

- Coordinates are integers and distances are squared Euclidean distances.
  The square root is monotone, so for exact values every comparison the
  source makes on distances, including `gap < best_dist`, has the same
  outcome on the squares. With `f32` rounding the outcomes can differ; see
  "Left out".
- Nodes own their children. The source's raw-pointer links give the same
  shape.
- A search stack holds subtree values. Nothing changes the tree during a
  read, so a subtree value stands for a node reference.
- An insert position is an address: the sequence of slots from the root.
- The read lock and the write lock are boolean inputs. `true` means the
  guard was obtained; `false` means the lock was poisoned.

## Model

| member | source | states |
|---|---|---|
| Insertion.StoredOnDescent | src/app/build_graph/kdtree.rs:194-213 | for any subtree with consistent depths and the k-d ordering, a node holding `p` has an address that is a prefix of `p`'s descent from that subtree |
| Insertion.StoredPointOnItsDescent | src/app/build_graph/kdtree.rs:194-213 | in a well-formed index, every node holding point `p` lies on the descent `search_parent` makes for `p`: its address is a prefix of that descent, so the side rule and the ordering invariant agree |
| Geometry.GapBoundsDistance | src/app/build_graph/kdtree.rs:152-154 | the squared gap along one axis never exceeds the squared distance, so a node whose gap reaches the best distance cannot be closer |
| Geometry.FarSideBound | src/app/build_graph/kdtree.rs:152-165 | a point beyond the splitting line is at least as far from the query as the line, which is what makes skipping a branch sound |
| KdTree.DepthIsDistance | src/app/build_graph/kdtree.rs:11-16 | when depths are kept as the tree is built, the node at address `a` has depth equal to the start depth plus the length of `a` |
| KdTree.NewNodeIsLeaf | src/app/build_graph/kdtree.rs:19-33 | a new node is childless, holds exactly its pair, and satisfies both invariants at its own depth |
| KdTree.RootFromHoldsOnePair | src/app/build_graph/kdtree.rs:35-39 | a fresh root is at depth 0, holds exactly its pair and is well formed |
| KdTree.EmptyTreeHoldsNothing | src/app/build_graph/kdtree.rs:73-77 | a new index holds no pairs and no points, and is well formed |
| KdTree.LocationNode | src/app/build_graph/kdtree.rs:11-16 | every stored point is the location of some node of the tree |
| Insertion.SearchParent | src/app/build_graph/kdtree.rs:194-213 | the result is a descent by the side rule from the root: every step follows the query's side, and the last side taken is an empty slot |
| Insertion.DescentUnique | src/app/build_graph/kdtree.rs:216-233 | the descent of a point is unique, so `search_parent` and `search_parent_mut` find the same parent and slot |
| Insertion.Insert | src/app/build_graph/kdtree.rs:83-97 | true exactly when the index was empty or the write lock was obtained; on false the index is unchanged; an empty index gets a childless root at depth 0; otherwise the stored pairs grow by exactly `(e, p)`, the stored points by `p`, and the depth and k-d ordering invariants are kept |
| Insertion.AttachPoint | src/app/build_graph/kdtree.rs:91-94 | attaching at the parent slot adds exactly one pair and one point and keeps both invariants |
| Insertion.AttachAddress | src/app/build_graph/kdtree.rs:93 | writing the new node into the parent's empty slot keeps every existing node at its address with its label, adds only the parent's slot address, and puts the new node there |
| Insertion.AttachEntries | src/app/build_graph/kdtree.rs:93 | the write into an empty slot adds exactly the new node's pairs |
| Insertion.AttachKeepsOrder | src/app/build_graph/kdtree.rs:92-93 | a node attached at the end of a point's descent keeps the k-d ordering |
| Insertion.InsertAddsOneNode | src/app/build_graph/kdtree.rs:92-93 | every existing node keeps its address, entity, location and depth; the only new address is the parent's slot, and it holds a childless node one deeper than the parent |
| Insertion.InsertDepthIsPathLength | src/app/build_graph/kdtree.rs:93 | in a well-formed index, `parent.depth + 1` equals the new node's distance from the root |
| Insertion.InsertAll | src/app/build_graph/kdtree.rs:83-97 | a run of inserts stores exactly the multiset of inserted pairs and keeps the invariants |
| Insertion.InsertOrderKeepsEntries | src/app/build_graph/kdtree.rs:83-97 | the stored pairs do not depend on insertion order |
| SearchPath.ExploreFrom | src/app/build_graph/kdtree.rs:242-259 | what `explore_subtree` pushes follows the side rule from the subtree root, each entry a child of the previous one, and stops at an empty slot |
| SearchPath.ChainFacts | src/app/build_graph/kdtree.rs:242-259 | every pushed node lies strictly inside the subtree; the chain is no longer than the subtree's height; depth bookkeeping and k-d ordering pass down the chain |
| SearchPath.ExploreSubtree | src/app/build_graph/kdtree.rs:242-259 | the existing stack is kept as a prefix, and the pushed entries are the descent below the subtree root, without that root |
| SearchPath.SearchParentList | src/app/build_graph/kdtree.rs:235-240 | the list starts at the root, follows the side rule, and holds only nodes of the tree |
| SearchPath.SearchListEndsAtParent | src/app/build_graph/kdtree.rs:216-240 | the list is the nodes at the prefixes of `search_parent`'s address, and its last entry is the parent `search_parent` returns |
| SearchPath.ExploreFromIsTheDescent | src/app/build_graph/kdtree.rs:242-259 | any chain obeying the side rule from a node is exactly that node followed by what `explore_subtree` pushes |
| Items.CmpAgreesWithEq | src/app/build_graph/kdtree.rs:51-57 | `Item::eq` is an equivalence that ignores the entity, and `cmp` answers `Equal` exactly on `eq`-equal items |
| Items.CmpIsTotalPreorder | src/app/build_graph/kdtree.rs:59-69 | `Item::cmp` compares by distance alone: reflexive, antisymmetric, transitive, and blind to the entity |
| Items.Peek | src/app/build_graph/kdtree.rs:125 | the peeked item is in the heap and no item of the heap is greater |
| Nearest.PushUnexploredSkipsBranchRoot | src/app/build_graph/kdtree.rs:162-165 | the unexplored branch is slot 1 when the query is at most the node on its axis and slot 0 otherwise; opening it pushes only the descent below that branch's root, and never the root itself |
| Nearest.PushStep | src/app/build_graph/kdtree.rs:162-165 | the pushed entries are nodes of the tree, the stack below is untouched, and the stack weight falls, so the loop terminates |
| Nearest.Backtrack | src/app/build_graph/kdtree.rs:146-167 | the result is a node of the tree at its own distance, never worse than the best so far, and no farther than any node on the stack; the loop terminates |
| Nearest.NearestNeighbourSearch | src/app/build_graph/kdtree.rs:132-169 | nothing exactly when the index is empty or the read lock fails; otherwise a stored entity with its own squared distance, no farther than any node of the initial search list |
| Nearest.SearchAfterFirstInsert | src/app/build_graph/kdtree.rs:83-87 | searching for the point that created the index answers its entity at distance 0 |
| Nearest.DrainStack | src/app/build_graph/kdtree.rs:116-127 | the k-nearest loop returns the heap it was given, unchanged |
| Nearest.NNearestNeighboursSearch | src/app/build_graph/kdtree.rs:101-130 | nothing exactly when the index is empty or the read lock fails; otherwise exactly one item, the deepest node of the search list with its distance |
| Nearest.NNearestIsSearchParent | src/app/build_graph/kdtree.rs:101-130 | for every `n`, including 0, the k-nearest result is the single item for the parent `search_parent` finds |
| NearestCorrected.CoverOfChain | src/app/build_graph/kdtree.rs:235-259 | each node is on the descent of the query or inside the unexplored branch of a descent node |
| NearestCorrected.PruneSound | src/app/build_graph/kdtree.rs:154-165 | every node in an entry's unexplored branch is at least the entry's axis gap from the query |
| NearestCorrected.PushFixedCover | src/app/build_graph/kdtree.rs:162-165 | from a sound entry, the repaired push leaves a stack of nodes that together answer for exactly the stack below plus every node of the unexplored branch, so no node of an opened branch escapes the search |
| NearestCorrected.BacktrackFixed | src/app/build_graph/kdtree.rs:146-167 | the repaired loop: the result is a stored node no farther than the best so far, and no farther than every node the stack answers for |
| NearestCorrected.NearestNeighbourSearchFixed | src/app/build_graph/kdtree.rs:132-169 | the repaired search: nothing exactly when the index is empty or the lock fails; on a well-formed index, a stored entity at a distance no greater than that of any stored node |
| NearestCorrected.StrictNearestIsFound | src/app/build_graph/kdtree.rs:132-169 | when one node is strictly nearest, the repaired search returns exactly that node's entity and distance |
| NearestCorrected.SamePointsSameDistance | src/app/build_graph/kdtree.rs:132-169 | two well-formed indexes holding the same points give the same nearest distance |
| Counterexamples.SubtreeRootMissed | src/app/build_graph/kdtree.rs:162-164 | for the points 1:(0,0), 2:(100,0), 3:(30,-2), 4:(1000,50) and the query (30,1), the search as written answers entity 1 at 901, though entity 3 is at 9 |
| Counterexamples.DeepestSideMissed | src/app/build_graph/kdtree.rs:139-143 | for the points 1:(0,0), 2:(0,10) and the query (1,10), the search as written answers entity 1 at 101, though entity 2 is at 1 |
| Counterexamples.SubtreeRootFound | src/app/build_graph/kdtree.rs:132-169 | the repaired search answers entity 3 at 9 on the first example |
| Counterexamples.DeepestSideFound | src/app/build_graph/kdtree.rs:132-169 | the repaired search answers entity 2 at 1 on the second example |

Two places where the code does less than its names and types suggest. The
model follows the code in both:

- `n_nearest_neighboors_search(point, n)` is named and typed to return up to
  `n` nearest items in a heap created with capacity `n`. Its loop computes a
  pruning test but never uses it, so the result is always a one-item heap,
  for every `n`, including 0.
- A nearest-neighbour search is meant to return a closest stored point.
  As written, `nearest_neighboor_search` does not always do so; see Findings.

## Left out

- `as_mesh` builds an empty mesh and carries no logic; `_insert_list` has an empty body.
- `TreeNode::from`, and the `Box`/`NonNull` allocation behind it, appear only as `NewNode`. Memory, leaks and `unsafe` aliasing are outside the model.
- Concurrency is not modelled: the `RwLock` around the root, `Arc`, and the `Sync`/`Send` claims. A lock attempt is a boolean input, and the printed message on a poisoned lock is not modelled.
- `search_parent` (read guard) is the same descent as `search_parent_mut`. Both are modelled by `Insertion.SearchParent`, and the read version has no caller in this file.
- Nearest.NearestNeighbourSearch: returns the squared distance where the source returns the Euclidean distance (`Vec2::distance`), because `f32` square roots and rounding are not modelled.
- Nearest.NNearestNeighboursSearch: returns the squared distance. The heap is a sequence, and the capacity `n` given to `BinaryHeap::with_capacity` is not modelled, because it affects only allocation.
- Items.Cmp: the `unwrap_or(Equal)` branch for a NaN distance cannot arise with integer distances, so it is not modelled.
- Floating point in general: `f32` coordinates, rounding, infinities and NaN are replaced by exact integers.

## Findings

| source | as written | input that shows it | evidently intended | confidence | as-written member | corrected member |
|---|---|---|---|---|---|---|
| src/app/build_graph/kdtree.rs:162-164 | opening the unexplored branch calls `explore_subtree(subtree_root)`, which pushes only the nodes below `subtree_root`, so the root of every opened branch is never examined | insert 1:(0,0), 2:(100,0), 3:(30,-2), 4:(1000,50); search (30,1): answers entity 1 at squared distance 901 while entity 3 is at 9 | push the branch's root, then its descent, so every node of an opened branch can be examined | high; not executed | Counterexamples.SubtreeRootMissed | NearestCorrected.NearestNeighbourSearchFixed |
| src/app/build_graph/kdtree.rs:139-143 | the deepest node of the initial descent is popped as the first candidate and never goes through the loop, so its unexplored branch is never opened | insert 1:(0,0), 2:(0,10); search (1,10): answers entity 1 at squared distance 101 while entity 2 is at 1 | leave the deepest node on the stack so its other branch is considered like any other | high; not executed | Counterexamples.DeepestSideMissed | NearestCorrected.NearestNeighbourSearchFixed |
