# ft_containers in Dafny

This project models the core of ft_containers. That library re-implements
`std::map`, `std::vector`, `std::stack`, `std::reverse_iterator`, `std::pair`,
`std::equal` and `std::lexicographical_compare`. Its map sits on a red-black
tree engine with parent pointers and no sentinel nodes.

The model follows the code as written. Where the code departs from what it
evidently means, both versions are modelled: the as-written member keeps the
source's name, and the corrected one carries the suffix `Intended`.

Layout, one module per concept:

- `pair.dfy` (`Pairs`): `ft::pair` of two integers, the comparison operators, and a small class for `operator=` and `swap`.
- `algorithm.dfy` (`Algorithm`): `equal` and `lexicographical_compare`, with a range given as the sequence it spans.
- `tree_shape.dfy` (`TreeShape`): the abstract tree of node ids behind the engine. It defines the in-order sequence `Seq`, the `Next`/`Prev` steps along it, and the shape operations: rotation, relabelling, splicing and attaching.
- `tree_node.dfy` (`TreeNode`):
  - `ft::TreeNode` records live in an arena `map<Ptr, Node>` held by the class `NodeStore`; `Null` is the null pointer.
  - The predicate `Tree(h, root, s)` says that the records form the shape `s`, with parent links that agree.
  - `getOnSurface` and `stealLinks` are written as the source's own sequence of stores, and proved to be a rotation and a relabelling.
- `tree_order.dfy` (`TreeOrder`): the entries along the in-order sequence, sortedness by key, the descent `Land` of `_findPlaceForInsert`, and the reference bounds `FirstAtLeast` and `FirstAbove`.
- `tree_colour.dfy` (`TreeColour`): the colour rules and black heights.
- `tree_iterator.dfy` (`TreeIterators`): `ft::tree_iterator` as a class over the arena.
- `tree_edit.dfy`, `tree_search.dfy`, `tree_rebalance.dfy`: what the engine's edits, searches and rebalances do to the shape and to the entries.
- `rbtree.dfy` (`RBTree`): `ft::RedBlackTree`, a class with the source's fields `root` and `size`, plus a ghost `shape`.
- `map.dfy` (`Maps`): `ft::map` with integer keys and values, over the tree.
- `lookup.dfy` (`Lookups`): the result of a bounds-checked access, either the value or `std::out_of_range`.
- `vector.dfy` (`Vectors`): `ft::vector<int>`, a class over an `array<int>` whose length is the capacity; positions are indices.
- `stack.dfy` (`Stacks`): `ft::stack` over a vector.
- `reverse_iterator.dfy` (`ReverseIterators`): `ft::reverse_iterator` over an index position.

Exceptions the source throws become values in the model:
- `range_error` is `TreeNode.Checked.RangeError`.
- `out_of_range` is `Lookups.Lookup.OutOfRange`.
- `logic_error` from `_checkTree` is `RBTree.EraseOutcome.LogicError`.

Behaviour that is undefined in C++ is reported, not modelled past that point:
- `EraseOutcome.Undefined`.
- The `defined` result of the vector insertion routine and of `assign(n, val)`.

The code and the design description of the engine disagree in places. The
model follows the code:
- `insert` never calls `_insertionRebalance`.
- `lower_bound` steps past a stop node that is greater than the key.
- `_copy` copies the left subtree twice.

Because `insert` never rebalances, every node it creates is red. The
constructor, `clear`, every insert and every defined erase keep all records
red (`RBTree.RedBlackTree.AllRed`). With every node red, the colour rules hold
exactly for the trees of at most one node (`TreeColour.AllRedVerdict`). For
such a tree `Erase` states the outcome exactly:
- It is undefined exactly when the node is the root and lacks a child, because `_deleteNode` then writes through the root's null parent.
- Otherwise the deletion rebalance is never reached, since the node removed is red.
- A defined erase from a tree of one or two nodes ends `Normal`.
- A defined erase from a tree of three or more nodes ends in `_checkTree`'s `logic_error`, reported as `LogicError`. The removal itself has already happened by then, and `Erase` states what it did to the entries.

## Model

| member | source | states |
|---|---|---|
| Pairs.DefaultPair | pair.hpp:15 | both members of `pair()` are value-initialised to 0 |
| Pairs.MakePair | pair.hpp:82-85 | the pair holds exactly the two given members |
| Pairs.Equal | pair.hpp:45-49 | `==` holds exactly for identical pairs |
| Pairs.NotEqual | pair.hpp:51-55 | `!=` holds exactly for different pairs |
| Pairs.Less | pair.hpp:57-61 | as written, `<` holds exactly when `first` is smaller or the pairs are identical |
| Pairs.LessEqual | pair.hpp:63-67 | as written, `<=` holds exactly when `first` is not larger and the pairs differ |
| Pairs.Greater | pair.hpp:69-73 | as written, `>` holds exactly when `first` is larger or the pairs are identical |
| Pairs.GreaterEqual | pair.hpp:75-79 | as written, `>=` holds exactly when `first` is not smaller and the pairs differ |
| Pairs.EqualIsIdentity | pair.hpp:45-55 | `==` holds exactly for identical pairs and `!=` exactly for different ones |
| Pairs.LessIsReflexive | pair.hpp:57-79 | as written, `<` holds for every pair against itself, so `<=` and `>=` both fail on equal pairs |
| Pairs.LessCounterexample | pair.hpp:58-61 | `(1,1) < (1,1)` under the operator as written, but not under the lexicographic order |
| Pairs.LessAgreesOffDiagonal | pair.hpp:58-61 | for pairs with different `first` members, the operator as written agrees with the lexicographic order |
| Pairs.LexLessIsStrictTotal | pair.hpp:58-61 | the intended order of `<` is irreflexive, asymmetric, transitive and total |
| Pairs.PairObject.constructor | pair.hpp:20 | the object holds the two given members |
| Pairs.PairObject.Assign | pair.hpp:24-28 | after `operator=`, the object holds the right-hand pair |
| Pairs.PairObject.Swap | pair.hpp:30-36 | the two objects exchange their values |
| Algorithm.Equal | algorithm.hpp:5-16 | true exactly when the first range equals the same-length prefix of the second |
| Algorithm.EqualBy | algorithm.hpp:18-29 | true exactly when `pred` accepts every aligned pair of elements |
| Algorithm.LexicographicalCompare | algorithm.hpp:32-46 | the answer is the lexicographic less-than `LexLess` of the two ranges |
| Algorithm.LexicographicalCompareBy | algorithm.hpp:48-62 | as written, the verdict is decided in the first round: true exactly when the first range is empty and the second is not, or both are non-empty and `comp` rejects the first pair |
| Algorithm.CompareByCounterexample | algorithm.hpp:48-62 | with `<` as the comparator, the overload as written does not report `[1]` less than `[2]`, though `[1]` is lexicographically less |
| Algorithm.LexicographicalCompareByIntended | algorithm.hpp:48-62 | the corrected overload computes the lexicographic order under `comp` |
| Algorithm.LexLessByLess | algorithm.hpp:32-62 | with `<` as the comparator, the corrected overload agrees with the plain one |
| Algorithm.LexLessIsStrictTotal | algorithm.hpp:32-46 | lexicographic less-than is irreflexive and asymmetric, and exactly one of `a < b`, `a == b`, `b < a` holds |
| Algorithm.LexLessTransitive | algorithm.hpp:32-46 | lexicographic less-than is transitive |
| TreeNode.DefaultNode | tree_node.hpp:18-21 | `TreeNode()` is black, with no children and a value-initialised value |
| TreeNode.NewNode | tree_node.hpp:24-33 | the node holds the given value, parent and colour, and has no children |
| TreeNode.GetDir | tree_node.hpp:82-90 | one of -1, 0 and 1: -1 exactly when there is no parent, 0 exactly when `x` is the left child of its parent, 1 exactly when it has a parent and is not its left child |
| TreeNode.DirInTree | tree_node.hpp:82-90 | inside a tree, `getDir` is -1 exactly at the root, and 0 or 1 exactly when the node is the left or right subtree of its parent |
| TreeNode.GetChild | tree_node.hpp:138-143 | the left child whenever there is one, otherwise the right one, and null exactly when both are |
| TreeNode.GetSibling | tree_node.hpp:146-152 | throws `range_error` exactly when the node has no parent |
| TreeNode.SiblingInTree | tree_node.hpp:146-152 | inside a tree, the sibling is the root of the parent's other subtree, never the node itself; a non-null sibling shares the parent |
| TreeNode.GetUncle | tree_node.hpp:60-66 | null without a grandparent; otherwise the sibling of the parent |
| TreeNode.UncleInTree | tree_node.hpp:60-66 | below the root's children, the uncle is the parent's sibling in the tree |
| TreeNode.AllChildrenBlack | tree_node.hpp:155-158 | true exactly when every existing child is black |
| TreeNode.NodeStore.IsOuterGrandchild | tree_node.hpp:69-79 | `range_error` exactly without a grandparent; otherwise true exactly when node and parent hang on the same side of their parents |
| TreeNode.OuterGrandchildInTree | tree_node.hpp:69-79 | inside a tree, outer grandchild means the node and its parent have the same `getDir` |
| TreeNode.NodeStore.GetOnSurface | tree_node.hpp:93-114 | `range_error` exactly without a parent, and then nothing changes; otherwise the records become the rotated records |
| TreeNode.RotatePreserves | tree_node.hpp:93-114 | `getOnSurface` on a non-root node rotates the shape; the in-order sequence, node set, values and colours stay, and the node becomes the root when its parent was |
| TreeNode.RotatedColours | tree_node.hpp:93-114 | `getOnSurface` changes no node's colour |
| TreeNode.NodeStore.StealLinks | tree_node.hpp:117-135 | the records become those after `dst` takes over the links and colour of `src` |
| TreeNode.StealPreserves | tree_node.hpp:117-135 | a fresh `dst` takes the place of `src` in the shape, takes its colour and keeps its own value; no other value or colour changes |
| TreeNode.StolenColours | tree_node.hpp:117-135 | after `stealLinks`, `dst` has the colour of `src` and every other node keeps its own |
| TreeNode.NodeStore.Allocate | RBTree.hpp:317-318 | the new index was never used; the record is stored and nothing else changes |
| TreeNode.NodeStore.Deallocate | RBTree.hpp:223-224 | exactly the given record is released |
| TreeIterators.TreeIterator.constructor | tree_iterator.hpp:44 | the iterator holds the given node and root |
| TreeIterators.TreeIterator.AtNode | tree_iterator.hpp:46-51 | climbing from the node finds the root of its tree; a null node gives a null root |
| TreeIterators.TreeIterator.Get | tree_iterator.hpp:65-68 | `operator*` is the value stored at the node |
| TreeIterators.TreeIterator.Same | tree_iterator.hpp:156-164 | `==` holds exactly when both iterators point at the same node, so an iterator equals itself; `!=` is its negation |
| TreeIterators.TreeIterator.Slide | tree_iterator.hpp:29-30 | the walk down one side ends at the extreme node of the subtree on that side |
| TreeIterators.TreeIterator.ClimbStep | tree_iterator.hpp:35-36 | each round of the climb keeps the start as the extreme node of the subtree and moves strictly up |
| TreeIterators.TreeIterator.ClimbEnd | tree_iterator.hpp:35-37 | where the climb stops, the parent is the next node in that direction, or null past the end |
| TreeIterators.TreeIterator.Go | tree_iterator.hpp:23-38 | `_go` moves to the in-order successor, or the predecessor when moving backward; null past the end |
| TreeIterators.TreeIterator.Increment | tree_iterator.hpp:75-92 | prefix `++` moves to `Next` of the in-order sequence; from the end position that is the first node, and on an empty tree nothing changes |
| TreeIterators.TreeIterator.PostIncrement | tree_iterator.hpp:94-114 | postfix `++` advances like prefix `++` and returns an iterator at the old node; from the end position it returns the advanced iterator |
| TreeIterators.TreeIterator.Decrement | tree_iterator.hpp:116-133 | prefix `--` moves to `Prev` of the in-order sequence; from the end position that is the last node |
| TreeIterators.TreeIterator.PostDecrement | tree_iterator.hpp:135-154 | postfix `--` steps back like prefix `--` and returns an iterator at the old node; from the end position it returns the stepped iterator |
| TreeIterators.StepRoundTrip | tree_iterator.hpp:75-133 | in a non-empty tree, `++` then `--` and `--` then `++` return to the starting position, the end position included |
| TreeColour.BalancedPaths | RBTree.hpp:184-199 | when every node has balanced sides, every root-to-null path meets the same number of black links, so counting the leftmost path as `_checkTree` does is sound |
| TreeColour.UniformPathsBalanced | RBTree.hpp:184-199 | the converse: when every root-to-null path meets as many black links as the leftmost one, every node has balanced sides, so the two readings of the black-height rule agree |
| TreeColour.LeftmostPath | RBTree.hpp:188-195 | the reference height `_checkTree` counts is the count along the leftmost path |
| TreeColour.PaintKeepsTree | RBTree.hpp:129-136 | recolouring a node moves no link and no value |
| TreeColour.AllRedVerdict | RBTree.hpp:303-321 | with every node red, as `insert` leaves them, the colour rules hold exactly for a tree of at most one node |
| TreeColour.ColourFrame | RBTree.hpp:162-182 | the colour rules and black height of a subtree depend only on the colours of its own nodes |
| TreeColour.FarNephewShortfall | RBTree.hpp:149-151 | as written, when the far nephew is red and the near one is not, the subtree risen from the sibling has its far side one black short of its near side, so it is not balanced |
| TreeColour.FarNephewRepair | RBTree.hpp:138-152 | with the far nephew also turned black, the risen subtree keeps both colour rules and the black height the parent's subtree had before one side fell short |
| TreeRebalance.InsertionRebalance | RBTree.hpp:87-120 | at the root the node turns black and nothing else changes; a red parent that is the root turns black and nothing else changes; under a black parent nothing changes; each of the other cases, and the recursion, leaves a tree with the same nodes, the same in-order sequence and the same values |
| TreeRebalance.RotateUp | RBTree.hpp:95-112 | with a black or missing uncle: the parent rises for an outer grandchild, the node itself for an inner one; the risen node takes the grandparent's place and turns black, the other of the two and the old grandparent hang below it and turn red, no other node changes colour, and the tree keeps its nodes, order and values |
| TreeRebalance.InnerRises | RBTree.hpp:97-103 | for an inner grandchild the first rotation puts the node between its parent and grandparent, so the old parent becomes an outer grandchild; no colour changes |
| TreeRebalance.LiftParent | RBTree.hpp:105-111 | the parent of an outer grandchild rises into the grandparent's place, turns black, and has the node and the old grandparent, both red, below it; no other colour changes |
| TreeRebalance.PaintFamily | RBTree.hpp:106-111 | the node turns black and its existing children red; no link, value or other colour changes |
| TreeRebalance.RecolourUncle | RBTree.hpp:113-117 | with a red uncle, the parent and the uncle turn black and the grandparent red; no link, value or other colour changes |
| TreeRebalance.DeletionRebalance | RBTree.hpp:122-160 | the rebalance is undefined when it meets a null sibling; otherwise the tree keeps its nodes, order and values, it does nothing at the root, and no record below `start` changes |
| TreeRebalance.BlackSiblingRotations | RBTree.hpp:138-152 | a black sibling with a red child: a red near nephew first rises above the sibling and turns black; the node that then rises above the parent (that nephew, or the sibling) takes the parent's colour and the parent turns black; no other colour changes; without a red near nephew this is exactly the sibling's rotation and the two recolourings, the far nephew keeping its colour; the tree keeps its nodes, order and values, and the subtree of `start` is untouched |
| TreeRebalance.BlackSiblingRotationsIntended | RBTree.hpp:138-152 | the same, and without a red near nephew the far nephew turns black too |
| TreeRebalance.BlackenFarNephew | RBTree.hpp:149-151 | the corrected step before the far-case rotation: without a red near nephew, a present far nephew alone turns black; otherwise nothing changes, and the links, values and the sibling's and parent's records stay |
| TreeRebalance.LiftNephew | RBTree.hpp:142-147 | the near nephew rises above the sibling, turns black and becomes the sibling of `start`; exactly that rotation and recolouring happen |
| TreeRebalance.LiftSibling | RBTree.hpp:149-151 | the sibling rises above the parent, takes the parent's colour, and the parent turns black; exactly that rotation and the two recolourings happen |
| TreeRebalance.RedSiblingRotation | RBTree.hpp:153-158 | with a red sibling, the sibling rises above the parent and turns black and the parent turns red, with no other colour change; the tree keeps its nodes, order and values and the subtree of `start`, and the measure that ends the recursion strictly falls |
| TreeSearch.LandStops | RBTree.hpp:273-285 | the descent stops at null exactly on an empty subtree; otherwise at one of its nodes, whose slot on the key's side is free unless it holds the key |
| TreeSearch.PlaceFor | RBTree.hpp:261-270 | as written, the descent starts at the root or at the hint, and at the root whenever the value is less than the hint's |
| TreeSearch.PlaceForIntended | RBTree.hpp:261-270 | with the strict parent test, the descent also starts at the root whenever the value is not less than the hint's parent's |
| TreeSearch.PlaceStops | RBTree.hpp:261-286 | with or without a hint, `_findPlaceForInsert` returns null exactly for an empty tree; otherwise a node whose slot on the value's side is free unless it holds the value |
| TreeSearch.LandDecides | RBTree.hpp:323-332 | in an ordered tree the stop node holds the key exactly when some entry does |
| TreeSearch.InsertSorted | RBTree.hpp:308-318 | a new leaf under a stop node that does not hold the key, on the key's side, lands at the sorted position of the entries, which stay sorted |
| TreeSearch.LowerBoundSpec | RBTree.hpp:345-354 | in an ordered tree, the first entry not below the key is the stop node when that node's key is not less, and the node after it otherwise |
| TreeSearch.UpperBoundSpec | RBTree.hpp:367-375 | in sorted entries, the first entry above the key is one step past the lower bound when the lower bound holds the key, and the lower bound otherwise |
| TreeSearch.LowerBoundSkipsLandedNode | RBTree.hpp:345-354 | on the one-node tree {5}, `lower_bound(3)` as written answers the end position, while the first node not below 3 is the root |
| TreeSearch.HintedInsertDuplicates | RBTree.hpp:263-269 | with the hint test as written, inserting (5,7) at the hint (3) of the tree {3,5} leaves the entries [(3,0),(5,7),(5,0)], which are not sorted; the intended test finds the existing key |
| RBTree.RedBlackTree.constructor | RBTree.hpp:40-42 | the tree is empty, so trivially all its records are red |
| RBTree.RedBlackTree.Descend | RBTree.hpp:273-285 | the loop stops at the node the descent `Land` names |
| RBTree.RedBlackTree.FindPlaceForInsert | RBTree.hpp:261-286 | the hint is kept unless the value is less than it or its parent's value is less than the value; the descent runs from the kept hint or the root |
| RBTree.RedBlackTree.FindPlaceForInsertIntended | RBTree.hpp:261-286 | with the strict parent test, in an ordered tree the stop node is one that the descent from the root could reach |
| RBTree.RedBlackTree.Place | RBTree.hpp:306-320 | a new red node hangs in the free slot on the value's side, or becomes the root of an empty tree; nothing changes when the place already holds the key; in an ordered tree a new key lands at its sorted position |
| RBTree.RedBlackTree.PlaceRoot | RBTree.hpp:308-309 | in an empty tree, the new node is the root and the only entry |
| RBTree.RedBlackTree.PlaceChild | RBTree.hpp:310-318 | the new leaf in the free slot grows the tree by one; at a stop node on the key's side it lands at the sorted position |
| RBTree.RedBlackTree.AttachLeaf | RBTree.hpp:317-320 | a fresh record is hung in the chosen slot and the size grows by one |
| RBTree.RedBlackTree.Insert | RBTree.hpp:303-321 | without a hint, in an ordered tree: an insert happens exactly when the key was absent, the entries become the sorted insertion, and they stay sorted; with an existing key, the node holding it is returned and nothing changes; a tree whose records are all red stays so |
| RBTree.RedBlackTree.InsertIntended | RBTree.hpp:303-321 | with the corrected hint test, the sorted-insertion guarantee holds for every hint; a tree whose records are all red stays so |
| RBTree.RedBlackTree.IteratorRoutine | RBTree.hpp:251-259 | the walk ends at the first node in order, or the last one for `end`; null in an empty tree |
| RBTree.RedBlackTree.Begin | RBTree.hpp:431-434 | `begin()` is the first node in order; the end position when the tree is empty |
| RBTree.RedBlackTree.End | RBTree.hpp:441-444 | one step past the last node is always the end position |
| RBTree.RedBlackTree.Find | RBTree.hpp:323-332 | the answer is null or a node holding the key; in an ordered tree it is null exactly when the key is absent |
| RBTree.RedBlackTree.LowerBound | RBTree.hpp:345-354 | as written: the stop node when it holds the key or is null, otherwise the node after it |
| RBTree.RedBlackTree.LowerBoundIntended | RBTree.hpp:345-354 | with the corrected test, in an ordered tree, the first node whose key is not less than the key |
| RBTree.RedBlackTree.UpperBound | RBTree.hpp:367-375 | as written, over `lower_bound` as written: one step further when the lower bound holds the key |
| RBTree.RedBlackTree.UpperBoundIntended | RBTree.hpp:367-375 | over the corrected lower bound, in an ordered tree, the first node whose key is greater than the key |
| RBTree.RedBlackTree.Step | RBTree.hpp:353 | `++iterator(x)` at a tree node is the in-order successor |
| RBTree.RedBlackTree.UpdateRoot | RBTree.hpp:78-85 | the climb ends at the root of the shape; nothing else changes |
| RBTree.RedBlackTree.ReplaceNode | RBTree.hpp:201-210 | with a non-null `src`: it takes the place of `dst`, whose record is released |
| RBTree.RedBlackTree.Predecessor | RBTree.hpp:231-236 | from a node with two children, the loop ends at its in-order predecessor, which has no right child |
| RBTree.RedBlackTree.SwapWithPredecessor | RBTree.hpp:240-246 | a fresh dummy replaces the predecessor, the predecessor replaces the node, and the node's record is released |
| RBTree.RedBlackTree.InternalDeletionHandler | RBTree.hpp:227-249 | the returned node has at most one child; removing it from the new in-order sequence is removing `node` from the old one; every other node keeps its value; a node with at most one child is returned unchanged, a node with two gives a dummy that has a parent; the dummy takes the predecessor's colour and the predecessor the node's, so all-red records stay all red |
| RBTree.RedBlackTree.DeleteNode | RBTree.hpp:212-225 | below the root, the node leaves the tree: its child, if any, takes its slot and colour, and the node drops out of the in-order sequence; all-red records stay all red |
| TreeEdit.DeletedColours | RBTree.hpp:212-221 | after `_deleteNode`'s stores, the child takes the node's colour and every other node keeps its own |
| RBTree.RedBlackTree.Remove | RBTree.hpp:396-403 | unless the behaviour is undefined, the node's entry leaves the in-order sequence and every other entry stays in order; undefined when the root with at most one child is deleted; with all records red, defined exactly otherwise, and the records stay red |
| RBTree.RedBlackTree.Erase | RBTree.hpp:387-407 | unless undefined, exactly the node's entry is removed; `Normal` exactly when the colour rules then hold, with the size down by one; on `LogicError` the size is unchanged; erasing a root that lacks a child is undefined; with all records red, undefined exactly in that case, and a defined erase keeps them red and ends `Normal` exactly when the tree held at most two nodes |
| RBTree.RedBlackTree.Clear | RBTree.hpp:409-429 | every record is released and the tree is empty |
| RBTree.RedBlackTree.ClearFrom | RBTree.hpp:409-423 | exactly the records of the subtree are released |
| RBTree.RedBlackTree.CheckBranches | RBTree.hpp:162-182 | passes exactly when no red node in the subtree has a red parent, its sides are balanced, and its black height is the remaining reference height |
| RBTree.RedBlackTree.CheckTree | RBTree.hpp:184-199 | passes exactly when the tree keeps both colour rules |
| RBTree.SwapColours | RBTree.hpp:240-246 | after the two `stealLinks`, the dummy has the predecessor's colour, the predecessor the node's, and every other node its own |
| Maps.ValueCompare | map.hpp:47-50 | `value_compare` is the tree's comparator on keys, and it is asymmetric |
| Maps.ValueCompareIsStrictWeak | map.hpp:47-50 | `value_compare` is the tree's comparator and a strict weak order |
| Maps.Map.constructor | map.hpp:69-71 | the map is empty and its entries are trivially sorted |
| Maps.Map.Empty | map.hpp:165-168 | true exactly when there are no entries |
| Maps.Map.Size | map.hpp:170-173 | the size is the number of entries |
| Maps.Map.Begin | map.hpp:105-108 | the end position exactly for an empty map; otherwise the node of the first entry |
| Maps.Map.End | map.hpp:115-118 | the end position is null |
| Maps.Map.Find | map.hpp:259-262 | a node holding the key, or the end position; with sorted keys, the end position exactly when the key is absent |
| Maps.Map.Count | map.hpp:269-272 | at most 1; with sorted keys, 1 exactly when the key is present |
| Maps.Map.At | map.hpp:180-198 | a found value belongs to an entry with the key; with sorted keys, `out_of_range` exactly when the key is absent |
| Maps.Map.Index | map.hpp:95-103 | afterwards an entry pairs the key with the answer; with sorted keys nothing changes for a present key, and an absent key is inserted with mapped value 0 at its sorted place |
| Maps.Map.Insert | map.hpp:200-203 | the returned node holds the key; with sorted keys, an insert happens exactly when the key was new, the entries follow `InsertOne`, and they stay sorted |
| Maps.Map.InsertHint | map.hpp:205-208 | the returned node holds the key and the tree stays well formed; the hint can break sortedness (see Findings) |
| Maps.Map.InsertAll | map.hpp:210-215 | with sorted keys, the entries follow `InsertedAll`, the values inserted one after the other, and stay sorted |
| Maps.InsertOneFacts | map.hpp:200-203 | inserting one value keeps entries sorted; a key is present afterwards exactly when it was before or the value has it |
| Maps.InsertedAllFacts | map.hpp:210-215 | inserting a range keeps entries sorted; a key is present afterwards exactly when it was before or some value of the range has it |
| Maps.Map.EraseAt | map.hpp:217-220 | unless undefined, exactly the entry at the position is removed; with all records red, undefined exactly when the position is a root that lacks a child, and a defined erase keeps them red and ends normally exactly when the map held at most two entries (otherwise in `logic_error`) |
| Maps.Map.EraseKey | map.hpp:222-231 | answers 0 without change when the key is absent; with sorted keys, 1 exactly when present; unless undefined, the key is then gone, one entry fewer remains, every other entry stays, and the entries stay sorted; with sorted keys and all records red, undefined exactly when the root holds the key and lacks a child, and a defined erase of a present key keeps them red and ends normally exactly when the map held at most two entries (otherwise in `logic_error`) |
| Maps.RemoveKey | map.hpp:222-231 | removing an entry from sorted entries removes its key, keeps the other entries and keeps them sorted |
| Maps.KeyNamesOneNode | map.hpp:222-231 | with sorted keys, at most one node holds a given key |
| Maps.Map.Clear | map.hpp:244-247 | no entries remain |
| Maps.Map.LowerBound | map.hpp:274-277 | as written, the tree's `lower_bound` for the key |
| Maps.Map.UpperBound | map.hpp:284-287 | as written, the tree's `upper_bound` for the key |
| Maps.Map.EqualRange | map.hpp:294-297 | as written, the pair of the two bounds as written |
| Maps.Map.EqualRangeIntended | map.hpp:294-297 | with sorted keys, the range from the first entry not below the key to the first above it; empty exactly when the key is absent; otherwise exactly the one entry with the key |
| Maps.EqualRangeSpan | map.hpp:294-297 | in sorted entries the reference bounds coincide exactly when the key is absent, and otherwise enclose exactly the entry with the key |
| Maps.PresentAt | map.hpp:274-277 | in sorted entries the key is present exactly at the lower bound's position |
| Vectors.PushCapacity | vector.hpp:316-318 | the policy of `push_back` never shrinks the buffer, leaves room for one more element, and when it grows, grows to twice the capacity (1 for none) |
| Vectors.InsertCapacity | vector.hpp:63-66 | the policy of `_insertion_routine` never shrinks the buffer, leaves room for the new elements, and when it grows, grows to the larger of the size needed and twice the capacity |
| Vectors.Vector.constructor | vector.hpp:85-86 | no elements and capacity 0 |
| Vectors.Vector.Filled | vector.hpp:88-97 | `n` copies of `val` in a buffer of exactly `n` slots |
| Vectors.CopyInto | vector.hpp:45-49 | the copy loop leaves the first `size` slots of the new buffer equal to the old ones |
| Vectors.Vector.ReallocWithCapacity | vector.hpp:41-57 | a fresh buffer of the requested capacity holds the same elements |
| Vectors.Vector.Reserve | vector.hpp:236-240 | the elements stay; the capacity becomes the larger of `n` and the old one, in a fresh buffer only when it grows |
| Vectors.Vector.ShrinkToFit | vector.hpp:242-246 | the elements stay and the capacity becomes the size |
| Vectors.Vector.Resize | vector.hpp:213-226 | the elements are truncated to `n`, or extended to `n` with copies of `val`; growing reserves `n` |
| Vectors.Vector.Size | vector.hpp:205-207 | the number of elements |
| Vectors.Vector.Empty | vector.hpp:232-234 | true exactly when there are no elements |
| Vectors.Vector.End | vector.hpp:156-161 | the position after the last element, including the empty case, where it is `begin()` |
| Vectors.Vector.RBegin | vector.hpp:170-172 | the reverse iterator over `end()`, which reads the last element |
| Vectors.Vector.At | vector.hpp:248-253 | found exactly for an index below the size, and then it is that element; `out_of_range` otherwise |
| Vectors.Vector.Get | vector.hpp:140-142 | the element at an index among the elements |
| Vectors.Vector.Front | vector.hpp:262-264 | the first element |
| Vectors.Vector.Back | vector.hpp:270-272 | the last element |
| Vectors.Vector.PushBack | vector.hpp:316-320 | the value is appended; the capacity follows the doubling policy (1 for an empty buffer) |
| Vectors.Vector.PopBack | vector.hpp:322-326 | the last element is dropped; nothing happens on an empty vector |
| Vectors.Vector.GrowForInsert | vector.hpp:63-66 | the elements stay and the capacity follows the insertion policy, which leaves room for the new elements |
| Vectors.Vector.InsertionRoutine | vector.hpp:59-82 | as written: defined exactly when the vector is non-empty and `n` is at most its size; then a gap of `n` slots opens at the position and the elements on both sides are kept |
| Vectors.Vector.InsertionRoutineIntended | vector.hpp:59-82 | corrected form: a gap of `n` slots opens at the position for every size and count, and the elements on both sides are kept |
| Vectors.OpenGapAsWritten | vector.hpp:70-77 | with `0 < s` and `n <= s`, the two copy loops keep the prefix and move the suffix up by `n` |
| Vectors.DuplicateTail | vector.hpp:70-74 | the first loop and the store after it copy, into the `n` slots after the end, the slots `n` below them |
| Vectors.MoveMiddleUp | vector.hpp:76-77 | the second loop moves the elements from `position + n` up to the end up by `n`, each from a slot not yet written |
| Vectors.OpenGap | vector.hpp:59-82 | corrected moving loop: copying from the top down keeps the prefix and moves the elements from the position on up by `n`, for every size and count |
| Vectors.Vector.Insert | vector.hpp:328-334 | as written: defined exactly for a non-empty vector; then `val` stands at the position between the old elements |
| Vectors.Vector.InsertN | vector.hpp:336-341 | as written: defined exactly when the vector is non-empty and holds at least `n` elements; then `n` copies of `val` stand at the position |
| Vectors.Vector.InsertNIntended | vector.hpp:336-341 | over the corrected routine: `n` copies of `val` stand at the position for every size and count |
| Vectors.Vector.Fill | vector.hpp:339-340 | `n` copies of `val` overwrite the elements from the position on; the size and the rest stay |
| Vectors.FillSlots | vector.hpp:339-340 | `n` copies of `val` from the slot on, and the other slots unchanged |
| Vectors.Vector.Erase | vector.hpp:355-368 | the elements between `first` and `last` are removed, the rest keep their order, the buffer is kept and the answer is `first` |
| Vectors.ShiftDown | vector.hpp:359-360 | the copy loop of `erase` leaves the elements before `first` followed by those from `last` on |
| Vectors.Vector.EraseAt | vector.hpp:351-353 | exactly the element at the position is removed |
| Vectors.Vector.AssignN | vector.hpp:302-314 | as written: defined exactly when `n` is at most the old size; then the elements are `n` copies of `val`; the capacity is reserved for `n` |
| Vectors.Vector.AssignNIntended | vector.hpp:302-314 | corrected form: the elements are `n` copies of `val` for every `n` |
| Vectors.Vector.Assign | vector.hpp:117-138 | the elements and capacity become those of `rhd`, with default values in the slots after the elements |
| Vectors.Vector.Swap | vector.hpp:370-381 | the two vectors exchange elements and capacities |
| Vectors.Vector.Clear | vector.hpp:383-387 | no elements; the buffer is kept |
| Vectors.Equal | vector.hpp:399-404 | true exactly when the elements are equal |
| Vectors.NotEqual | vector.hpp:406-409 | true exactly when the elements differ |
| Vectors.Less | vector.hpp:411-414 | lexicographic less-than of the elements |
| Vectors.Greater | vector.hpp:416-419 | lexicographic less-than with the operands swapped |
| Vectors.LessEqual | vector.hpp:421-424 | as written: true exactly when the left elements are not lexicographically less than the right ones |
| Vectors.GreaterEqual | vector.hpp:426-429 | as written: true exactly when the right elements are not lexicographically less than the left ones |
| Vectors.SwappedOrderCounterexample | vector.hpp:421-429 | `[1]` is less than `[2]` and `[2]` is not less than `[1]`, so as written `[1] <= [2]` and `[2] >= [1]` are both false |
| Vectors.LessEqualIntended | vector.hpp:421-424 | corrected form: true exactly when the left elements are less than or equal to the right ones |
| Vectors.GreaterEqualIntended | vector.hpp:426-429 | corrected form: true exactly when the left elements are greater than or equal to the right ones |
| Stacks.Stack.constructor | stack.hpp:20 | the stack holds a fresh copy of the container's elements |
| Stacks.Stack.Empty | stack.hpp:24 | true exactly when the stack holds nothing |
| Stacks.Stack.Size | stack.hpp:25 | the number of elements |
| Stacks.Stack.Top | stack.hpp:26 | the element pushed last |
| Stacks.Stack.Push | stack.hpp:28 | the value goes on top |
| Stacks.Stack.Pop | stack.hpp:29 | the top is removed; nothing happens on an empty stack |
| Stacks.Stack.Swap | stack.hpp:30 | the two stacks exchange contents |
| Stacks.Equal | stack.hpp:33-37 | true exactly when the contents are equal |
| Stacks.NotEqual | stack.hpp:39-43 | true exactly when the contents differ |
| Stacks.Less | stack.hpp:45-49 | lexicographic less-than from the bottom |
| Stacks.LessEqual | stack.hpp:51-55 | true exactly when the left contents are less than or equal to the right ones |
| Stacks.Greater | stack.hpp:57-61 | lexicographic less-than with the operands swapped |
| Stacks.GreaterEqual | stack.hpp:63-67 | true exactly when the left contents are greater than or equal to the right ones |
| ReverseIterators.Base | reverse_iterator.hpp:112-115 | the base determines the reverse iterator |
| ReverseIterators.Plus | reverse_iterator.hpp:45-48 | `r + n` has its base `n` positions before that of `r` |
| ReverseIterators.Minus | reverse_iterator.hpp:63-66 | `r - n` has its base `n` positions after that of `r` |
| ReverseIterators.Deref | reverse_iterator.hpp:93-98 | `*r` is the element just before the base |
| ReverseIterators.Index | reverse_iterator.hpp:100-103 | `r[n]` is the element `n + 1` positions before the base |
| ReverseIterators.PlusFront | reverse_iterator.hpp:119-124 | the free `n + r` is the member `r + n` |
| ReverseIterators.Difference | reverse_iterator.hpp:126-131 | `lhd - rhd` is the number of steps from `rhd` to `lhd`: `rhd + (lhd - rhd)` is `lhd` |
| ReverseIterators.Equal | reverse_iterator.hpp:133-137 | `==` holds exactly for the same reverse iterator |
| ReverseIterators.NotEqual | reverse_iterator.hpp:139-143 | `!=` holds exactly for different reverse iterators |
| ReverseIterators.LessEqual | reverse_iterator.hpp:145-149 | `<=` is `<` or `==` |
| ReverseIterators.GreaterEqual | reverse_iterator.hpp:151-155 | `>=` is `>` or `==` |
| ReverseIterators.Greater | reverse_iterator.hpp:157-161 | `>` is `<` with the operands swapped |
| ReverseIterators.Less | reverse_iterator.hpp:163-167 | `lhd < rhd` exactly when `rhd - lhd` is positive |
| ReverseIterators.RBegin | vector.hpp:170-172 | `rbegin()` is over the end position and reads the last element |
| ReverseIterators.REnd | vector.hpp:178-180 | `rend()` is over the first position, as many steps after `rbegin()` as there are elements |
| ReverseIterators.IndexReadsBeforeBase | reverse_iterator.hpp:93-103 | `*(r + n)` and `r[n]` read the element `n + 1` positions before the base |
| ReverseIterators.Arithmetic | reverse_iterator.hpp:119-131 | `+` and `-` undo each other and compose; the free `+` equals the member `+`; the difference of `r + n` and `r` is `n` |
| ReverseIterators.OrderFromDifference | reverse_iterator.hpp:133-167 | every comparison agrees with the sign of the difference, and together they form a total order |
| ReverseIterators.Visit | reverse_iterator.hpp:50-54 | dereferencing and stepping `steps` times reads `steps` elements |
| ReverseIterators.VisitReverses | reverse_iterator.hpp:93-98 | from `rbegin()` to `rend()` a reverse iterator reads the sequence backwards, last element first, in `size` steps |
| ReverseIterators.ReverseIterator.constructor | reverse_iterator.hpp:30 | the base is the given position |
| ReverseIterators.ReverseIterator.Increment | reverse_iterator.hpp:50-54 | prefix `++` moves as `+ 1` |
| ReverseIterators.ReverseIterator.PostIncrement | reverse_iterator.hpp:56-61 | postfix `++` answers the old value and moves as `+ 1` |
| ReverseIterators.ReverseIterator.Decrement | reverse_iterator.hpp:68-72 | prefix `--` moves as `- 1` |
| ReverseIterators.ReverseIterator.PostDecrement | reverse_iterator.hpp:74-79 | postfix `--` answers the old value and moves as `- 1` |
| ReverseIterators.ReverseIterator.PlusAssign | reverse_iterator.hpp:81-85 | `+= n` moves as `+ n` |
| ReverseIterators.ReverseIterator.MinusAssign | reverse_iterator.hpp:87-91 | `-= n` moves as `- n` |

## Left out

- Memory allocation and templates:
  - The allocator is modelled only as `NodeStore` allocation and release, which hand out indices never used before.
  - `construct`/`destroy` on vector slots are ordinary stores or nothing.
  - `max_size()` and `get_allocator()` depend on the allocator and are not modelled.
- Types: every container has `int` elements (the map: `int` keys and values) and the default comparator `std::less`. Templates and custom comparators are not modelled.
- Console output: `_print_value` and the `std::cout` line of `_checkBranches` are left out as I/O.
- Deep copies of the tree, which are also the map's copy constructor and `operator=`: `RedBlackTree::_copy` (which copies the left subtree twice) is not part of this model.
- Swap of trees: `RedBlackTree::swap` (which assigns through a `const` reference) and `map::swap` are not part of this model.
- Map ranges:
  - `map::erase(first, last)` increments an iterator after its node is erased, so it is not modelled.
  - The map's range constructor inserts through `_tree.insert` exactly as `Maps.Map.InsertAll` does, so it is not modelled separately.
- Map accessors: `map::rbegin`/`rend`, `key_comp` and `value_comp` are not modelled; `Maps.ValueCompareIsStrictWeak` covers the comparator.
- Const overloads: the `cbegin`/`cend`-style members of every container are the same as their non-const versions.
- Vector ranges: the range constructor, the range `insert` and the range `assign` are not modelled; they take input iterators and `std::distance`.
- Vector accessors:
  - `data()` is not modelled.
  - `begin()` is position 0 and `rend()` is `Reverse(0)`.
  - The vector copy constructor is modelled only through `Stacks.Stack.constructor`, which builds a new vector and assigns it.
- Vectors.Vector.Assign: requires two distinct vectors not to share a buffer.
- Maps.Map.Index and Maps.Map.At: answer the mapped value. The source returns a reference to it, and assigning through that reference is not modelled.
- Vectors.Vector.Get, Vectors.Vector.At, Vectors.Vector.Front and Vectors.Vector.Back: answer the element. The source returns a reference to the slot, and assigning through it is not modelled.
- Stacks.Stack.Top: answers the top element. The source returns a reference to it, and assigning through it is not modelled.
- Stacks.Equal, Stacks.NotEqual, Stacks.Less, Stacks.LessEqual, Stacks.Greater and Stacks.GreaterEqual: model what the operators of stack.hpp:33-67 compute on the contents. As written they apply the vector operators of vector.hpp:399-429, which take non-`const` references, to the `const` member `c`, so they do not compile once instantiated over `ft::vector`.
- Vectors.Vector.Get, Front and Back require an index among the elements, or a non-empty vector; out of range these read outside the elements, which is undefined in the source.
- Iterator types: `type_traits.hpp` and `vector_iterator.hpp` are not part of this model. Vector positions are plain indices, and a comparison of vector iterators is a comparison of indices.
- Undefined behaviour in `erase`:
  - The path on which `_deletionRebalance` dereferences a null sibling ends as `Undefined`.
  - So does `_deleteNode` writing through the null parent of a root.
  - The model does not follow either path further.
- TreeRebalance.InsertionRebalance: proved to keep the nodes, their order and their values, with the recolouring of each case stated by its step (`RotateUp`, `RecolourUncle`). It is not proved to restore the colour rules.
- TreeRebalance.DeletionRebalance: proved to keep the nodes, their order and their values, with the recolouring of each case stated by its step (`BlackSiblingRotations`, `RedSiblingRotation`). It is not proved to restore the colour rules, which the far-nephew case as written does not do (see Findings).
- Why the rebalances are not proved to restore the colour rules:
  - `insert` as written never calls the insertion rebalance.
  - The trees `erase` meets break the colour rules from the start.
- RBTree.RedBlackTree.ReplaceNode: models only the non-null `src` branch of `_replaceNode`, the one `_internalDeletionHandler` takes.
- `TreeNode` copy constructor and `operator=`: not modelled separately; a record copy is a value copy of `Node`.
- Pair members:
  - The `pair` converting constructor is not modelled.
  - `pair::operator=` is modelled by its two stores; its missing `return` is not modelled.
  - The free `swap` of pairs and of stacks takes `const` references and is not modelled.
- `reverse_iterator` special members:
  - The copy constructor and `operator=`, which read `rhd._current` of an underlying iterator, are not modelled.
  - The default constructor and `operator->` are not modelled.
- RBTree.RedBlackTree.Insert: the ordered-insert guarantee is stated only without a hint, because with a hint the code as written can break the order (see Findings).
- Maps.Map.InsertHint: the guarantee is stated the same way, for the same reason.
- Map key semantics: guaranteed only while the entries are sorted by key. Every operation except the hinted insert keeps them sorted.

## Findings

| source | as written | input that shows it | evidently intended | confidence | as-written member | corrected member |
|---|---|---|---|---|---|---|
| RBTree.hpp:349-353 | `lower_bound` keeps the stop node only when it holds the key, and otherwise steps to the next node, even when the stop node is greater than the key | the one-node tree {5}, `lower_bound(3)`: answers `end()` where the node 5 is meant; `upper_bound(3)` inherits the error | keep the stop node whenever its key is not less than the key | high, not executed | RBTree.RedBlackTree.LowerBound, RBTree.RedBlackTree.UpperBound, TreeSearch.LowerBoundSkipsLandedNode | RBTree.RedBlackTree.LowerBoundIntended, RBTree.RedBlackTree.UpperBoundIntended, TreeSearch.LowerBoundSpec |
| RBTree.hpp:267-268 | the hint is kept unless its parent's value is less than the value, so a value equal to the parent's passes the test | tree {5 with left child 3}, `insert((5,7), hint = node 3)`: a second entry with key 5 is added to the right of 3 and the entries are no longer sorted | give up the hint unless the value is less than its parent's value | high, not executed | RBTree.RedBlackTree.Insert, TreeSearch.HintedInsertDuplicates | RBTree.RedBlackTree.InsertIntended, RBTree.RedBlackTree.FindPlaceForInsertIntended |
| pair.hpp:58-61 | `operator<` holds when the firsts are not ordered and the seconds are equal, so it holds for every pair against itself | `(1,1) < (1,1)` is true, and then `(1,1) <= (1,1)` is false | lexicographic order: by `first`, then by `second` | high, not executed | Pairs.LessCounterexample | Pairs.LexLessIsStrictTotal |
| algorithm.hpp:53-56 | the comparator overload of `lexicographical_compare` returns in the first round: false when `comp(a[0], b[0])`, true otherwise | `[1]` against `[2]` with `<` answers false | the loop of the `<` overload with `comp` in place of `<` | high, not executed | Algorithm.LexicographicalCompareBy, Algorithm.CompareByCounterexample | Algorithm.LexicographicalCompareByIntended, Algorithm.LexLessByLess |
| vector.hpp:421-429 | `operator<=` is `!(rhd > lhd)` and `operator>=` is `!(lhd > rhd)`, which swaps their meanings | `[1] <= [2]` is false and `[2] >= [1]` is false | `operator<=` as `!(lhd > rhd)` and `operator>=` as `!(lhd < rhd)` | high, not executed | Vectors.LessEqual, Vectors.GreaterEqual, Vectors.SwappedOrderCounterexample | Vectors.LessEqualIntended, Vectors.GreaterEqualIntended |
| vector.hpp:70-77 | both copy loops of `_insertion_routine` read `n` slots below the slot they write, starting from the end, and the store after the first loop writes the slot before the end when `n` is 0 | `insert(begin(), 1, x)` on an empty vector reads before the buffer, and so does `insert(begin(), 3, x)` on a vector of two elements | move only the elements from the position on, from the top down | high, not executed | Vectors.Vector.InsertionRoutine, Vectors.Vector.Insert, Vectors.Vector.InsertN | Vectors.Vector.InsertionRoutineIntended, Vectors.Vector.InsertNIntended |
| vector.hpp:310-311 | after writing `n` values, `assign(n, val)` loops from slot `n` until it meets `end()`, which lies below it when `n` exceeds the old size | `assign(3, x)` on an empty vector never stops | stop at the old end, or skip the loop, before setting the size to `n` | high, not executed | Vectors.Vector.AssignN | Vectors.Vector.AssignNIntended |
| RBTree.hpp:141-151 | with a black sibling whose far child is red and whose near child is not, the sibling rises above the parent and takes its colour and the parent turns black, but the far nephew stays red | from a valid red-black tree with a black root, a black leaf to delete on its left, and on its right a black sibling with a red right child: after the rebalance and the deletion, the left side of the new root meets two black links and the right side one, and `_checkTree` throws `logic_error` | also turn the far nephew black | high, not executed | TreeRebalance.BlackSiblingRotations, TreeColour.FarNephewShortfall | TreeRebalance.BlackSiblingRotationsIntended, TreeColour.FarNephewRepair |
