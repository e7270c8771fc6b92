# A B-tree ordered set, modelled and verified in Dafny

The system is a small C library: a set of fixed-size elements kept in a
B-tree of Knuth order `order` (2 to 255). The caller supplies a strict
weak `less`; two elements are the same member when neither is less
than the other. The public interface (`set.h`) has four calls:

- `set_init` makes an empty set;
- `set_contains` reports whether an equivalent element is stored and can copy that element out;
- `set_insert` adds an element unless an equivalent one is present;
- `set_map` hands every stored element to a visitor.

`set.c` stores the elements in nodes of at most `order - 1` keys. An
internal node has one more child than it has keys. Insertion goes down
to a leaf, places the key by shifting the node's buffer, and splits a
full node around its median. The median is pushed into the parent, or
into a new root when the root splits.

How the model is laid out:

- **Data.** Elements are `Order.Elem(key, payload)`, and `less`
  compares keys only. So equivalent elements can still differ, which
  makes the copy-out of `set_contains` and the "equivalent means
  present" rule of `set_insert` observable.
- **The tree.** The tree is a value: `Tree.Node(keys, children)`. A
  split that must go up to the parent is returned to the caller as
  `Tree.Grown.Split(left, pivot, right)`, where the C follows parent
  pointers.
- **Pure specification.** The functions of module `Tree` state what
  each C function computes. Their properties are proved separately:
  contents in `Multisets`, search-tree order in `Ordering`, B-tree shape
  in `Shape`, search in `Search`, traversal in `Traversal`, and whole-set
  insertion in `Insertion`.
- **Imperative code.** It keeps the C's form:
  - `Buffer` shifts and splits node buffers in place, as the
    `memmove`/`memcpy` sequences do;
  - `TreeInsert` has the index-scanning loop and the node- and
    tree-level insert methods, each proved equal to its `Tree` function;
  - `Sets.Set` is the set object, whose `Insert` reassigns its root.
- **C defects.** Where `set.c` does not do what its comments say, the
  model follows the comments. Four such places are written out, as
  coded, in module `Findings` (see "## Findings"). The other divergences
  are listed under "## Left out".
- **`set_map` order.** It visits a node's keys before its children
  (set.c:236-249), so the visit order is not ascending. The model keeps
  that order (`Tree.Visit`). It proves that every stored element is
  visited exactly once, and separately that an in-order walk
  (`Tree.InOrder`) would be ascending. That second fact is a
  strengthening beyond anything set.h promises.

## Model

| member | source | states |
|---|---|---|
| Order.LessIsStrictWeakOrder | set.h:9-13 | `less` is irreflexive, asymmetric and transitive; the equivalence it induces is reflexive, symmetric and transitive and is compatible with `less` |
| Order.InsertAtIndex | set.c:104-109 | after placing `x` at `i`, slots before `i` are unchanged, slot `i` holds `x` and every later slot holds the entry that was one to its left |
| Order.AscendingInsertAt | set.c:101-113 | placing `x` between a smaller and a larger neighbour keeps a node's keys strictly ascending |
| Order.AscendingOccursOnce | set.h:29-31 | a strictly ascending key sequence holds each of its elements exactly once |
| Buffer.ShiftInsert | set.c:104-109 | in place on the node's buffer: its first `n + 1` slots become the old `n` entries with `x` at `i`, and the slots past them are untouched |
| Buffer.SplitInsert | set.c:130-154 | the full buffer keeps the first `keep` entries of the sequence it would hold with `x` at `i`; entry `keep` is handed back as the pivot; the entries after the skipped ones go to a fresh buffer of the same capacity |
| Tree.FindIndex | set.c:184-188 | the index is the first key not less than `x`: every key before it is less and the key at it (if any) is not |
| Tree.Find | set.c:62-85 | any element the search returns is stored in the tree and is equivalent to `x` |
| Tree.SimpleInsertion | set.c:101-113 | the node with room after insertion: one more key with `x` at `i`, and a child list that stays empty for a leaf and one longer than the keys otherwise; Multisets.SimpleInsertionElements, Ordering.SimpleInsertionOrdered and Shape.SimpleInsertionPlaces state what it stores, its order and its layout |
| Tree.Halves | set.c:156-164 | cutting a node around key `m` always splits: `m` keys on the left and, with the pivot, all the rest on the right; Multisets.HalvesElements and Ordering.HalvesOrdered state what the halves hold and their order |
| Tree.SplitInsertion | set.c:119-164 | the split of a full node: the halves and the pivot hold one key more than the node, and the left half holds as many keys as the right or one more; Shape.SplitInsertionLayout, Multisets.SplitInsertionElements and Ordering.HalvesOrdered state its layout, contents and order |
| Tree.NodeInsertion | set.c:180-198 | a split happens exactly when the node already holds max_keys keys; otherwise the node gains one key and stays a leaf or stays internal; Multisets.NodeInsertionElements, Ordering.NodeInsertionOrdered and Shape.NodeInsertionShape state the rest |
| Tree.TreeInsertion | set.c:200-223 | a subtree that still fits gains at most one key at its top and stays a leaf or stays internal; Multisets.TreeInsertionPresent, Multisets.TreeInsertionElements, Ordering.TreeInsertionOrdered and Shape.TreeInsertionShape state what it stores, its order and its shape |
| Tree.SetInsertion | set.c:225-234 | an empty set gets a leaf root holding `x`; otherwise the root loses no keys unless it split, in which case the new root has one key and two children; Insertion.SetInsertionValid and Multisets.SetInsertionElements state the rest |
| Tree.Visit | set.c:236-249 | the walk starts with the node's own keys in order, then walks the children; Multisets.VisitElements and Traversal.VisitOnce state that it visits every stored element exactly once |
| Search.FindComplete | set.c:78-84 | in an ordered tree, when the search finds nothing, no stored element is equivalent to `x` |
| Search.FindExact | set.c:62-85 | in an ordered tree the search succeeds exactly when some stored element is equivalent to `x`, and then returns a stored equivalent element |
| Sets.FindStored | set.h:22-26 | in a valid tree the search succeeds iff an equivalent element is stored, and the element found is the only stored one equivalent to `x` |
| Shape.ShapedWellFormed | set.c:14-16 | every node of a B-tree has no children or exactly one child more than keys |
| Shape.SplitSizes | set.c:122-123 | the split index is ceil(max_keys / 2); the right half gets floor(max_keys / 2) = MinKeys, so the left half never holds fewer keys than the right |
| Shape.SimpleInsertionPlaces | set.c:101-113 | one more key; `x` at index `i`; keys before and after it keep their order; an internal node's new child is right of `x` and the other children keep their order |
| Shape.SplitInsertionLayout | set.c:115-164 | a full node always splits: ceil(max_keys / 2) keys on the left and MinKeys on the right; left keys, pivot and right keys are the node's keys with `x` inserted; the two child lists are its children with the new right child inserted |
| Shape.NodeInsertionShape | set.c:189-197 | node-level insertion splits exactly when the node holds max_keys; a fit keeps the node's kind, and both split halves are non-root nodes of the same height with at least MinKeys keys |
| Shape.TreeInsertionShape | set.c:200-223 | insertion below a B-tree node keeps every key-count bound, the child counts and the equal leaf depth |
| Multisets.SimpleInsertionElements | set.c:101-113 | the node afterwards stores its old elements plus `x` plus, in an internal node, the new right child's elements |
| Multisets.HalvesElements | set.c:156-164 | cutting a node around key `m` loses and duplicates nothing: left half, pivot and right half together hold the node's elements |
| Multisets.SplitInsertionElements | set.c:119-164 | the split halves and the pivot together hold the node's elements plus `x` plus the new right child's elements |
| Multisets.NodeInsertionElements | set.c:180-198 | node-level insertion, fit or split, adds exactly `x` and the new right child's elements |
| Multisets.TreeInsertionPresent | set.c:210-214 | when the search finds an equivalent element, tree insertion returns the tree unchanged |
| Multisets.TreeInsertionElements | set.c:200-223 | when no equivalent element is found, tree insertion adds exactly one copy of `x` and nothing else |
| Multisets.SetInsertionElements | set.c:225-234 | at the set level: an equivalent element found means the root is unchanged; otherwise the stored elements gain exactly `x` |
| Multisets.VisitElements | set.c:236-249 | the keys-then-children walk visits the stored elements with their multiplicities |
| Ordering.SimpleInsertionOrdered | set.c:101-113 | placing `x` at its scanned index, with the new right child between `x` and the next key, keeps the node a search tree within its bounds |
| Ordering.HalvesOrdered | set.c:156-170 | both halves of a split are search trees: the left below the pivot, the right above it, and the pivot within the node's bounds |
| Ordering.NodeInsertionOrdered | set.c:180-198 | node-level insertion keeps the search-tree order, fit or split |
| Ordering.ReplaceChildOrdered | set.c:215-216 | swapping a child for one ordered within the same bounds keeps the node ordered |
| Ordering.TreeInsertionOrdered | set.c:200-223 | inserting an element within a subtree's bounds keeps that subtree a search tree within those bounds |
| Traversal.InOrderElements | set.c:7-8 | the in-order walk of a node holds exactly its stored elements |
| Traversal.InOrderAscending | set.c:7-8 | the in-order walk of an ordered tree is strictly ascending (a strengthening: set_map does not walk in this order) |
| Traversal.StoredOnce | set.h:29-31 | a search tree stores each element once and never two equivalent elements |
| Traversal.VisitOnce | set.h:33-39 | the walk of set_map is a permutation of the in-order walk, and it visits each stored element exactly once and nothing else |
| Insertion.SetInsertionValid | set.c:225-234 | set_insert keeps the B-tree invariants; the first insertion gives a one-key leaf holding `x`; otherwise the height stays the same unless the root splits, when it grows by one and the new root holds only the pivot over two children |
| Insertion.InsertDuplicate | set.c:210-214 | inserting an element equivalent to a stored one leaves the tree as it was |
| Insertion.InsertFresh | set.h:29-31 | inserting an element with no equivalent stored adds exactly one copy of it and nothing else |
| Insertion.InsertThenContains | set.h:22-31 | after an insertion the search finds an element equivalent to the one inserted, and every element stored before is still stored |
| TreeInsert.Scan | set.c:183-188 | the loop stops at the first key not less than `x`, which is the index FindIndex characterises |
| TreeInsert.Load | set.c:32-40 | a fresh node buffer of the node's capacity whose first slots hold the given entries |
| TreeInsert.ShiftBuffer | set.c:104-109 | a node buffer of capacity `cap` holding `s`, after the in-place shift, holds `s` with `x` at `i` |
| TreeInsert.SplitBuffer | set.c:130-160 | a full node buffer, split in place, leaves the prefix, the pivot and the suffix of `s` with `x` at `i` |
| TreeInsert.InsertSimple | set.c:101-113 | the in-place insertion into a node with room computes SimpleInsertion |
| TreeInsert.InsertSplit | set.c:119-164 | the in-place split of a full node computes SplitInsertion |
| TreeInsert.InsertInNode | set.c:180-198 | scanning, then inserting in place or splitting, computes NodeInsertion |
| TreeInsert.InsertInTree | set.c:200-223 | the recursive descent computes TreeInsertion |
| Sets.VisitTree | set.c:236-249 | the loops over keys and children produce exactly the keys-then-children walk |
| Sets.Set.constructor | set.c:42-47 | a new set stores the given order, has no root and holds no elements |
| Sets.Set.Contains | set.c:87-95 | true exactly when an equivalent element is stored; with a buffer and a match, the buffer receives that stored element, the only equivalent one; otherwise the buffer is left as it was, including for an empty set |
| Sets.Set.Insert | set.c:225-234 | the set stays valid; an empty set gets a one-key leaf root; an equivalent element present means no change; otherwise exactly one copy of `x` is added; afterwards an equivalent element is stored |
| Sets.Set.Map | set.c:251-253 | the visitor receives the walk of the root (nothing for an empty set); the visited elements are the stored ones, each exactly once |
| Findings.ScanAsWritten | set.c:184-188 | as coded, the scan stops at the first key less than `x`; every key before it is not less |
| Findings.ScanAsWrittenMisplaces | set.c:184-188 | for keys 1 and 3, the coded scan places 2 at index 0 and breaks the ascending order; the intended scan places it at index 1 and keeps it |
| Findings.DuplicateTestAsWritten | set.c:210-213 | the coded return condition `less(elem, stored) && less(stored, elem)`; it has no contract of its own, and Findings.DuplicateTestNeverFires states that it holds for no pair |
| Findings.DescentAsWritten | set.c:208-218 | as coded, the descent stops at the first key that `x` is less than, which is the only place the test of set.c:212 is asked; no key before it is greater than `x` |
| Findings.DuplicateTestNeverFires | set.c:208-215 | the coded duplicate test is false for every pair; a root holding (5,0) over leaves 1 and 7, taking in (5,1), descends past (5,0) to the leaf holding 7, which takes (5,1) in, so two equivalent elements are stored; the intended insertion leaves that root unchanged |
| Findings.SimpleInsertionAsWritten | set.c:110-112 | as coded, one more key, the old children stay in their slots and the new right child goes into the slot after them |
| Findings.SimpleInsertionAsWrittenDisorders | set.c:110-112 | inserting 5 with right child 7 into a root holding 10 over leaves 1 and 20: the coded placement puts 20 between 5 and 10, so the tree stops being a search tree; the intended placement keeps it one |
| Findings.SplitChildrenAsWritten | set.c:156-160 | as coded, the left node keeps children 0..m and the new node gets the children from m on, so child m is in both |
| Findings.SplitChildrenAsWrittenLoses | set.c:156-160 | for leaves 1, 15 and 25 split with m = 1, the coded split stores 15 twice and never stores the new right child 3 |
| Findings.SplitChildrenCorrected | set.c:156-160 | in the same case, the intended split gives left children 1 and 3, pivot 10 and right children 15 and 25 |

## Left out

- Memory management is not modelled. This covers `calloc` and `free`, `set_tree_free` and `set_free` (set.c:49-60). Node objects are values, so aliasing of nodes and parent pointers is not modelled either.
- The element size and the byte layout are not modelled. Buffers hold whole elements, so the missing `elem_size` factor at set.c:139 and set.c:145 does not arise. Once that factor is put back, set.c:145 still holds an element-level error, stated in the `TreeInsert.InsertSplit:` line below.
- The child array sized by `elem_size` (set.c:37, set.c:158-159) is not modelled. The model's child buffer holds `order` children.
- The comparator is fixed to key order on `Elem`. It is not a function pointer, so a `less` that is not a strict weak order is out of scope.
- The `uint8_t` width of `order` and `n_keys` is modelled only as the bound 2..255 on `order`.
- `set_map`'s visitor and `extra` argument are not modelled. The call sequence is returned as the list of visited elements, so visitor side effects are out of scope.
- Sets.Set.Map: on an empty set, set.c:251-253 passes a NULL root to `set_tree_map`, which dereferences it. The model visits nothing.
- Tree.Find: `set_tree_contains` (set.c:62-85) is not modelled as coded. The for-header at set.c:66 declares a second `elem_index`, so set.c:79 descends by the uninitialised outer one. The break test at set.c:67 is `less(stored, elem)`, inverted as at set.c:185. `stored` is read before it is assigned. The match test at set.c:72 is `less(elem, stored)`, not equivalence. The model scans to the first key not less than `x`, reports a match when that key is equivalent to `x`, and otherwise descends into the child at that index.
- TreeInsert.InsertInTree: set.c:203-205 has no `return` after the leaf insert, so the C would go on to index the NULL children of a leaf. The model stops after the leaf insert.
- TreeInsert.InsertInTree: the model checks for an equivalent key at every internal node on the way down and stops there. set.c:208-215 means to do this, but the test is written wrongly (see "## Findings").
- TreeInsert.InsertInTree: at a leaf, the model first checks for an equivalent key and leaves the tree unchanged if there is one. set.c:203-205 has no such test; it inserts into the leaf straight away.
- TreeInsert.InsertInTree: parent pointers are not modelled. set.c:156-160 moves children to the new sibling without updating their `parent`, and set.c:171-177 never sets the old root's `parent`. So in the C, a later split of a moved child would push its pivot into the wrong node. In the model each split is returned to the node the recursion came from, which is always the right parent.
- Buffer.ShiftInsert: set.c:104 increments `n_keys` before set.c:107-108 uses it as the `memmove` count. So the C moves one element more than the node holds, and when the node becomes full that write lands one slot past the `order - 1`-slot buffer of set.c:36. The model moves exactly the entries from `i` to the last key and leaves the slots past `n + 1` untouched.
- Sets.Set.Insert: when the root splits, set.c:172-176 re-initialises `new_node` instead of `new_root` and never stores the new root in the set. The model replaces the root with a new node holding only the pivot over the two halves.
- TreeInsert.InsertSplit: set.c:132 always gives the new right node a child buffer, and set.c:135-154 never places `right_child`. The model gives the right half children exactly when the node is internal, and places the new right child right of the inserted key before cutting.
- The uninitialised data and child slots of `set_node_init` (set.c:26-31) stand as a fill value in the model's buffers. The model reads only the slots the node holds.
- TreeInsert.InsertSplit: when `x` belongs in the right half (`elem_index > n_old`), set.c:145 places it at slot `elem_index - n_old` of the new node, and set.c:147-148 copies that many old keys ahead of it from `pivot + 1`. The comment at set.c:146 asks for the keys from `pivot + 1` up to `elem_addr`, which is one fewer. So even with whole-element slots, the C copies one old key too many, puts `x` one slot too far right, and cuts the right half to `n_new` entries. With order 6, keys 10, 20, 30, 40, 50 and `x` = 45, the right half becomes 50, 45, which is out of order. When `elem_index == n_keys`, the copy reads past the keys in use and `x` is dropped. The model puts `x` at slot `elem_index - n_old - 1` of the right half, after keys `n_old + 1 .. elem_index - 1` and before the rest, which keeps the keys ascending (Shape.SplitInsertionLayout, Ordering.HalvesOrdered).
- The left-half case of the split (set.c:135-143) and the split sizes (set.c:122-123, set.c:162-164) are modelled as the code computes them at element level.

## Findings

| source | as written | input that shows it | evidently intended | confidence | as-written member | corrected member |
|---|---|---|---|---|---|---|
| set.c:184-188 | the scan breaks at the first key less than `elem` | keys 1 and 3, inserting 2: the scan gives index 0 and the keys become 2, 1, 3 | break at the first key not less than `elem`, giving index 1 and keys 1, 2, 3 | high; not executed | Findings.ScanAsWrittenMisplaces | TreeInsert.Scan |
| set.c:210-213 | the test for an equivalent key is `less(stored, elem)` inside `if (less(elem, stored))`, so it never holds; a key equivalent to `elem` never satisfies the outer test, so the descent passes it | a root holding (5,0) over leaves holding 1 and 7, inserting (5,1): the descent reaches the leaf holding 7, which takes (5,1) in, and both equivalent elements are stored | at each key, stop when neither is less than the other and leave the set unchanged | high; not executed | Findings.DuplicateTestNeverFires | Insertion.InsertDuplicate |
| set.c:110-112 | the new right child is written to `children[n_keys]` and the other children are not shifted | a root holding 10 over leaves 1 and 20, taking in 5 with right child 7: leaf 20 ends up between 5 and 10 | shift the children after the new key and place the right child immediately right of it | high; not executed | Findings.SimpleInsertionAsWrittenDisorders | Ordering.SimpleInsertionOrdered |
| set.c:156-160 | the new node gets the children from index `n_old` on, so child `n_old` stays in both halves and the new right child is never placed | order 3, a root holding 10 and 20 over leaves 1, 15 and 25, its first leaf splitting around 2 with right half 3: 15 is stored twice and 3 is lost | the left half keeps children 0..n_old and the right half takes the rest, with the new right child inserted first | high; not executed | Findings.SplitChildrenAsWrittenLoses | Findings.SplitChildrenCorrected |
