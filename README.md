# dsgym containers in Dafny

This project models five in-memory containers from the Go repository
dsgym and proves properties of them:

- **Red-black map** (`tree/rb_tree/rb_tree.go`). A left-leaning red-black
  tree maps keys to values. Each node caches its subtree size. The handle
  offers `Init`, `Get`, `Put`, `IsEmpty`, `Size`, `Min`, `Max` and
  `DeleteMin`.
- **AVL set** (`tree/avl_tree/avl_tree.go`). An AVL tree holds a set of
  keys with a count. `Add` and `Remove` report whether they changed the
  set. `Remove` replaces a two-child node by its in-order predecessor.
- **Insert-only AVL tree** (`tree/avl_tree.go`). It uses the same node code
  but has no removal, and its `Add` counts every call.
- **Linked list** (`list/list.go`). This is a circular doubly linked list
  with a sentinel element. Each element carries a `belongsTo` tag naming
  its list, and a `len` counter is kept.
- **LRU cache** (`lru/lru.go`). A map from keys to list elements sits
  beside a recency list, most recently used entry first. The back entry is
  evicted when the cache grows past its capacity.

Layout:

| file | module | contents |
|---|---|---|
| `optional.dfy` | `Optional` | `Option`, standing for Go's nil results |
| `rb_node.dfy` | `RbNode` | red-black nodes as an immutable `Tree` datatype, the node helpers, and the order, size, contents and shape proofs |
| `rb_tree.dfy` | `RbTree` | class `RBTree`, a handle whose `root` field the operations reassign |
| `avl_node.dfy` | `AvlNode` | AVL nodes as a datatype, shared by both AVL files |
| `avl_set.dfy` | `AvlSet` | class `AvlTree` of `tree/avl_tree/avl_tree.go` |
| `avl_insert_only.dfy` | `InsertOnlyAvl` | class `Tree` of `tree/avl_tree.go` |
| `list_order.dfy` | `ListOrder` | each list operation as a function on the sequence of elements, with lemmas relating them |
| `linked_list.dfy` | `LinkedList` | classes `Element` and `List` with real `prev`/`next`/`belongsTo` pointers |
| `lru.dfy` | `Lru` | class `LruCache` |

Tree nodes have no parent pointers, each child is owned by one parent, and
every Go helper returns the root of the subtree it rebuilt. So a subtree is
a value and each helper is a function from the old subtree to the new one.
The handles (`RBTree`, `AvlTree`, `Tree`) are classes whose fields the
methods reassign.

The linked list is pointer code, so it is modelled as objects. A ghost
sequence `elems` lists the elements front to back. `Valid` states that the
ring through the sentinel links exactly those elements, each tagged with
the list, and that `len` is their number. Every method that inserts,
removes or moves a given element is proved against a function of
`ListOrder`. For example, `MoveAfter` yields
`MovedAfter(old(elems), e, mark)`, and `ListOrder` proves what those
functions do: the other elements keep their order, the elements are
permuted, and e ends up next to mark. The other methods are proved against
`elems` itself. `PushBack` and `PushFront` add the new element at one end
of it. `PushBackList` and `PushFrontList` add, at one end, fresh elements
that `Copies` relates value by value to the other list's elements. `Init`
empties it. `Len`, `Front`, `Back`, `Next` and `Prev` read it.

The red-black map promises more than it implements. This model follows
the code:

- tree/rb_tree/rb_tree.go:17-37 declares a `SortedMap` interface with
  `Delete`, `Contains`, `Floor`, `Ceiling`, `Rank`, `Select` and range
  queries, and notes that `RBTree` should implement it. The tests
  tree/rb_tree/rb_tree_test.go:122-145 and 279-288 call `Delete` and
  `Floor`. `rb_tree.go` defines none of these methods. It has only the
  operations listed above, so only those are modelled.
- tree/rb_tree/rb_tree_test.go:31-34 expects `Put(nil, nil)` to leave the
  size at 0. `Put` has no nil-key guard.

## Model

| member | source | states |
|---|---|---|
| RbNode.IsRed | tree/rb_tree/rb_tree.go:59-64 | a nil node counts as black: only an existing node can be red |
| RbNode.NewNode | tree/rb_tree/rb_tree.go:78-87 | a lone node of the given colour holding the key and value: one entry, size 1, a search tree of red-black shape |
| RbNode.GetLeft | tree/rb_tree/rb_tree.go:89-94 | nil for nil; otherwise the subtree holding the entries before the node's own, all with smaller keys in a search tree |
| RbNode.GetRight | tree/rb_tree/rb_tree.go:96-101 | nil for nil; otherwise the subtree holding the entries after the node's own, all with larger keys in a search tree |
| RbNode.FlipColors | tree/rb_tree/rb_tree.go:66-76 | the node's colour is inverted and both children take the node's old colour; entries, contents, order and sizes are unchanged |
| RbNode.CalcSize | tree/rb_tree/rb_tree.go:110-115 | if both children cache correct sizes, the node's size becomes correct; links, colour, contents and black height are untouched |
| RbNode.RotateLeft | tree/rb_tree/rb_tree.go:117-129 | the right child becomes the root and takes the old root's colour and size; the old root takes the child's colour; the in-order entries, contents and keys are unchanged; order and cached sizes are preserved |
| RbNode.RotateLeftOrder | tree/rb_tree/rb_tree.go:117-129 | the left rotation of a search tree is a search tree |
| RbNode.RotateLeftSizes | tree/rb_tree/rb_tree.go:117-129 | after a left rotation every cached size is still correct: the new root reuses the old root's size and the demoted node is recounted |
| RbNode.RotateLeftStores | tree/rb_tree/rb_tree.go:117-129 | a left rotation keeps the in-order (key, value) sequence, the map and the key set |
| RbNode.RotateRight | tree/rb_tree/rb_tree.go:131-143 | the mirror image of RotateLeft: entries, contents and keys unchanged, colours swapped, size reused, order and sizes preserved |
| RbNode.RotateRightOrder | tree/rb_tree/rb_tree.go:131-143 | the right rotation of a search tree is a search tree |
| RbNode.RotateRightSizes | tree/rb_tree/rb_tree.go:131-143 | after a right rotation every cached size is still correct |
| RbNode.RotateRightStores | tree/rb_tree/rb_tree.go:131-143 | a right rotation keeps the in-order entries, the map and the key set |
| RbNode.Descend | tree/rb_tree/rb_tree.go:145-157 | the recursive part of insert: the key set becomes old ∪ {k}, the node keeps its key and colour, order is kept, and sizes are correct below the node |
| RbNode.FixUp | tree/rb_tree/rb_tree.go:158-169 | the three fix-ups and the recount keep entries, contents and order, and leave every size correct |
| RbNode.Insert | tree/rb_tree/rb_tree.go:145-171 | the result is a node whose key set is old ∪ {k}; order and cached sizes are preserved |
| RbNode.InsertContents | tree/rb_tree/rb_tree.go:145-171 | in a search tree, insert maps k to v and leaves every other key as it was, so an equal key only has its value overwritten |
| RbNode.ReplaceLeftContents | tree/rb_tree/rb_tree.go:150-151 | updating k in the left subtree of a search tree with k below the node's key updates k in the whole tree |
| RbNode.ReplaceRightContents | tree/rb_tree/rb_tree.go:152-153 | updating k in the right subtree updates k in the whole tree |
| RbNode.ReplaceValueContents | tree/rb_tree/rb_tree.go:154-155 | overwriting the value at a node of a search tree updates that key only |
| RbNode.FixUpRightRed | tree/rb_tree/rb_tree.go:159-161 | the fix-ups on a node with a lone red right child keep black balance and black height, and give a left-leaning result (red on top if the node was red) |
| RbNode.FixUpAfterLeft | tree/rb_tree/rb_tree.go:158-169 | after inserting to the left, the fix-ups restore left-leaning shape up to the root, keep black balance and black height, and keep a red node red |
| RbNode.FixUpAfterRight | tree/rb_tree/rb_tree.go:158-169 | the same after inserting to the right or overwriting a value |
| RbNode.InsertShape | tree/rb_tree/rb_tree.go:145-171 | insert into a left-leaning, black-balanced tree keeps the black height and black balance, and leaves a red-red pair at most at the root |
| RbNode.Find | tree/rb_tree/rb_tree.go:173-185 | a node found carries the key looked for |
| RbNode.FindContents | tree/rb_tree/rb_tree.go:173-185 | in a search tree, find succeeds exactly when the key is in the map, and returns the node holding its value |
| RbNode.FindMin | tree/rb_tree/rb_tree.go:187-192 | nil exactly for an empty tree; otherwise a stored key whose node has no left child |
| RbNode.FindMinIsLeast | tree/rb_tree/rb_tree.go:187-192 | in a search tree, findMin's key is at most every key |
| RbNode.FindMax | tree/rb_tree/rb_tree.go:194-199 | nil exactly for an empty tree; otherwise a stored key whose node has no right child |
| RbNode.FindMaxIsGreatest | tree/rb_tree/rb_tree.go:194-199 | in a search tree, findMax's key is at least every key |
| RbNode.FirstEntryIsMin | tree/rb_tree/rb_tree.go:187-192 | the first in-order entry of a non-empty tree is findMin's key and value |
| RbNode.Balance | tree/rb_tree/rb_tree.go:201-217 | balance keeps entries, contents and order, and leaves every size correct |
| RbNode.BalanceSecondRotationIsDead | tree/rb_tree/rb_tree.go:203-208 | after the first conditional rotation, the condition of the second rotation never holds |
| RbNode.BalanceShape | tree/rb_tree/rb_tree.go:201-217 | balance of a subtree that deleteMin has shrunk keeps black balance and black height, and restores left-leaning shape below the root |
| RbNode.BalanceRedRight | tree/rb_tree/rb_tree.go:203-205 | a black node with a red right child and a black left child comes out left-leaning with a black right child |
| RbNode.BalanceRedPair | tree/rb_tree/rb_tree.go:201-217 | a black node with two red children comes out left-leaning and red, its 4-node split |
| RbNode.MoveRedLeft | tree/rb_tree/rb_tree.go:220-229 | the colour flip and the optional double rotation keep entries, contents, order and sizes |
| RbNode.MoveRedLeftShape | tree/rb_tree/rb_tree.go:220-229 | when the left child and its left child are both black, moveRedLeft (with no trailing flip) gives a left child that deleteMin may descend into, and a red right child one black level lower |
| RbNode.DeleteMinStep | tree/rb_tree/rb_tree.go:235-239 | at every step of deleteMin the node it recurses into satisfies deleteMin's precondition |
| RbNode.LoneRedLeaf | tree/rb_tree/rb_tree.go:232-233 | the node deleteMin drops is a red leaf, so dropping it keeps black balance |
| RbNode.DropFirstEntry | tree/rb_tree/rb_tree.go:239 | removing the first entry of the left subtree removes the first entry of the node |
| RbNode.ReplaceLeftKeeps | tree/rb_tree/rb_tree.go:239 | a left child replaced by its deleteMin result keeps entries, order and sizes in step |
| RbNode.DeleteMin | tree/rb_tree/rb_tree.go:231-241 | the in-order entries lose exactly their first element; order and sizes are kept |
| RbNode.DeleteMinMovedShape | tree/rb_tree/rb_tree.go:236-240 | the shape guarantee of deleteMin carries through the moveRedLeft branch |
| RbNode.DeleteMinKeptShape | tree/rb_tree/rb_tree.go:239-240 | the shape guarantee of deleteMin carries through the branch without moveRedLeft |
| RbNode.DeleteMinShape | tree/rb_tree/rb_tree.go:231-241 | deleteMin keeps black balance and black height, keeps a left-leaning tree left-leaning, and keeps a black node black |
| RbNode.DeleteMinContents | tree/rb_tree/rb_tree.go:231-241 | in a search tree, deleteMin removes exactly the smallest key from the map |
| RbNode.Recolor | tree/rb_tree/rb_tree.go:295-300 | recolouring the root changes neither order, sizes, black balance, contents nor the minimum, and a black root makes the tree left-leaning |
| RbNode.DeleteMinAtRoot | tree/rb_tree/rb_tree.go:291-302 | the public DeleteMin sequence on a valid non-empty tree meets deleteMin's precondition, leaves a valid tree with a black root, and removes exactly the smallest key |
| RbNode.SizeIsCount | tree/rb_tree/rb_tree.go:103-115 | when cached sizes are correct, the root's size is the number of nodes |
| RbNode.SearchTreeCount | tree/rb_tree/rb_tree.go:268-273 | in a search tree, the number of nodes is the number of distinct keys |
| RbTree.RBTree.constructor | tree/rb_tree/rb_tree.go:55-57 | a zero RBTree is a valid empty map |
| RbTree.RBTree.Init | tree/rb_tree/rb_tree.go:243-245 | the map becomes empty |
| RbTree.RBTree.Get | tree/rb_tree/rb_tree.go:247-253 | the stored value for a present key, None for an absent one |
| RbTree.RBTree.Put | tree/rb_tree/rb_tree.go:255-262 | the map becomes old[k := v], the tree stays a valid left-leaning red-black tree with a black root, and an empty tree becomes one black node of size 1 |
| RbTree.RBTree.IsEmpty | tree/rb_tree/rb_tree.go:264-266 | true exactly when the map is empty |
| RbTree.RBTree.Size | tree/rb_tree/rb_tree.go:268-273 | the number of keys in the map |
| RbTree.RBTree.Min | tree/rb_tree/rb_tree.go:275-281 | None exactly for an empty map; otherwise a stored key at most every key |
| RbTree.RBTree.Max | tree/rb_tree/rb_tree.go:283-289 | None exactly for an empty map; otherwise a stored key at least every key |
| RbTree.RBTree.DeleteMin | tree/rb_tree/rb_tree.go:291-302 | a no-op on an empty tree; otherwise exactly the smallest key goes, every remaining key is greater, the tree stays valid, and the root is black or nil |
| AvlNode.NewNode | tree/avl_tree/avl_tree.go:90-97 | a lone node holding the key, with height 1: a one-key AVL search tree |
| AvlNode.GetLeft | tree/avl_tree/avl_tree.go:141-146 | nil for nil; otherwise the subtree holding the keys before the node's own, smaller in a search tree and AVL when the tree is |
| AvlNode.GetRight | tree/avl_tree/avl_tree.go:148-153 | nil for nil; otherwise the subtree holding the keys after the node's own, larger in a search tree and AVL when the tree is |
| AvlNode.CalcHeight | tree/avl_tree/avl_tree.go:106-116 | the height becomes 1 + the larger child height (nil counts 0), and the keys and in-order sequence are untouched; tree/avl_tree.go:74-84 is the same code |
| AvlNode.RotateLeft | tree/avl_tree/avl_tree.go:155-170 | the node is returned unchanged when its children have equal heights; otherwise the in-order keys are unchanged and order is kept; tree/avl_tree.go:123-138 is the same code |
| AvlNode.RotateLeftOrder | tree/avl_tree/avl_tree.go:155-170 | the rotated node has the same in-order keys and keeps search-tree order |
| AvlNode.RotateRight | tree/avl_tree/avl_tree.go:172-187 | the mirror image of RotateLeft; tree/avl_tree.go:140-155 is the same code |
| AvlNode.RotateRightOrder | tree/avl_tree/avl_tree.go:172-187 | the rotated node has the same in-order keys and keeps order |
| AvlNode.Adjust | tree/avl_tree/avl_tree.go:118-139 | in-order keys and order are kept; tree/avl_tree.go:86-107 is the same code |
| AvlNode.AdjustAvl | tree/avl_tree/avl_tree.go:118-139 | with AVL children whose heights differ by at most 2, adjust gives an AVL tree whose height is the taller child's height or one more; with heights differing by at most 1 it only recomputes the height |
| AvlNode.AdjustLeftHeavy | tree/avl_tree/avl_tree.go:123-128 | a left-heavy node is rebalanced by a single or a double rotation |
| AvlNode.LeftLeftRotation | tree/avl_tree/avl_tree.go:127 | a single right rotation rebalances a node whose left child leans left or is even |
| AvlNode.LeftRightRotation | tree/avl_tree/avl_tree.go:124-127 | the double rotation rebalances a node whose left child leans right, and the result is as tall as the left child |
| AvlNode.AdjustRightHeavy | tree/avl_tree/avl_tree.go:130-135 | a right-heavy node is rebalanced by a single or a double rotation |
| AvlNode.RightRightRotation | tree/avl_tree/avl_tree.go:134 | a single left rotation rebalances a node whose right child leans right or is even |
| AvlNode.RightLeftRotation | tree/avl_tree/avl_tree.go:131-134 | the double rotation rebalances a node whose right child leans left, and the result is as tall as the right child |
| AvlNode.AdjustAvlTree | tree/avl_tree/avl_tree.go:137-138 | adjust leaves an AVL tree with correct heights unchanged |
| AvlNode.CachedHeight | tree/avl_tree/avl_tree.go:99-104 | when cached heights are correct, getHeight is the real height |
| AvlNode.Insert | tree/avl_tree/avl_tree.go:189-202 | the result is a node whose key set is old ∪ {k}; order is kept; tree/avl_tree.go:157-170 is the same code |
| AvlNode.InsertAvl | tree/avl_tree/avl_tree.go:189-202 | insert into an AVL tree gives an AVL tree, as tall as before or one taller |
| AvlNode.InsertExisting | tree/avl_tree/avl_tree.go:198-199 | inserting a key already present returns the tree unchanged |
| AvlNode.LoneRootInsert | tree/avl_tree/avl_tree.go:42 | a lone root of cached height 0 (as Add creates it) still becomes an AVL tree of height 2 when a second key is inserted |
| AvlNode.Find | tree/avl_tree/avl_tree.go:278-290 | a node found carries the key looked for |
| AvlNode.FindFinds | tree/avl_tree/avl_tree.go:278-290 | in a search tree, find succeeds exactly for stored keys |
| AvlNode.FindMin | tree/avl_tree/avl_tree.go:204-212 | nil exactly for an empty tree; otherwise a stored key |
| AvlNode.FindMinIsLeast | tree/avl_tree/avl_tree.go:204-212 | in a search tree, findMin's key is at most every key |
| AvlNode.FindMax | tree/avl_tree/avl_tree.go:214-222 | nil exactly for an empty tree; otherwise a stored key |
| AvlNode.FindMaxIsGreatest | tree/avl_tree/avl_tree.go:214-222 | in a search tree, findMax's key is at least every key |
| AvlNode.Remove | tree/avl_tree/avl_tree.go:224-250 | no key is added; in a search tree the key set becomes old − {k} and order is kept |
| AvlNode.RemoveLeft | tree/avl_tree/avl_tree.go:231-232 | removing from the left subtree removes k from the whole tree |
| AvlNode.RemoveRight | tree/avl_tree/avl_tree.go:233-234 | removing from the right subtree removes k from the whole tree |
| AvlNode.RemovePredecessor | tree/avl_tree/avl_tree.go:242-246 | taking the left subtree's maximum out of it and moving that key into the node removes exactly the node's key and keeps order |
| AvlNode.RemoveAvl | tree/avl_tree/avl_tree.go:224-250 | remove from an AVL tree gives an AVL tree, as tall as before or one lower |
| AvlNode.Traverse | tree/avl_tree/avl_tree.go:269-276 | the keys handed to the callback are the in-order sequence; tree/avl_tree.go:189-196 is the same code |
| AvlNode.InOrderAscending | tree/avl_tree/avl_tree.go:259-267 | in a search tree, the in-order sequence is strictly ascending and holds exactly the stored keys |
| AvlNode.InOrderCount | tree/avl_tree/avl_tree.go:259-267 | in a search tree, the in-order sequence has one entry per stored key |
| AvlSet.InsertNew | tree/avl_tree/avl_tree.go:46-51 | inserting a key that is not yet a member into the non-empty tree of a valid set, even a lone first root of height 0, gives an AVL search tree with correct heights and exactly one key more |
| AvlSet.AvlTree.constructor | tree/avl_tree/avl_tree.go:19-25 | New gives a valid empty set of size 0 |
| AvlSet.AvlTree.Init | tree/avl_tree/avl_tree.go:27-31 | the set becomes empty with size 0 |
| AvlSet.AvlTree.Size | tree/avl_tree/avl_tree.go:33-35 | the number of keys in the set |
| AvlSet.AvlTree.Add | tree/avl_tree/avl_tree.go:37-54 | returns true exactly when k was absent; the set becomes old ∪ {k}; the size grows by one exactly when true; a false leaves the tree unchanged |
| AvlSet.AvlTree.Remove | tree/avl_tree/avl_tree.go:56-65 | returns true exactly when k was present; the set becomes old − {k}; the size drops by one exactly when true; a false leaves the tree unchanged |
| AvlSet.AvlTree.Min | tree/avl_tree/avl_tree.go:67-72 | None exactly for the empty set; otherwise a member at most every member |
| AvlSet.AvlTree.Max | tree/avl_tree/avl_tree.go:74-79 | None exactly for the empty set; otherwise a member at least every member |
| AvlSet.AvlTree.Contains | tree/avl_tree/avl_tree.go:81-88 | true exactly for members |
| AvlSet.AvlTree.Apply | tree/avl_tree/avl_tree.go:252-257 | the keys handed to the callback are the in-order sequence |
| AvlSet.AvlTree.ToSlice | tree/avl_tree/avl_tree.go:259-267 | the members, strictly ascending, one per counted key |
| InsertOnlyAvl.Tree.constructor | tree/avl_tree.go:22-28 | New gives a valid empty tree of size 0 |
| InsertOnlyAvl.Tree.Init | tree/avl_tree.go:30-34 | the root becomes nil and the size 0 |
| InsertOnlyAvl.Tree.Size | tree/avl_tree.go:36-38 | the stored size |
| InsertOnlyAvl.Tree.Add | tree/avl_tree.go:40-55 | as written: the key set becomes old ∪ {k} and the size grows by one on every call; an empty tree gets a root of height 1; a repeated key leaves the nodes unchanged |
| InsertOnlyAvl.Tree.AddCounted | tree/avl_tree.go:40-55 | corrected: the key set becomes old ∪ {k}, the size grows only for a new key, so a size that counted the keys still does |
| InsertOnlyAvl.Tree.Apply | tree/avl_tree.go:172-177 | the keys handed to the callback are the in-order sequence |
| InsertOnlyAvl.Tree.ToSlice | tree/avl_tree.go:180-187 | the stored keys, strictly ascending, each once |
| InsertOnlyAvl.SizeAfterRepeatedAdd | tree/avl_tree.go:40-55 | Add(1) twice: Size reports 2 while ToSlice lists one key |
| InsertOnlyAvl.SizeAfterRepeatedAddCounted | tree/avl_tree_test.go:156-175 | the same calls on AddCounted: Size and ToSlice agree at 1, as the test expects |
| ListOrder.Without | list/list.go:255-269 | removal never lengthens the sequence |
| ListOrder.WithoutExcludes | list/list.go:255-269 | after removal the element is no longer in the sequence |
| ListOrder.WithoutAbsent | list/list.go:257-259 | removing an absent element changes nothing |
| ListOrder.WithoutAt | list/list.go:260-261 | in a sequence without repeats, removing the element at i is cutting position i |
| ListOrder.WithoutCount | list/list.go:255-269 | removal takes exactly one occurrence out of the multiset |
| ListOrder.InsertSplices | list/list.go:89-120 | inserting after or before the element at i puts the new element at position i + 1 or i |
| ListOrder.RemoveUndoesPush | list/list.go:176-228 | removing an element just pushed at the back or front restores the sequence |
| ListOrder.RemoveUndoesInsert | list/list.go:89-120 | removing an element just inserted after or before a mark restores the sequence |
| ListOrder.SpliceRemoved | list/list.go:89-120 | removing an element spliced in anywhere restores the sequence |
| ListOrder.MovesKeepOrder | list/list.go:126-174 | every move leaves the other elements in their old relative order |
| ListOrder.MovesPermute | list/list.go:126-174 | every move of a member is a permutation of the elements |
| ListOrder.MovesPlace | list/list.go:126-148 | after MoveAfter the element sits directly after mark; after MoveBefore directly before |
| ListOrder.FrontStays | list/list.go:165-167 | moving the front element to the front changes nothing |
| ListOrder.BackStays | list/list.go:152-154 | moving the back element to the back changes nothing |
| ListOrder.FrontSplices | list/list.go:168-173 | moving to the front is cutting the element out and putting it at position 0 |
| ListOrder.BackSplices | list/list.go:155-160 | moving to the back is cutting the element out and putting it at the end |
| ListOrder.MarkSplices | list/list.go:130-147 | moving after or before mark is cutting the element out and putting it next to mark's new position |
| ListOrder.DistinctCut | list/list.go:130-131 | cutting an element out of a sequence without repeats leaves one without repeats that excludes it |
| ListOrder.DistinctPut | list/list.go:132-135 | splicing a new element into a sequence without repeats keeps it without repeats |
| ListOrder.CutCount | list/list.go:130-131 | cutting position i takes exactly that element out of the multiset |
| ListOrder.SpliceCount | list/list.go:132-135 | splicing adds exactly that element to the multiset |
| LinkedList.Neighbours | list/list.go:3-10 | in a valid ring, each element's prev and next are its neighbours in the sequence, with the sentinel at both ends |
| LinkedList.Link | list/list.go:99-100 | a detached element whose prev and next name two adjacent nodes is linked in between them |
| LinkedList.Unlink | list/list.go:130-131 | rewiring an element's neighbours to each other takes it out of the ring |
| LinkedList.Place | list/list.go:132-135 | setting an element's links and then its neighbours' puts it back into the ring at position j |
| LinkedList.Excise | list/list.go:260-264 | unlinking an element and clearing its links and tag takes it out of the ring |
| LinkedList.AppendCopy | list/list.go:200-207 | a new element holding v hangs after the tail, which becomes that element |
| LinkedList.CopyAfter | list/list.go:199-210 | one loop step of PushBackList: a copy of the current element is appended, the links of the list being copied that the walk still reads are left intact, and unless the element is stop the next element of that list (or nil past its back) is returned |
| LinkedList.AppendCopies | list/list.go:195-211 | the loop of PushBackList as written appends a fresh copy of each element of the list being copied, in order; it copies all of them when stop (the old tail) is not among them, and all but the last when stop is their last, as when a list is copied onto itself |
| LinkedList.AppendAllCopies | list/list.go:195-211 | the loop of PushBackList ended only by the break after stop or by the end of the list being copied: a fresh copy of every element, in order, including the self case |
| LinkedList.PrependCopy | list/list.go:239-246 | a new element holding v hangs before the head, which becomes that element |
| LinkedList.CopyBefore | list/list.go:238-249 | one loop step of PushFrontList: a copy of the current element is prepended, the links of the list being copied that the walk still reads are left intact, and unless the element is stop the previous element of that list (or nil before its front) is returned |
| LinkedList.PrependCopies | list/list.go:235-250 | the loop of PushFrontList prepends a fresh copy of every element of the list being copied, in order; for a list copied onto itself the walk ends at the break after the old front (stop) is copied |
| LinkedList.Element.constructor | list/list.go:93-98 | an element literal holding the given links, tag and value |
| LinkedList.Element.Sentinel | list/list.go:76-79 | the sentinel of an initialised list links to itself and carries no tag |
| LinkedList.Element.Detach | list/list.go:262-264 | the element is left with no links and no tag |
| LinkedList.Element.Next | list/list.go:12-17 | the following element of its list, nil past the back (the untagged sentinel) and for a detached element |
| LinkedList.Element.Prev | list/list.go:19-24 | the preceding element of its list, nil before the front (the untagged sentinel) and for a detached element |
| LinkedList.List.constructor | list/list.go:36-40 | New gives a valid empty list with a new sentinel |
| LinkedList.List.Init | list/list.go:76-81 | the list becomes empty and is returned; its former elements keep their tag, so they no longer satisfy Tagged |
| LinkedList.List.Len | list/list.go:122-124 | the number of elements |
| LinkedList.List.Front | list/list.go:68-74 | the first element, nil on an empty list |
| LinkedList.List.Back | list/list.go:60-66 | the last element, nil on an empty list |
| LinkedList.List.Insert | list/list.go:93-101 | a new element holding v goes in at position j and is counted |
| LinkedList.List.PushBack | list/list.go:176-188 | a new element holding v becomes the last element; the others are unchanged |
| LinkedList.List.PushFront | list/list.go:216-228 | a new element holding v becomes the first element; the others are unchanged |
| LinkedList.List.InsertAfter | list/list.go:89-103 | for a mark of this list, a new element holding v goes in right after mark; otherwise nil and no change |
| LinkedList.List.InsertAfterAt | list/list.go:93-102 | a new element holding v goes in right after the mark at position i |
| LinkedList.List.InsertBefore | list/list.go:105-120 | for a mark of this list, a new element holding v goes in right before mark; otherwise nil and no change |
| LinkedList.List.InsertBeforeAt | list/list.go:109-119 | a new element holding v goes in right before the mark at position i |
| LinkedList.List.Cut | list/list.go:260-267 | the element at position i is taken out, detached and uncounted |
| LinkedList.List.SpliceToFront | list/list.go:168-173 | the element at position i > 0 is cut out and put at the front |
| LinkedList.List.SpliceToBack | list/list.go:155-160 | the element at position i before the back is cut out and put at the back |
| LinkedList.List.SpliceAfter | list/list.go:130-135 | the element is cut out and put back right after mark |
| LinkedList.List.SpliceBefore | list/list.go:142-147 | the element is cut out and put back right before mark |
| LinkedList.List.MoveAfterAt | list/list.go:130-135 | the element order becomes MovedAfter of the old order |
| LinkedList.List.MoveBeforeAt | list/list.go:142-147 | the element order becomes MovedBefore of the old order |
| LinkedList.List.PushBackList | list/list.go:190-214 | the length grows by the other list's length and the old elements stay in front, followed by fresh copies; for another list (or an empty one) the copies hold all its values in order and the list is valid; for a non-empty list copied onto itself they hold all its values but the last, so the length is one more than the number of elements |
| LinkedList.List.AppendAndClose | list/list.go:195-213 | the loop and end of PushBackList: the old elements are followed by copies of the other list's values up to stop or its end, and the length grows by the other list's length |
| LinkedList.List.PushBackListCorrected | list/list.go:190-214 | with the loop ended by the break after stop: the old elements stay in front, followed by fresh copies of all the other list's values in order, the list is valid, including a list copied onto itself |
| LinkedList.List.AppendAllAndClose | list/list.go:195-213 | the loop of PushBackListCorrected and the end: the list is valid, with the old elements followed by copies of all the other list's values |
| LinkedList.List.StopOutsideForth | list/list.go:195-199 | the old tail, where the loop stops, is at most the last element of the list being copied, and is that element exactly when the list is copied onto itself; that list's next chain is intact |
| LinkedList.List.CloseBack | list/list.go:212-213 | the sentinel's prev is set to the last copy and the length grows by the other list's length; the list is valid when that equals the number of copies |
| LinkedList.List.PushFrontList | list/list.go:230-253 | fresh copies of the other list's values, in order, come before the old elements, the length grows by the other list's length and the list is valid, including a list copied onto itself |
| LinkedList.List.PrependAndClose | list/list.go:235-252 | the loop and end of PushFrontList: the list is valid, with copies of all the other list's values before the old elements |
| LinkedList.List.StopOutsideBack | list/list.go:235-238 | the old head, where the loop breaks, is at most the first element of the list being copied, and is that element exactly when the list is copied onto itself; that list's prev chain is intact |
| LinkedList.SelfPushBackList | list/list.go:190-214 | PushBackList of [1, 2] onto itself links 1, 2, 1 while the length says 4 |
| LinkedList.SelfPushBackListCorrected | list/list.go:190-214 | the same calls on PushBackListCorrected give the valid list 1, 2, 1, 2 of length 4 |
| LinkedList.List.CloseFront | list/list.go:251-252 | the sentinel's next is set to the first copy and the length is increased, making the list valid again |
| LinkedList.List.Remove | list/list.go:255-269 | for a member: it is removed from the order, detached and untagged, and its value returned; otherwise None and no change |
| LinkedList.List.MoveToFront | list/list.go:163-174 | a member becomes first with the others in order; no change for a foreign element |
| LinkedList.List.MoveToBack | list/list.go:150-161 | a member becomes last with the others in order; no change for a foreign element |
| LinkedList.List.MoveAfter | list/list.go:126-136 | for two distinct members, e moves to right after mark; otherwise no change |
| LinkedList.List.MoveBefore | list/list.go:138-148 | for two distinct members, e moves to right before mark; otherwise no change |
| Lru.Element.constructor | lru/lru.go:46 | a list element holding the given entry |
| Lru.KeysMove | lru/lru.go:34 | moving an element to the front moves its key to the front of the key order |
| Lru.MoveToFrontKeeps | lru/lru.go:34 | moving an element to the front keeps the elements, without repeats, and puts it first |
| Lru.LruCache.KeysDistinct | lru/lru.go:5-9 | when map and list agree, no key is listed twice and the map's keys are exactly the listed keys |
| Lru.LruCache.constructor | lru/lru.go:16-22 | New gives an empty cache with the given capacity |
| Lru.LruCache.Clear | lru/lru.go:24-26 | the cache becomes empty and keeps its capacity |
| Lru.LruCache.MoveToFront | lru/lru.go:34 | the element goes to the front of the list; map and contents are unchanged |
| Lru.LruCache.Get | lru/lru.go:28-38 | a hit exactly for a cached key: its value is returned and it becomes most recent; a miss returns None and changes nothing |
| Lru.LruCache.Overwrite | lru/lru.go:43 | the element's entry is replaced, so the key maps to the new value and the order is unchanged |
| Lru.LruCache.PushFront | lru/lru.go:46-47 | a new element for a new key goes to the front and is recorded in the map |
| Lru.LruCache.EvictBack | lru/lru.go:49-51 | the back element leaves the list and its key leaves the map |
| Lru.LruCache.Put | lru/lru.go:40-54 | an existing key gets the new value and becomes most recent; a new key goes in front; when that takes the cache over capacity the least recently used key is evicted; map and list always agree and the count never exceeds the capacity |
| Lru.PutStep | lru/lru_test.go:8-24 | one more Put of the next key into a cache holding a countdown of keys leaves the next countdown |
| Lru.PutNext | lru/lru_test.go:10-12 | the i-th Put of the test loop takes the cache from the countdown to i − 1 to the countdown to i |
| Lru.PutOneTo | lru/lru_test.go:10-12 | putting 1..n into a cache of capacity cap leaves the newest min(n, cap) keys, newest first, each mapped to itself |
| Lru.PutTenIntoFive | lru/lru_test.go:8-24 | putting 1..10 into a capacity-5 cache leaves 10, 9, 8, 7, 6 from front to back |
| Lru.GetMovesToFront | lru/lru_test.go:26-41 | after putting 1..10, Get(3) and then Get(8) hit with their values, and the order starts 8, 3 |

## Left out

- Nil list arguments. `mark`, `e` and `other` have the non-null types `Element<V>` and `List<V>`. Go dereferences them and panics on nil (list/list.go:90, 106, 127, 139, 152, 165, 192, 232, 257), so that panic is not modelled.
- Nil keys. Keys are `int`, so the red-black map's `Put(nil, v)` cannot be expressed. The code stores a nil key where rb_tree_test.go:33-34 expects a no-op.
- Go's `Key.CompareTo` and `interface{}` values. Keys are `int` with the ordinary order, and values are a type parameter. A comparator that is not a total order is not modelled.
- Integer width. Sizes, heights, lengths and keys are unbounded integers. Go's `int` would overflow only beyond any size a real program reaches.
- The second `rotateLeft` of `balance` (tree/rb_tree/rb_tree.go:206-207). `RbNode.Balance` leaves it out because its condition can never hold after the first rotation. `RbNode.BalanceSecondRotationIsDead` proves this.
- In-place node mutation in the trees. Trees are values, so aliasing between nodes is not modelled. The Go code never shares a node between two parents.
- The unused `parent` field of tree/avl_tree.go:4.
- The AVL set's first root, which `Add` creates with cached height 0 (tree/avl_tree/avl_tree.go:42). This is kept as written. `AvlSet.AvlTree.Valid` therefore allows this one stale height on a lone root.
- Callbacks. `apply`, `Apply` and `traverse` call a function per key. The model returns the sequence of keys the callback would receive.
- `checkAndInit` (list/list.go:83-87). Every list is built by `New` and is always initialised, so the lazy initialisation of a zero-value list is not modelled.
- LinkedList.List.PushBackList: for another list, it states only that other is outside what it may change. It does not restate that other stays valid.
- LinkedList.List.PushFrontList: for another list, it states only that other is outside what it may change. It does not restate that other stays valid.
- Stale elements. Every list operation taking an element requires `Tagged(e)`: an element tagged with this list is one of its elements. Insertions, moves and `Remove` keep this. `Init` (list/list.go:76-81) does not: it empties the ring but leaves every former element tagged with the list and holding its old links, and `List.Init` states this. Go's `Remove`, `Move*`, `InsertAfter`, `InsertBefore`, `Next` and `Prev` accept such an element and rewire through its stale links; for example `[a]`, `Init`, `Remove(a)` leaves the length at -1. Operations on elements handed out before `Init` are not modelled, nor is an element forged with a false tag.
- The redundant second tag write in `InsertBefore` (list/list.go:117). It writes the value the literal already set.
- `Element.Value` is a `const`. list.go writes it only in element literals.
- The garbage-collection remark at list/list.go:266.
- Go's `container/list` and built-in map in the LRU cache. This library code is not part of this model. The list is a sequence of element objects, the map is a Dafny map, and `Len`, `Back` and `Remove` are read off the sequence.
- `Lru.LruCache.Put`: `int(c.cap)` converts a `uint`. The capacity is a `nat`, so a capacity beyond the `int` range is not modelled.
- I/O, concurrency, persistence and test scaffolding: none of the core code involves them.

## Findings

| source | as written | input that shows it | evidently intended | confidence | as-written member | corrected member |
|---|---|---|---|---|---|---|
| tree/avl_tree.go:40-55 | `Add` on a non-empty tree does `size++` even when `insert` returned the node unchanged for an existing key | `Add(1)` twice: `Size()` is 2 while `ToSlice()` lists one key; the test tree/avl_tree_test.go:156-175 expects 5 after ten Adds of five keys, but that file cannot compile against tree/avl_tree.go (it declares `var tree AvlTree` and calls `Remove`, `Min` and `Contains`, lines 42-91, which package `tree` does not define), so that expectation was never checked | count only new keys, as the AVL set does | not executed | InsertOnlyAvl.SizeAfterRepeatedAdd | InsertOnlyAvl.SizeAfterRepeatedAddCounted |
| list/list.go:199 | the loop condition `e != stop` ends the walk before stop, the old tail, is copied, while `len += other.len` (line 213) counts it; the `break` on `e == stop` (lines 208-210) can never run | `PushBackList(l)` on its own list `l = [1, 2]`: the ring holds 1, 2, 1 while `Len()` is 4 | the loop condition `e != nil` alone, so that the `break` ends the walk after stop is copied, as `PushFrontList` does (lines 238-250): `[1, 2]` becomes `[1, 2, 1, 2]` | not executed | LinkedList.SelfPushBackList | LinkedList.List.PushBackListCorrected |
