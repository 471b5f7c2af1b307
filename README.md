# sjtu::map as a red-black tree over an arena

This project models `sjtu::map<Key, T, Compare>` in `src/map.hpp` and proves facts about it. That map is an ordered associative container backed by a red-black tree with one BLACK sentinel node, `nil`. The sentinel stands for every empty subtree, is the parent of the root, and is the node that `end()` points at.

How the model represents the code:

- **Nodes.** Each heap `Node` is a record `NodeRec(key, val, left, right, parent, color)` in the sequence `nodes`, a field of the class `SjtuMap.RBMap`. A pointer is an index into `nodes`, and record 0 is the sentinel. `new Node` appends a record.
- **The tree.** Beside the arena, a ghost field `tree` holds the functional red-black tree (`RedBlack.Tree`) that the arena encodes. `Arena.Linked` and `Arena.Shaped` tie the two together. A zipper, `Path` (a focused subtree plus the frames back to the root), names the node a loop is standing on.
- **The invariant.** `RBMap.Valid` states four things:
  - the arena encodes `tree`, with every child's `parent` link pointing back;
  - `tree` has equal black heights and no red node with a red child;
  - its in-order sequence of `(id, key, value)` entries is strictly increasing in key;
  - `map_size` is the length of that sequence.
- **What each operation is proved against.** The map's contents are `MapOf` of the in-order sequence. Each operation is proved against this sequence and that `map`.
  - The rebalancing loops `insertFixup` and `eraseFixup` are `while` loops over the arena. Each loop case is a lemma of module `Balance` on the functional tree.
  - `Balance.InsertInv` and `Balance.EraseInv` are the loop invariants: the red-black property with the one local defect each loop repairs.
- **Keys, values and errors.**
  - Keys are `int`, and `Compare` is `<`.
  - The sentinel's value `T()` is the constant `dflt` of each map. `operator[]` inserts a default-initialised `T`, which the model takes to be `dflt` as well (see Left out).
  - The two exceptions, `invalid_iterator` and `index_out_of_bound`, are the error values of a `Result` or of an `Option<MapError>`.
- **Iterators.** An iterator is the value `Iterator(node, owner)`. `++` and `--` are methods that return the moved iterator and the error, if any.

Module layout:

- `rbtree.dfy` (`RedBlack`): trees, zippers, in-order sequences, `MapOf`, ranks and renumbering.
- `balance.dfy` (`Balance`): the red-black invariants and the cases of both fix-up loops.
- `arena.dfy` (`Arena`): records, links, and how rotations, `transplant` and splicing rewrite them.
- `map.dfy` (`SjtuMap`): the container.
- `iterator.dfy` (`MapIterator`): `iterator`.
- `copy.dfy` (`MapCopy`): the recursion of `copyHelper` as written, explained under Findings.

## Model

| member | source | states |
|---|---|---|
| SjtuMap.RBMap.constructor | src/map.hpp:423-428 | a new map is valid and empty, and its `T()` is the given default value |
| SjtuMap.RBMap.LeftRotate | src/map.hpp:48-58 | when x has a right child y, the arena afterwards encodes the tree with y in x's place and x as y's left child. Only the records of x, y, y's old left child and x's parent change; the sentinel is untouched |
| SjtuMap.RBMap.RightRotate | src/map.hpp:60-70 | the mirror image of the left rotation, with the same frame |
| RedBlack.RotateLeftInorder | src/map.hpp:48-58 | a left rotation keeps the in-order sequence of the subtree |
| RedBlack.RotateRightInorder | src/map.hpp:60-70 | a right rotation keeps the in-order sequence of the subtree |
| SjtuMap.RBMap.Transplant | src/map.hpp:111-116 | v takes u's place in u's parent (or becomes the root), and v's parent link, the sentinel's included, becomes u's parent; every link stays inside the arena |
| SjtuMap.RBMap.InsertFixup | src/map.hpp:72-109 | from a red node that may have a red parent, the loop ends in a tree with both red-black properties. The in-order sequence is the same and no record is added |
| SjtuMap.RBMap.InsertFixupLeft | src/map.hpp:74-89 | one pass of the loop when the parent is a left child. The invariant holds again, one or two levels higher, and the in-order sequence is unchanged |
| SjtuMap.RBMap.InsertFixupRight | src/map.hpp:90-105 | the mirror pass, when the parent is a right child |
| SjtuMap.RBMap.InsertOuter | src/map.hpp:86-88 | the recolouring and grandparent rotation of the outer case keep the loop invariant and the order |
| Balance.InsertStart | src/map.hpp:568-575 | hanging a new red node in place of a sentinel of a red-black tree establishes the loop invariant |
| Balance.InsertRecolor | src/map.hpp:76-80 | red uncle: recolouring parent, uncle and grandparent moves the only red-red edge two levels up, keeping heights and order |
| Balance.InsertInnerLeft | src/map.hpp:82-85 | inner grandchild, parent a left child: rotating the parent left yields the outer case, with the invariant and order kept |
| Balance.InsertInnerRight | src/map.hpp:98-101 | mirror of the inner case |
| Balance.InsertOuterLeft | src/map.hpp:86-88 | outer case: parent black, grandparent red, grandparent rotated right; the red-red edge is gone and the heights are kept |
| Balance.InsertOuterRight | src/map.hpp:102-104 | mirror of the outer case |
| Balance.InsertDone | src/map.hpp:108 | once the parent is black (or the focus is the root), painting the root black leaves a red-black tree with the same sequence |
| SjtuMap.RBMap.Minimum | src/map.hpp:118-121 | the result is the node holding the least element of the subtree |
| SjtuMap.RBMap.EraseFixup | src/map.hpp:123-176 | from a focus x carrying an extra black, possibly the sentinel, the loop ends in a red-black tree. The in-order sequence is the same; termination is by a measure that always decreases |
| SjtuMap.RBMap.EraseFixupStep | src/map.hpp:125-173 | one pass of the loop on either side keeps the invariant and the sequence, and lowers \|path\| + black(focus) |
| SjtuMap.RBMap.EraseRedSibling | src/map.hpp:127-132 | case 1: the new sibling of x is black, x has a red parent one level deeper, and the invariant and the sequence hold |
| SjtuMap.RBMap.EraseBlackSibling | src/map.hpp:133-147 | cases 2 to 4: either the extra black moves to the parent, or it is absorbed and the focus becomes the root |
| SjtuMap.RBMap.EraseRotateLeft | src/map.hpp:136-147 | cases 3 and 4 for a left child: the whole tree becomes a red-black tree rooted at x, with the same sequence |
| SjtuMap.RBMap.EraseFarLeft | src/map.hpp:143-147 | case 4 for a left child: w takes the parent's colour, parent and far nephew turn black, rotation; the tree is red-black |
| SjtuMap.RBMap.EraseRotateRight | src/map.hpp:160-171 | mirror of cases 3 and 4 |
| SjtuMap.RBMap.EraseFarRight | src/map.hpp:167-171 | mirror of case 4 |
| Balance.EraseRedSiblingLeft | src/map.hpp:127-132 | red sibling of a left child: recolour and rotate left; the invariant holds one level deeper under a red parent, with a black sibling |
| Balance.EraseRedSiblingRight | src/map.hpp:151-156 | mirror of case 1 |
| Balance.EraseRecolor | src/map.hpp:133-135 | black sibling with black children: painting it red moves the extra black to the parent |
| Balance.EraseNearRedLeft | src/map.hpp:137-142 | case 3: nephew swap and rotation make the sibling black with a red far child, keeping the invariant and order |
| Balance.EraseNearRedRight | src/map.hpp:161-166 | mirror of case 3 |
| Balance.EraseFarRedLeft | src/map.hpp:143-147 | case 4 makes the whole tree balanced with no red-red edge and a black root |
| Balance.EraseFarRedRight | src/map.hpp:167-171 | mirror of case 4 |
| Balance.EraseDone | src/map.hpp:175 | a red focus or the root, painted black, leaves a red-black tree with the same sequence |
| Balance.EraseSibling | src/map.hpp:126 | the sibling of an extra-black focus is never the sentinel |
| SjtuMap.RBMap.FindHelper | src/map.hpp:193-201 | the result is the sentinel exactly when the key is absent; otherwise it is the node holding the key and its mapped value |
| RedBlack.SearchHit | src/map.hpp:198 | a node met during the search is the element with that key, at the position the path to it predicts |
| RedBlack.SearchMiss | src/map.hpp:195-200 | a search that reaches a sentinel proves the key absent and gives its rank |
| SjtuMap.RBMap.At | src/map.hpp:467-471 | the mapped value of a present key, index_out_of_bound for an absent one |
| SjtuMap.RBMap.Index | src/map.hpp:485-493 | a present key gives its value and changes nothing. An absent key is inserted with `dflt`, which is returned; the map gains exactly that pair and size grows by one |
| SjtuMap.RBMap.Count | src/map.hpp:628-630 | 1 when the key is present, 0 otherwise |
| SjtuMap.RBMap.Find | src/map.hpp:638-641 | an iterator of this map on the node holding the key, or end() when the key is absent |
| SjtuMap.RBMap.Begin | src/map.hpp:505-508 | end() for an empty map, otherwise the node holding the least element |
| SjtuMap.RBMap.End | src/map.hpp:519-521 | the sentinel, which holds no element |
| SjtuMap.RBMap.Size | src/map.hpp:538-540 | the number of elements, equal to the number of keys in the map's contents |
| SjtuMap.RBMap.Empty | src/map.hpp:531-533 | true exactly when the contents are empty |
| SjtuMap.RBMap.Clear | src/map.hpp:545-549 | the map is valid and empty afterwards |
| SjtuMap.RBMap.Insert | src/map.hpp:557-578 | inserted exactly when the key was absent. If inserted: the new node holds the pair, sits at the key's rank, the contents gain exactly that pair, and size grows by one. If the key was present: the iterator is on the node holding the key and the map is unchanged. Valid is kept either way |
| SjtuMap.RBMap.InsertSearch | src/map.hpp:558-566 | the descent stops at the node holding the key, or at the sentinel where the key belongs, with y the last node visited |
| SjtuMap.RBMap.Attach | src/map.hpp:568-573 | the new red node with sentinel children is hung where the search ended: as the root, or on the side of y that the key order picks |
| RedBlack.InsertAt | src/map.hpp:568-573 | hanging the new node there puts its element exactly at the key's rank, keeps the sequence sorted, and the key was absent |
| RedBlack.MapOfInsert | src/map.hpp:557-578 | one more entry in a sorted sequence adds exactly its key and value to the contents |
| SjtuMap.RBMap.Erase | src/map.hpp:585-619 | an iterator of another map, or end(), gives invalid_iterator and changes nothing. Otherwise the element at the iterator leaves the sequence, the others keep their order, the contents lose exactly its key, size drops by one, and Valid is kept |
| SjtuMap.RBMap.EraseNode | src/map.hpp:588-618 | erasing a node of the tree removes exactly its element and keeps Valid |
| SjtuMap.RBMap.Unhook | src/map.hpp:588-616 | unlinking z and running the fix-up when the colour removed was black leaves a red-black tree of the remaining elements in order |
| SjtuMap.RBMap.Unlink | src/map.hpp:588-614 | the three unlinking cases leave the tree without z. The fix-up invariant holds when the moved colour was black; the tree is already red-black when it was red |
| SjtuMap.RBMap.SpliceOut | src/map.hpp:593-598 | transplant of z's only child (possibly the sentinel) into z's place; the child's parent link is z's parent |
| SjtuMap.RBMap.UnlinkSuccessor | src/map.hpp:599-614 | for two children, the successor y takes z's place, left child and colour; y's old right subtree takes y's old place, with its parent link set |
| SjtuMap.RBMap.ReattachRight | src/map.hpp:603-604 | when y is z's right child, x (possibly the sentinel) gets y as its parent |
| SjtuMap.RBMap.SpliceOutSuccessor | src/map.hpp:606 | transplant of y's right subtree into y's place deeper in z's right subtree |
| SjtuMap.RBMap.ReattachDeep | src/map.hpp:606-608 | y's old position is spliced out and z's right subtree is hung below y |
| SjtuMap.RBMap.TakePlace | src/map.hpp:610-613 | y in z's place, with z's left child and colour, gives the spliced tree |
| SjtuMap.RBMap.ReplaceBy | src/map.hpp:610-613 | the same step over arbitrary records: the arena encodes the tree with y in z's place |
| Balance.SpliceSuccessor | src/map.hpp:599-616 | splicing the successor out leaves the fix-up invariant at its old right subtree when the successor was black, and a red-black tree when it was red |
| Balance.SpliceInorder | src/map.hpp:599-613 | the spliced tree's sequence is the old one without z's element |
| RedBlack.MapOfRemove | src/map.hpp:585-619 | deleting an entry from a sorted sequence removes exactly its key from the contents |
| SjtuMap.RBMap.CopyHelper | src/map.hpp:185-191 | the copy of a subtree (corrected to stop at the source's sentinel, see Findings) is appended to the arena, parent before children, keeping the old records. It is the same tree renumbered from the old arena size, linked below parent |
| SjtuMap.RBMap.Copy | src/map.hpp:430-435 | the copy is valid and its tree is the other map's tree, same shape, colours, keys and values, with the nodes renumbered into its own fresh arena; hence the same elements in the same order, the same contents and size |
| SjtuMap.RBMap.Assign | src/map.hpp:440-451 | self-assignment changes nothing; otherwise the map's tree becomes the other map's tree renumbered into a fresh arena, so it is valid with the other map's elements, contents and size |
| RedBlack.RenumberElements | src/map.hpp:185-191 | renumbering the node ids keeps every key and value at its position |
| RedBlack.SameMapOf | src/map.hpp:430-451 | sequences with the same key/value pairs have the same contents |
| Balance.RenumberRB | src/map.hpp:185-191 | renumbering keeps colours and black heights, so the copy is red-black exactly when the original is |
| MapIterator.Next | src/map.hpp:234-247 | ++ on end() is invalid_iterator; otherwise the iterator moves to the node of the next element in key order, or to end() after the last |
| MapIterator.ClimbRight | src/map.hpp:239-244 | climbing from a node with no right child ends at the next element's node, or at the sentinel after the last element |
| MapIterator.Prev | src/map.hpp:261-282 | -- on end() gives the last element, or invalid_iterator for an empty map. On an element it gives the previous element; from the first element it moves to end() and reports invalid_iterator |
| MapIterator.Predecessor | src/map.hpp:268-279 | the node of the previous element, the sentinel for the first element |
| MapIterator.ClimbLeft | src/map.hpp:272-277 | climbing from a node with no left child ends at the previous element's node, or at the sentinel before the first element |
| MapIterator.Rightmost | src/map.hpp:265-270 | the descent along right links ends at the node holding the subtree's last element |
| MapIterator.Deref | src/map.hpp:287-290 | invalid_iterator on end(); otherwise the pair stored at the iterator's node, which is in the map's contents |
| MapIterator.Equal | src/map.hpp:292-294 | true exactly for the same node of the same container |
| MapIterator.NotEqual | src/map.hpp:303-305 | the negation of Equal |
| MapIterator.StepInverse | src/map.hpp:234-282 | -- undoes ++ and ++ undoes --. The last element is the step back from end(), and the step forward from it reaches end() |
| MapCopy.CopyNeverStops | src/map.hpp:185-191 | copyHelper as written, run on the other map's arena, returns within no finite depth |
| MapCopy.EmptyCopyNeverStops | src/map.hpp:430-435 | even copying an empty map never returns |
| MapCopy.CopyStopsAtOwnSentinel | src/map.hpp:185-191 | with the test against the source's sentinel, the recursion returns the whole tree once it may nest deeper than the tree |

## Left out

- Memory. `delete`, the destructor, `clearHelper`'s frees, and the sentinel freed by `operator=` are not modelled. Records of erased or cleared nodes stay in the arena, unreachable.
- `Compare` is fixed to `<` on `int`: `Key`, and the `const Key` of `value_type`, are both `int`.
- `map_size` is a `size_t`, modelled as an unbounded `nat`: its wrap-around is not modelled, since an arena without a memory bound never holds that many nodes.
- Postfix `++` and `--` are not modelled separately. They copy the iterator and call the prefix operators.
- `operator->` is not modelled. It is `operator*` returning a pointer.
- The const versions are not modelled: `const_iterator` and its operators, `cbegin`, `cend`, const `find`, const `at`, and const `operator[]`. They repeat the mutable code on const pointers.
- The iterator's default arguments (a null node and a null container) are not modelled. Neither is the conversion of `iterator` to `const_iterator`.
- Exceptions are returned as error values, and control comes back to the caller.
- `MapIterator.Next`, `MapIterator.Prev`, `MapIterator.Deref`, `SjtuMap.RBMap.Erase`: they require an iterator on the sentinel or on a node currently in its map. Using an iterator to an erased node is undefined behaviour in the code and is not modelled.
- SjtuMap.RBMap.Index: a missing key is inserted with `dflt`, the value of `T()`. The code default-initialises `T default_value;` (src/map.hpp:490-491), which for a scalar `T`, or an aggregate without its own constructor, is an indeterminate value.
- `SjtuMap.RBMap.Index` returns the value rather than a reference to it. Writing through the reference is not modelled.
- `SjtuMap.RBMap.At` returns the value rather than a reference to it.
- `MapIterator.Deref` returns the pair rather than a reference to it.
- `SjtuMap.RBMap.Copy`, `SjtuMap.RBMap.Assign`: they use the corrected `copyHelper` (see Findings), not the code as written, whose recursion does not return.

## Findings

| source | as written | input that shows it | evidently intended | confidence | as-written member | corrected member |
|---|---|---|---|---|---|---|
| src/map.hpp:185-191, 430-435, 440-451 | `copyHelper` stops only at a node equal to `nil`, the sentinel of the map being built. The copy constructor and `operator=` call it on `other.root`, whose subtrees end at `other.nil`, which is never that node | copying any map, even an empty one: `map<int,int> a; map<int,int> b(a);` calls `copyHelper(a.nil, b.nil)`, which recurses through `a.nil->left == a.nil` forever | stop at the other map's sentinel, so that the source's sentinel children become the new map's sentinel | not executed; follows from the recursion's base case | MapCopy.CopyNeverStops | SjtuMap.RBMap.CopyHelper |
