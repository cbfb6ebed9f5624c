# Red-black trees in Dafny

This project models the three red-black tree engines of the red-black-trees
repository and proves their invariants:

- **Left-leaning red-black trees (`llrb.py`).** Sedgewick's engine:
  - recursive `insert`;
  - `delete_min`, `delete_max`, `min` and `delete`;
  - the rotations, `flip_colours`, `move_red_left`/`move_red_right` and the
    shared `fix_up_2_3`;
  - the `LLRB` handle, which blackens the root after every public call.

  Every call returns the new subtree root and each subtree has one owner.
  So the engine is a set of pure functions over the `Tree` datatype
  (modules `LlrbNode`, `LlrbInsert`, `LlrbDelete`). The handle is a class
  holding the root (`LlrbTree.Llrb`).
- **The parent-pointer tree (`red_black.py`, class `RbTree`).**
  - An iterative descent (`_bst_insert_flat`) hangs a new red node.
  - `rb_insert` runs the fix-up loop of cases I1 to I6, walking up through
    the `parent` links and rotating with `_dir_rotate`.

  Module `RedBlack`, class `RedBlack.RbTree`.
- **The ancestor-stack tree (`rb_noparent.py`, class `ParentlessRbTree`).**
  It is the same insertion with no parent links:
  - the descent records the nodes it passes on a list;
  - the fix-up loop pops that list to find the parent, grandparent and
    great-grandparent.

  Module `RbNoParent`, class `RbNoParent.ParentlessRbTree`.

**Nodes.** In the two linked engines the nodes are objects that are
updated in place and shared: a node is reached both from its parent and
through `parent` or the stack. The model keeps the nodes in an arena of
parallel sequences (module `Arena`):

- slot `x` has the fields `left[x]`, `right[x]`, `colour[x]`, `item[x]`,
  plus `parent[x]` in `RbTree`;
- `None` is the slot `NIL`, and `is` on nodes compares slots;
- each class's methods reassign these sequences, under `modifies` clauses.

A ghost `shape` (a tree of slot numbers) records how the links hang
together. `Abs` reads the colours and items the slots hold into a `Tree`
value, and every contract is stated on that value (`Model()`).

**Shared parts.**
- Module `RbNode` holds:
  - the colour model and the node model;
  - the invariants: BST order, equal black counts, no red node with a red
    child, and the left-leaning 2-3 shape;
  - the height bound.
- Module `TreePaths` states each case of the insertion fix-up as a lemma
  on tree values, with positions named by root-to-node paths. Both linked
  engines use these lemmas.

Keys are integers. A tree holds each item at most once: an equal item is
never inserted twice.

## Model

| member | source | states |
|---|---|---|
| RbNode.Flip | red_black.py:39-43 | `Colour.flip` returns the other colour, never the same one |
| RbNode.FlipInvolution | red_black.py:39-43 | flipping twice gives the colour back, and flip has no fixed point |
| RbNode.IsRed | red_black.py:75-78 | `is_red` of an absent node is false; a red verdict implies a node is there |
| RbNode.Blacken | llrb.py:384 | colouring the root black leaves a non-red root and keeps an empty tree empty |
| RbNode.ItemsKeys | red_black.py:317-320 | the in-order list holds exactly the stored items, one entry per node |
| RbNode.OrderedItemsSorted | red_black.py:317-332 | in a BST-ordered tree the in-order list is strictly ascending and holds exactly the stored items |
| RbNode.SizeBound | red_black.py:28 | a balanced tree of black height h has at least 2^h - 1 nodes |
| RbNode.HeightBound | red_black.py:28 | with no red-red edge, height is at most twice the black height (plus one for a red root) |
| RbNode.LogHeight | red_black.py:28 | a red-black tree with n nodes has 2^height <= (n+1)^2, i.e. height <= 2 log2(n+1) |
| LlrbNode.RotateLeft | llrb.py:111-126 | needs a right child; the lifted node takes h's colour, h becomes red, the in-order items are unchanged |
| LlrbNode.RotateLeftKeeps | llrb.py:111-126 | rotate_left keeps BST order, and lifting a red right link keeps balance and black height |
| LlrbNode.RotateRight | llrb.py:127-137 | the mirror of rotate_left: needs a left child, the lifted node takes h's colour, h becomes red, the items are unchanged |
| LlrbNode.RotateRightKeeps | llrb.py:127-137 | rotate_right keeps BST order, and lifting a red left link keeps balance and black height |
| LlrbNode.FlipColours | llrb.py:106-110 | needs both children; inverts the colour of h and of both children, touching nothing else, and keeps the items |
| LlrbNode.FlipColoursKeeps | llrb.py:51-58 | flip keeps BST order, and when h's colour differs from both children's the black counts under h are unchanged |
| LlrbNode.FixUp | llrb.py:163-171 | fix_up_2_3 returns a node with the same in-order items |
| LlrbNode.FixUpKeeps | llrb.py:163-171 | fix_up_2_3 keeps BST order and balance |
| LlrbNode.FixUpShape | llrb.py:163-171 | on the shapes insert and delete pass up, fix_up_2_3 keeps the black height and returns a left-leaning 2-3 tree (up to a red root) |
| LlrbNode.FixUpRootShape | llrb.py:163-171 | applied to a node with left-leaning 2-3 children, fix_up_2_3 gives a balanced tree that is left-leaning 2-3 once the root is blackened |
| LlrbNode.FixUpIdentity | llrb.py:163-171 | fix_up_2_3 leaves a left-leaning 2-3 tree unchanged |
| LlrbNode.MoveRedLeft | llrb.py:302-307 | move_red_left keeps the in-order items and leaves a left child |
| LlrbNode.MoveRedLeftKeeps | llrb.py:302-307 | move_red_left keeps BST order |
| LlrbNode.MoveRedRight | llrb.py:233-237 | move_red_right keeps the in-order items and leaves a right child |
| LlrbNode.MoveRedRightKeeps | llrb.py:233-237 | move_red_right keeps BST order |
| LlrbDelete.MoveRedLeftPost | llrb.py:298-299 | under delete's precondition, after move_red_left h.left or h.left.left is red |
| LlrbDelete.MoveRedRightPost | llrb.py:225 | under delete's precondition, after move_red_right h.right or h.right.right is red |
| LlrbInsert.Cmp | llrb.py:141-142 | cmp is -1, 0 or 1, with the sign of a - b |
| LlrbInsert.Insert | llrb.py:144-158 | insert returns a node whose keys are the old keys plus the new one |
| LlrbInsert.InsertOrdered | llrb.py:144-158 | insert keeps BST order |
| LlrbInsert.InsertShape | llrb.py:144-158 | insert keeps balance and black height and returns a left-leaning 2-3 tree up to a red root |
| LlrbInsert.InsertPresent | llrb.py:150-156 | inserting a key already present returns the tree unchanged |
| LlrbDelete.Llrb23DelShape | llrb.py:309-311 | a non-empty left-leaning 2-3 tree meets the precondition of the deletion routines |
| LlrbDelete.PushRedLeft | llrb.py:323-324 | the guarded move_red_left keeps the items |
| LlrbDelete.LeanRight | llrb.py:347-348 | rotating a red left link to the right keeps items, order, balance and black height |
| LlrbDelete.PushRedRight | llrb.py:353-356 | the guarded move_red_right keeps the items |
| LlrbDelete.PushRedLeftArg | llrb.py:322-325 | after the push the left child is a left-leaning 2-3 tree that is not a 2-node, in the same order |
| LlrbDelete.PushRedRightArg | llrb.py:347-356 | after leaning right and the push, the right child is not a 2-node and order is kept |
| LlrbDelete.LeftStep | llrb.py:323-326 | a left-hand deletion step, repaired by fix_up_2_3, returns a balanced tree of the promised shape |
| LlrbDelete.RightStep | llrb.py:347-373 | a right-hand deletion step, repaired by fix_up_2_3, returns a balanced tree of the promised shape |
| LlrbDelete.DeleteMin | llrb.py:309-326 | delete_min drops exactly the first in-order item |
| LlrbDelete.DeleteMinOrdered | llrb.py:309-326 | delete_min keeps BST order |
| LlrbDelete.DeleteMinShape | llrb.py:309-326 | delete_min keeps balance and returns a left-leaning 2-3 tree up to a red root |
| LlrbDelete.DeleteMinKeys | llrb.py:309-326 | delete_min removes exactly the minimum key |
| LlrbDelete.Leftmost | llrb.py:328-331 | the leftmost item is the first in-order item and, in a BST, the smallest key |
| LlrbDelete.Min | llrb.py:328-331 | the loop of min returns the node with no left child holding the leftmost item |
| LlrbDelete.DeleteMax | llrb.py:239-274 | delete_max drops exactly the last in-order item |
| LlrbDelete.DeleteMaxOrdered | llrb.py:239-274 | delete_max keeps BST order |
| LlrbDelete.DeleteMaxShape | llrb.py:239-274 | delete_max keeps balance and returns a left-leaning 2-3 tree up to a red root |
| LlrbDelete.Delete | llrb.py:333-373 | delete returns a tree whose keys are among the old ones; a smaller absent key with no left child returns h unchanged |
| LlrbDelete.DeleteKeys | llrb.py:350-368 | delete removes exactly the key, keeps every other key and keeps BST order |
| LlrbDelete.DeleteShape | llrb.py:333-373 | delete keeps balance and returns a left-leaning 2-3 tree up to a red root |
| LlrbDelete.DeleteAsWritten | llrb.py:353 | delete as written faults when the search runs off the right end; when it does not fault it agrees with Delete |
| LlrbDelete.DeleteAbsentFaults | llrb.py:353 | deleting 2 from the one-node tree {1} faults as written, while the corrected delete returns the tree unchanged |
| LlrbDelete.DeleteAsWrittenPresent | llrb.py:350-368 | delete as written never faults on a key that is present |
| LlrbTree.BlackenKeeps | llrb.py:384 | blackening the root keeps items, order and balance |
| LlrbTree.InOrder | red_black.py:322-332 | the explicit-stack walk returns the in-order item list |
| LlrbTree.Llrb.constructor | llrb.py:376-377 | a new LLRB is empty and valid |
| LlrbTree.Llrb.Insert | llrb.py:380-384 | LLRB.insert keeps the LLRB invariants with a black root, and the keys grow by the new key |
| LlrbTree.Llrb.DeleteMin | llrb.py:388-391 | LLRB.delete_min keeps the invariants and drops exactly the first item |
| LlrbTree.Llrb.Delete | llrb.py:393-410 | LLRB.delete keeps the invariants and removes exactly the key; an empty tree stays empty |
| LlrbTree.Llrb.ToList | red_black.py:317-320 | to_list is every item once, ascending |
| LlrbTree.Llrb.Contains | red_black.py:334-342 | contains is true exactly when the item is stored |
| TreePaths.DirRot | red_black.py:188-205 | a rotation keeps the in-order items |
| TreePaths.DirRotKeeps | red_black.py:188-205 | a rotation keeps BST order, and lifting a red child under a red node keeps balance |
| TreePaths.SearchPathLeaf | red_black.py:248-267 | the descent ends at an empty place; hanging the new item there keeps BST order and adds exactly that key |
| TreePaths.SearchPathFound | red_black.py:252-258 | for a stored item the descent stops at the node holding it |
| TreePaths.FixStart | red_black.py:272-279 | a new red leaf at the end of the search path adds its key and sets up the fix-up loop invariant |
| TreePaths.FixStop | red_black.py:284-286 | case I3: with P black the tree is already a red-black tree |
| TreePaths.FixRoot | red_black.py:287-291 | case I6: blackening a red root P gives a red-black tree with the same keys |
| TreePaths.FixI1 | red_black.py:308-315 | case I1: P and U black and G red keep the keys and move the invariant up to G; at the root the tree is red-black |
| TreePaths.FixI4 | red_black.py:297-302 | case I4: rotating at P turns the inner grandchild into an outer one, with the same keys and the uncle untouched |
| TreePaths.FixI5 | red_black.py:303-307 | case I5: recolouring and rotating at G ends with a red-black tree holding the same keys |
| Arena.GetChild | red_black.py:57-61 | get_child returns the node one step down on the given side |
| Arena.IsRedAt | red_black.py:75-78 | is_red on a slot agrees with is_red of the node at that position |
| Arena.InOrder | red_black.py:322-332 | the explicit-stack walk over the links returns the in-order item list of the tree held |
| Arena.Contains | red_black.py:334-342 | the search loop over the links is true exactly when the item is stored |
| RedBlack.RotateCommit | red_black.py:195-204 | the link and parent writes of _dir_rotate leave links and parents consistent with the rotated shape |
| RedBlack.AppendSlot | red_black.py:262 | a fresh node for an absent item leaves the tree held unchanged |
| RedBlack.HangHooked | red_black.py:279 | P.set_child(N, is_right) hangs N exactly where the search ended, links consistent |
| RedBlack.HangParented | red_black.py:275 | N.parent = P keeps every parent link consistent |
| RedBlack.HangTree | red_black.py:272-279 | the new red node at the end of the search path adds its item and sets up the loop invariant |
| RedBlack.FirstLeaf | red_black.py:276-278 | on an empty tree the new node becomes the only node and the tree is red-black |
| RedBlack.RbTree.constructor | red_black.py:184-186 | a new tree is empty, with size 0 |
| RedBlack.RbTree.SetChild | red_black.py:51-55 | set_child writes exactly the link on the given side |
| RedBlack.RbTree.GetUncle | red_black.py:168-176 | get_uncle is the sibling of the parent under the grandparent, NIL without a grandparent |
| RedBlack.RbTree.IsOnRight | red_black.py:178-181 | is_on_right is true exactly when the node is its parent's right child |
| RedBlack.RbTree.DirRotate | red_black.py:188-205 | _dir_rotate keeps child and parent links consistent; the tree held is rotated at P; S replaces P, as root when P was the root |
| RedBlack.RbTree.SetColour | red_black.py:309-311 | a colour write recolours exactly the node at that position |
| RedBlack.RbTree.Descend | red_black.py:249-261 | the descent finds the item iff stored; otherwise it ends on the search path, with the parent slot and side |
| RedBlack.RbTree.BstInsertFlat | red_black.py:248-267 | an equal item changes nothing; otherwise size grows by one; either way the keys become old keys plus the item and the tree stays red-black; an empty tree gets a red root |
| RedBlack.RbTree.RbInsert | red_black.py:271-315 | rb_insert adds the new node's item and leaves a red-black tree; with no parent the node becomes a red root |
| RedBlack.RbTree.FixUp | red_black.py:281-315 | the fix-up loop terminates with a red-black tree and the same keys |
| RedBlack.RbTree.RotateOut | red_black.py:294-307 | cases I4 and I5 end with a red-black tree and the same keys |
| RedBlack.RbTree.ToList | red_black.py:317-320 | to_list is the in-order list: every item once, ascending |
| RedBlack.RbTree.Contains | red_black.py:334-342 | contains is true exactly when the item is stored |
| RbNoParent.AncestorsTop | rb_noparent.py:64 | the stack is empty exactly at the root, and its top is the parent of the current position |
| RbNoParent.AncestorsPush | rb_noparent.py:43 | pushing the current node makes the stack the ancestors of the next position |
| RbNoParent.AncestorsGraft | rb_noparent.py:93 | a rotation below the recorded ancestors leaves the stack valid |
| RbNoParent.RotateSiteNp | rb_noparent.py:25-36 | the nodes _dir_rotate touches are distinct; G is NIL exactly at the root; otherwise `P is G.right` gives P's side |
| RbNoParent.RotateCommitNp | rb_noparent.py:29-35 | the link writes of _dir_rotate leave the links consistent with the rotated shape |
| RbNoParent.ParentlessRbTree.constructor | rb_noparent.py:21-23 | a new tree is empty, with size 0 |
| RbNoParent.ParentlessRbTree.SetColour | rb_noparent.py:104-106 | a colour write recolours exactly the node at that position |
| RbNoParent.ParentlessRbTree.DirRotate | rb_noparent.py:25-36 | given P's parent G, _dir_rotate keeps the links consistent, the tree held is rotated at P, S replaces P |
| RbNoParent.ParentlessRbTree.Uncle | rb_noparent.py:62-63 | uncle(g, p) is p's sibling under g |
| RbNoParent.ParentlessRbTree.Descend | rb_noparent.py:39-51 | the descent finds the item iff stored; otherwise the stack holds exactly the nodes on the search path, root first |
| RbNoParent.ParentlessRbTree.BstInsertFlat | rb_noparent.py:38-58 | an equal item changes nothing; otherwise size grows by one; the keys become old keys plus the item; the tree stays red-black; an empty tree gets a black root |
| RbNoParent.ParentlessRbTree.RbInsert | rb_noparent.py:60-111 | rb_insert adds the item, leaves a red-black tree; with an empty stack the tree becomes one black node |
| RbNoParent.ParentlessRbTree.Attach | rb_noparent.py:70-111 | hanging N under P and running the loop adds N's item and leaves a red-black tree |
| RbNoParent.ParentlessRbTree.FixUp | rb_noparent.py:75-111 | the stack-driven loop terminates (each round pops or returns) with a red-black tree and the same keys |
| RbNoParent.ParentlessRbTree.RotateOut | rb_noparent.py:88-102 | cases I4 and I5, with GP from the stack top, end with a red-black tree and the same keys |
| RbNoParent.ParentlessRbTree.ToList | red_black.py:317-332 | to_list is every item once, ascending |
| RbNoParent.ParentlessRbTree.Contains | red_black.py:334-342 | contains is true exactly when the item is stored |

## Left out

- Graphviz, the 2-3-4 text dump, `__str__`/`__repr__`, `eprint` and all
  `debug` printing: diagnostic output only.
- `debug_hook` in `delete`/`delete_min` is a no-op in the model. The call
  in `delete_min` (llrb.py:318) would fault with its default `None`; that
  fault is not modelled.
- `check_invariant`, `max_depth`, `max_depth_left`, `max_depth_right`: the
  height bound is stated on a height function instead (`RbNode.LogHeight`).
- `_left_rotate` and `_right_rotate`: `rb_insert` does not use them.
- `insert` raising on `None` data: items are integers here.
- `red-black.py`, `thing.c`, `thing.cpp` and the `__main__` drivers (random
  inputs, I/O) are not part of this model.
- LlrbTree.Llrb.DeleteMin: requires a non-empty tree, because the source
  dereferences `None` there (llrb.py:389, 320).
- LlrbDelete.DeleteMin: states the in-order items only when the argument
  is a left-leaning 2-3 tree; on the other shapes it accepts, it states only
  that no key is added.
- LlrbDelete.DeleteMin, LlrbDelete.DeleteMax and LlrbDelete.Delete require
  a non-empty tree of the shape the deletion routines keep on the search
  path. The source calls them only on such trees.
- `contains` returns `None` when the item is absent; the model reads that
  as `false`.
- RbNoParent.ParentlessRbTree.Uncle: `uncle` compares with dataclass `==`
  rather than `is`. Items are distinct, so two different nodes never
  compare equal, and the model uses slot identity.
- Identity of node objects, aliasing and memory are modelled through arena
  slots. The model does not capture node objects that live outside the
  tree.

## Findings

| source | as written | input that shows it | evidently intended | confidence | as-written member | corrected member |
|---|---|---|---|---|---|---|
| llrb.py:353 | `delete` on the right-hand branch tests `h.right.left` while `h.right` may be `None`, so deleting an absent key larger than every key on the search path faults | deleting 2 from the one-node tree holding 1 | an absent key leaves the tree unchanged, as the left-hand branch does at llrb.py:336-338 | not executed | LlrbDelete.DeleteAsWritten, LlrbDelete.DeleteAbsentFaults | LlrbDelete.Delete, LlrbDelete.DeleteKeys |
