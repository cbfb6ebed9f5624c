/** LLRB deletion (delete_min, delete_max, min and delete of llrb.py): on the
    way down, red links are pushed towards the search path so that the
    search never ends on a 2-node; fix_up_2_3 repairs the tree on the way
    back up. */
module LlrbDelete {
  import opened RbNode
  import opened LlrbNode

  /** The shape every deletion step accepts: a balanced node whose children
      are left-leaning 2-3 trees and whose two links are not both red; a red
      node has black children. It is a left-leaning 2-3 tree except that its
      right link may lean red (what move_red_right leaves on the search path
      of delete_max and delete). */
  ghost predicate DelShape(h: Tree)
  {
    && h.Node? && Balanced(h)
    && Llrb23(h.left) && Llrb23(h.right)
    && (h.colour == Red ==> !IsRed(h.left) && !IsRed(h.right))
    && !(IsRed(h.left) && IsRed(h.right))
  }

  /** The deletion invariant: h is not a 2-node, i.e. h or one of its links
      is red. */
  ghost predicate NotTwo(h: Tree)
  {
    h.Node? && (IsRed(h) || IsRed(h.left) || IsRed(h.right))
  }

  /** What a deletion step promises about the subtree it returns, given the
      subtree it was called on: balance, and a left-leaning 2-3 tree up to a
      red left-left run at the root; when called on a node that is not a
      2-node, also the same black height, a left-leaning 2-3 tree outright,
      and a black result for a black argument. */
  ghost predicate DelResult(h: Tree, r: Tree)
  {
    && Balanced(r) && Llrb23(Blacken(r))
    && (NotTwo(h) ==>
          && BlackHeight(r) == BlackHeight(h) && Llrb23(r)
          && (!IsRed(h) ==> !IsRed(r)))
  }

  lemma Llrb23DelShape(h: Tree)
    requires h.Node? && Balanced(h) && Llrb23(h)
    ensures DelShape(h)
  {
  }

  /** The guarded move_red_left of delete_min and delete: borrow a red link
      when h's left child is a 2-node. */
  function PushRedLeft(h: Tree): (p: Tree)
    requires DelShape(h) && h.left.Node?
    ensures p.Node? && p.left.Node?
    ensures Items(p) == Items(h) && Keys(p) == Keys(h)
  {
    if !IsRed(h.left) && !IsRed(h.left.left) then MoveRedLeft(h) else h
  }

  /** The first step of delete_max and of delete's right-hand branch:
      rotate a left-leaning red link to the right. */
  function LeanRight(h: Tree): (g: Tree)
    requires h.Node?
    ensures g.Node?
    ensures Items(g) == Items(h) && Keys(g) == Keys(h)
    ensures Ordered(h) ==> Ordered(g)
    ensures Balanced(h) ==> Balanced(g) && BlackHeight(g) == BlackHeight(h)
  {
    if IsRed(h.left) then
      RotateRightKeeps(h);
      RotateRight(h)
    else h
  }

  /** The guarded move_red_right of delete_max and delete: borrow a red link
      when the right child is a 2-node. */
  function PushRedRight(g: Tree): (p: Tree)
    requires g.Node? && g.right.Node? && Balanced(g)
    ensures p.Node? && p.right.Node?
    ensures Items(p) == Items(g) && Keys(p) == Keys(g)
  {
    if !IsRed(g.right) && !IsRed(g.right.left) then
      assert g.left.Node? by { assert BlackHeight(g.right) >= 1; }
      MoveRedRight(g)
    else g
  }

  /** After the push to the left, the left child is a left-leaning 2-3 tree
      that is not a 2-node, and the node is still balanced. */
  lemma PushRedLeftArg(h: Tree)
    requires DelShape(h) && h.left.Node?
    ensures DelShape(PushRedLeft(h).left) && NotTwo(PushRedLeft(h).left)
    ensures Llrb23(PushRedLeft(h).left)
    ensures !IsRed(h.right) ==> Balanced(PushRedLeft(h))
    ensures Ordered(h) ==> Ordered(PushRedLeft(h)) && PushRedLeft(h).key >= h.key
  {
    if !IsRed(h.left) && !IsRed(h.left.left) {
      PushRedLeftMoved(h);
    } else {
      assert PushRedLeft(h) == h;
      assert Llrb23(h.left);
    }
  }

  lemma PushRedLeftMoved(h: Tree)
    requires DelShape(h) && h.left.Node? && !IsRed(h.left) && !IsRed(h.left.left)
    ensures DelShape(PushRedLeft(h).left) && NotTwo(PushRedLeft(h).left)
    ensures Llrb23(PushRedLeft(h).left)
    ensures !IsRed(h.right) ==> Balanced(PushRedLeft(h))
    ensures Ordered(h) ==> Ordered(PushRedLeft(h)) && PushRedLeft(h).key >= h.key
  {
    var l, r := h.left, h.right;
    assert Llrb23(l) && Llrb23(r);
    MoveRedLeftKeeps(h);
    assert Balanced(l) && Balanced(r);
    var f := FlipColours(h);
    FlipColoursKeeps(h);
    if IsRed(f.right.left) {
      var rl := r.left;
      assert Llrb23(rl) && Balanced(rl);
      assert MoveRedLeft(h) ==
        Node(h.colour, Node(Black, f.left, h.key, rl.left), rl.key,
             Node(Black, rl.right, r.key, r.right));
    } else {
      assert MoveRedLeft(h) == f;
    }
  }

  /** After the lean and the push to the right, the right child is a node
      of the deletion shape that is not a 2-node; it is a left-leaning 2-3
      tree unless the node is now the old left child (so its key is smaller
      than every key in the right-hand search). */
  lemma PushRedRightArg(h: Tree)
    requires DelShape(h) && LeanRight(h).right.Node?
    ensures Balanced(LeanRight(h))
    ensures DelShape(PushRedRight(LeanRight(h)).right)
    ensures NotTwo(PushRedRight(LeanRight(h)).right)
    ensures !Llrb23(PushRedRight(LeanRight(h)).right) ==>
              && h.left.Node? && PushRedRight(LeanRight(h)).key == h.left.key
              && PushRedRight(LeanRight(h)).right.key == h.key
    ensures Ordered(h) ==>
              Ordered(PushRedRight(LeanRight(h))) && PushRedRight(LeanRight(h)).key <= h.key
  {
    if IsRed(h.left) {
      PushRedRightRotated(h);
    } else if !IsRed(h.right) && !IsRed(h.right.left) {
      PushRedRightMoved(h);
    } else {
      assert PushRedRight(LeanRight(h)) == h;
    }
  }

  lemma PushRedRightRotated(h: Tree)
    requires DelShape(h) && LeanRight(h).right.Node? && IsRed(h.left)
    ensures Balanced(LeanRight(h))
    ensures DelShape(PushRedRight(LeanRight(h)).right)
    ensures NotTwo(PushRedRight(LeanRight(h)).right)
    ensures !Llrb23(PushRedRight(LeanRight(h)).right) ==>
              && h.left.Node? && PushRedRight(LeanRight(h)).key == h.left.key
              && PushRedRight(LeanRight(h)).right.key == h.key
    ensures Ordered(h) ==>
              Ordered(PushRedRight(LeanRight(h))) && PushRedRight(LeanRight(h)).key <= h.key
  {
    var l, r := h.left, h.right;
    var g := LeanRight(h);
    RotateRightKeeps(h);
    assert l.key in Keys(l);
    assert Llrb23(l.left) && Llrb23(l.right);
    assert g == Node(h.colour, l.left, l.key, Node(Red, l.right, h.key, r));
    assert PushRedRight(g) == g;
  }

  lemma PushRedRightMoved(h: Tree)
    requires DelShape(h) && LeanRight(h).right.Node? && !IsRed(h.left)
    requires !IsRed(h.right) && !IsRed(h.right.left)
    ensures Balanced(LeanRight(h))
    ensures DelShape(PushRedRight(LeanRight(h)).right)
    ensures NotTwo(PushRedRight(LeanRight(h)).right)
    ensures !Llrb23(PushRedRight(LeanRight(h)).right) ==>
              && h.left.Node? && PushRedRight(LeanRight(h)).key == h.left.key
              && PushRedRight(LeanRight(h)).right.key == h.key
    ensures Ordered(h) ==>
              Ordered(PushRedRight(LeanRight(h))) && PushRedRight(LeanRight(h)).key <= h.key
  {
    var l, r := h.left, h.right;
    var g := LeanRight(h);
    assert g == h;
    MoveRedRightKeeps(h);
    assert Balanced(l) && Balanced(r) && Llrb23(l);
    var f := FlipColours(h);
    FlipColoursKeeps(h);
    if IsRed(f.left.left) {
      assert Llrb23(l.left) && Balanced(l.left);
      assert PushRedRight(g) ==
        Node(h.colour, Node(Black, l.left.left, l.left.key, l.left.right), l.key,
             Node(Black, l.right, h.key, r.(colour := Red)));
    } else {
      assert PushRedRight(g) == f;
    }
  }

  /** move_red_left, called where delete_min and delete call it (h's left
      child and its left child black), leaves h's left child or its left
      child red: the search continues on a node that is not a 2-node. */
  lemma MoveRedLeftPost(h: Tree)
    requires DelShape(h) && h.left.Node? && !IsRed(h.left) && !IsRed(h.left.left)
    ensures h.right.Node?
    ensures IsRed(MoveRedLeft(h).left) || IsRed(MoveRedLeft(h).left.left)
  {
    assert BlackHeight(h.right) >= 1;
    PushRedLeftArg(h);
    assert PushRedLeft(h) == MoveRedLeft(h);
    assert Llrb23(MoveRedLeft(h).left);
  }

  /** move_red_right, called where delete_max and delete call it (h's left
      child black, its right child and that child's left child black), leaves
      h's right child or its right child red. */
  lemma MoveRedRightPost(h: Tree)
    requires DelShape(h) && h.right.Node? && !IsRed(h.left)
    requires !IsRed(h.right) && !IsRed(h.right.left)
    ensures h.left.Node?
    ensures IsRed(MoveRedRight(h).right) || IsRed(MoveRedRight(h).right.right)
  {
    assert BlackHeight(h.right) >= 1;
    var f := FlipColours(h);
    if IsRed(f.left.left) {
      assert MoveRedRight(h).right.right == h.right.(colour := Red);
    }
  }

  /** One step down the left spine and back up: whatever the recursive call
      returns in place of the pushed left child, provided it kept the
      deletion results, fix_up_2_3 restores them for h. */
  lemma {:induction false} LeftStep(h: Tree, l': Tree)
    requires DelShape(h) && !IsRed(h.right) && h.left.Node?
    requires DelResult(PushRedLeft(h).left, l')
    ensures PushRedLeft(h).(left := l').Node?
    ensures DelResult(h, FixUp(PushRedLeft(h).(left := l')))
  {
    var l, r := h.left, h.right;
    var p := PushRedLeft(h);
    PushRedLeftArg(h);
    var q := p.(left := l');
    assert Llrb23(l) && Llrb23(r) && Balanced(l) && Balanced(r);
    if IsRed(l) {
      assert q == Node(Black, l', h.key, r);
      FixUpShape(q);
    } else if IsRed(l.left) {
      assert q == Node(h.colour, l', h.key, r);
      FixUpShape(q);
      if h.colour == Red {
        FixUpIdentity(q);
      }
    } else {
      var f := FlipColours(h);
      if IsRed(f.right.left) {
        var rl := r.left;
        assert Llrb23(rl) && Balanced(rl);
        assert p == Node(h.colour, Node(Black, f.left, h.key, rl.left), rl.key,
                         Node(Black, rl.right, r.key, r.right));
        FixUpShape(q);
        if h.colour == Red {
          FixUpIdentity(q);
        }
      } else {
        assert p == f;
        if h.colour == Red {
          FixUpShape(q);
        } else {
          FixUpRootShape(q);
        }
      }
    }
  }

  /** One step down the right-hand side and back up: whatever the recursive
      call returns in place of the pushed right child, with any key k' at the
      node, provided it kept the deletion results, fix_up_2_3 restores them
      for h. */
  lemma {:induction false} RightStep(h: Tree, k': int, r': Tree)
    requires DelShape(h) && LeanRight(h).right.Node?
    requires DelResult(PushRedRight(LeanRight(h)).right, r')
    ensures DelResult(h, FixUp(PushRedRight(LeanRight(h)).(key := k', right := r')))
  {
    var l, r := h.left, h.right;
    var g := LeanRight(h);
    PushRedRightArg(h);
    var p := PushRedRight(g);
    var q := p.(key := k', right := r');
    assert Llrb23(l) && Llrb23(r) && Balanced(l) && Balanced(r);
    if IsRed(l) {
      assert Llrb23(l.left) && Llrb23(l.right) && Balanced(l.left);
      assert q == Node(h.colour, l.left, k', r');
      FixUpShape(q);
    } else if IsRed(r) || IsRed(r.left) {
      assert q == Node(h.colour, l, k', r');
      FixUpShape(q);
      if h.colour == Red {
        FixUpIdentity(q);
      }
    } else {
      var f := FlipColours(h);
      if IsRed(f.left.left) {
        assert Llrb23(l.left) && Balanced(l.left);
        assert q == Node(h.colour, Node(Black, l.left.left, l.left.key, l.left.right), k', r');
        FixUpShape(q);
        if h.colour == Red {
          FixUpIdentity(q);
        }
      } else {
        assert q == Node(Flip(h.colour), f.left, k', r');
        if h.colour == Red {
          FixUpShape(q);
        } else {
          FixUpRootShape(q);
        }
      }
    }
  }

  /** delete_min: remove the leftmost node. */
  function DeleteMin(h: Tree): (r: Tree)
    requires DelShape(h)
    ensures Keys(r) <= Keys(h)
    ensures Llrb23(h) ==> Items(r) == Items(h)[1..]
    decreases |Items(h)|
  {
    if h.left.Nil? then
      assert BlackHeight(h.right) == 0;
      assert Llrb23(h) ==> !IsRed(h.right);
      Nil
    else
      var p := PushRedLeft(h);
      PushRedLeftArg(h);
      var l' := DeleteMin(p.left);
      var q := p.(left := l');
      DropFirstLeft(p, l');
      FixUp(q)
  }

  /** Replacing the left subtree by its items minus the first drops the
      first item of the whole. */
  lemma DropFirstLeft(p: Tree, l': Tree)
    requires p.Node? && p.left.Node?
    ensures Items(l') == Items(p.left)[1..] ==> Items(p.(left := l')) == Items(p)[1..]
  {
    var a, b := Items(p.left), [p.key] + Items(p.right);
    assert Items(p) == a + b;
    assert a != [];
    assert (a + b)[1..] == a[1..] + b;
  }

  /** delete_min keeps BST order. */
  lemma {:induction false} DeleteMinOrdered(h: Tree)
    requires DelShape(h) && Ordered(h)
    ensures Ordered(DeleteMin(h))
    decreases |Items(h)|
  {
    if h.left.Node? {
      var p := PushRedLeft(h);
      PushRedLeftArg(h);
      DeleteMinOrdered(p.left);
      FixUpKeeps(p.(left := DeleteMin(p.left)));
    }
  }

  /** delete_min keeps the LLRB shape: called on a left-leaning 2-3 tree,
      it returns one up to a red left-left run at the root, and when the
      call started on a node that is not a 2-node, the same black height. */
  lemma {:induction false} DeleteMinShape(h: Tree)
    requires DelShape(h) && !IsRed(h.right)
    ensures DelResult(h, DeleteMin(h))
    decreases |Items(h)|
  {
    if h.left.Nil? {
      assert BlackHeight(h.right) == 0;
    } else {
      var p := PushRedLeft(h);
      PushRedLeftArg(h);
      DeleteMinShape(p.left);
      LeftStep(h, DeleteMin(p.left));
    }
  }

  /** min: the leftmost item, by recursion down the left spine. */
  function Leftmost(h: Tree): (m: int)
    requires h.Node?
    ensures m == Items(h)[0] && m in Keys(h)
    ensures Ordered(h) ==> forall x :: x in Keys(h) ==> m <= x
  {
    if h.left.Nil? then h.key else Leftmost(h.left)
  }

  /** min: the loop of the source, returning the leftmost node. */
  method Min(h: Tree) returns (m: Tree)
    requires h.Node?
    ensures m.Node? && m.left.Nil?
    ensures m.key == Leftmost(h)
  {
    m := h;
    while m.left.Node?
      invariant m.Node? && Leftmost(m) == Leftmost(h)
      decreases m
    {
      m := m.left;
    }
  }

  /** On a left-leaning 2-3 tree in BST order, delete_min removes exactly
      the smallest item. */
  lemma DeleteMinKeys(h: Tree)
    requires DelShape(h) && Llrb23(h) && Ordered(h)
    ensures Keys(DeleteMin(h)) == Keys(h) - {Leftmost(h)}
  {
    var s := Items(h);
    var r := DeleteMin(h);
    ItemsKeys(r);
    OrderedItemsSorted(h);
    DropHead(s);
    assert Items(r) == s[1..];
  }

  /** Replacing the right subtree by its items minus the last drops the
      last item of the whole. */
  lemma DropLastRight(p: Tree, r': Tree)
    requires p.Node? && p.right.Node?
    ensures Items(r') == Items(p.right)[..|Items(p.right)| - 1] ==>
              Items(p.(right := r')) == Items(p)[..|Items(p)| - 1]
  {
    var a, b := Items(p.left) + [p.key], Items(p.right);
    assert Items(p) == a + b;
    assert b != [];
    assert (a + b)[..|a + b| - 1] == a + b[..|b| - 1];
  }

  /** delete_max: remove the rightmost node. Rotating a left-leaning red
      link to the right first means the search may end on a red right
      leaf, so the argument may lean right. */
  function DeleteMax(h: Tree): (r: Tree)
    requires DelShape(h)
    ensures Keys(r) <= Keys(h)
    ensures Items(r) == Items(h)[..|Items(h)| - 1]
    decreases |Items(h)|
  {
    var g := LeanRight(h);
    if g.right.Nil? then
      assert !IsRed(h.left) && BlackHeight(h.left) == 0;
      Nil
    else
      var p := PushRedRight(g);
      PushRedRightArg(h);
      var r' := DeleteMax(p.right);
      var q := p.(right := r');
      DropLastRight(p, r');
      FixUp(q)
  }

  /** delete_max keeps BST order. */
  lemma {:induction false} DeleteMaxOrdered(h: Tree)
    requires DelShape(h) && Ordered(h)
    ensures Ordered(DeleteMax(h))
    decreases |Items(h)|
  {
    var g := LeanRight(h);
    if g.right.Node? {
      var p := PushRedRight(g);
      PushRedRightArg(h);
      DeleteMaxOrdered(p.right);
      FixUpKeeps(p.(right := DeleteMax(p.right)));
    }
  }

  /** delete_max keeps the LLRB shape, as delete_min does. */
  lemma {:induction false} DeleteMaxShape(h: Tree)
    requires DelShape(h)
    ensures DelResult(h, DeleteMax(h))
    decreases |Items(h)|
  {
    var g := LeanRight(h);
    if g.right.Nil? {
      assert !IsRed(h.left) && BlackHeight(h.left) == 0;
    } else {
      var p := PushRedRight(g);
      PushRedRightArg(h);
      DeleteMaxShape(p.right);
      RightStep(h, p.key, DeleteMax(p.right));
    }
  }

  /** delete: remove key if present. Below a node whose key is larger the
      search borrows red to the left; otherwise it leans right and borrows
      red to the right, and a key found at an inner node is replaced by the
      smallest key of its right subtree, which delete_min then removes. A
      search that runs off the right end returns the node unchanged, as the
      left-hand search does (the source faults there; see DeleteAsWritten). */
  function Delete(h: Tree, key: int): (r: Tree)
    requires DelShape(h)
    ensures Keys(r) <= Keys(h)
    ensures key < h.key && h.left.Nil? ==> r == h
    decreases |Items(h)|
  {
    if key < h.key then
      if h.left.Nil? then h
      else
        var p := PushRedLeft(h);
        PushRedLeftArg(h);
        FixUp(p.(left := Delete(p.left, key)))
    else
      var g := LeanRight(h);
      if g.right.Nil? then
        if key == g.key then Nil else g
      else
        var p := PushRedRight(g);
        PushRedRightArg(h);
        if key == p.key then
          FixUp(p.(key := Leftmost(p.right), right := DeleteMin(p.right)))
        else
          FixUp(p.(right := Delete(p.right, key)))
  }

  /** Removing key from the left subtree of an ordered node whose key is
      larger removes it from the node. */
  lemma KeysLeft(p: Tree, l': Tree, key: int)
    requires p.Node? && Ordered(p) && key < p.key
    requires Ordered(l') && Keys(l') == Keys(p.left) - {key}
    ensures Ordered(p.(left := l')) && Keys(p.(left := l')) == Keys(p) - {key}
  {
    assert key !in Keys(p.right);
  }

  /** Removing key from the right subtree of an ordered node whose key is
      smaller removes it from the node. */
  lemma KeysRight(p: Tree, r': Tree, key: int)
    requires p.Node? && Ordered(p) && key > p.key
    requires Ordered(r') && Keys(r') == Keys(p.right) - {key}
    ensures Ordered(p.(right := r')) && Keys(p.(right := r')) == Keys(p) - {key}
  {
    assert key !in Keys(p.left);
  }

  /** Replacing an ordered node's key by the smallest key m of its right
      subtree, and removing m from that subtree, removes the node's key. */
  lemma KeysReplace(p: Tree, m: int, r': Tree)
    requires p.Node? && Ordered(p)
    requires m in Keys(p.right) && forall x :: x in Keys(p.right) ==> m <= x
    requires Ordered(r') && Keys(r') == Keys(p.right) - {m}
    ensures Ordered(p.(key := m, right := r'))
    ensures Keys(p.(key := m, right := r')) == Keys(p) - {p.key}
  {
    assert p.key !in Keys(p.left) && p.key !in Keys(p.right);
  }

  /** On a tree in BST order, delete removes exactly key (nothing when key
      is absent) and keeps the order. */
  lemma {:induction false} DeleteKeys(h: Tree, key: int)
    requires DelShape(h) && Ordered(h)
    ensures Keys(Delete(h, key)) == Keys(h) - {key}
    ensures Ordered(Delete(h, key))
    decreases |Items(h)|
  {
    if key < h.key {
      if h.left.Node? {
        var p := PushRedLeft(h);
        PushRedLeftArg(h);
        DeleteKeys(p.left, key);
        KeysLeft(p, Delete(p.left, key), key);
        FixUpKeeps(p.(left := Delete(p.left, key)));
      } else {
        assert key !in Keys(h.right);
      }
    } else {
      var g := LeanRight(h);
      if g.right.Nil? {
        assert !IsRed(h.left) && BlackHeight(h.left) == 0;
      } else {
        var p := PushRedRight(g);
        PushRedRightArg(h);
        assert h.left.Node? ==> h.left.key in Keys(h.left);
        if key == p.key {
          var m := Leftmost(p.right);
          DeleteMinKeys(p.right);
          DeleteMinOrdered(p.right);
          KeysReplace(p, m, DeleteMin(p.right));
          FixUpKeeps(p.(key := m, right := DeleteMin(p.right)));
        } else {
          DeleteKeys(p.right, key);
          KeysRight(p, Delete(p.right, key), key);
          FixUpKeeps(p.(right := Delete(p.right, key)));
        }
      }
    }
  }

  /** delete keeps the LLRB shape. A red right link at the top is allowed
      only on the right-hand search (key not below the node's key), which is
      where move_red_right leaves one. */
  lemma {:induction false} DeleteShape(h: Tree, key: int)
    requires DelShape(h) && Ordered(h)
    requires IsRed(h.right) ==> key >= h.key
    ensures DelResult(h, Delete(h, key))
    decreases |Items(h)|
  {
    if key < h.key {
      if h.left.Node? {
        var p := PushRedLeft(h);
        PushRedLeftArg(h);
        DeleteShape(p.left, key);
        LeftStep(h, Delete(p.left, key));
      }
    } else {
      var g := LeanRight(h);
      if g.right.Nil? {
        assert !IsRed(h.left) && BlackHeight(h.left) == 0;
      } else {
        var p := PushRedRight(g);
        PushRedRightArg(h);
        assert h.left.Node? ==> h.left.key in Keys(h.left);
        if key == p.key {
          DeleteMinShape(p.right);
          RightStep(h, Leftmost(p.right), DeleteMin(p.right));
        } else {
          DeleteShape(p.right, key);
          assert p.(right := Delete(p.right, key)) == p.(key := p.key, right := Delete(p.right, key));
          RightStep(h, p.key, Delete(p.right, key));
        }
      }
    }
  }

  datatype Option<T> = None | Some(value: T)

  /** delete exactly as written: a search that runs off the right end of
      the tree (key absent and larger than the last key on the path) looks at
      the left child of a missing node and faults, modelled as None.
      Whenever it does not fault it agrees with Delete. */
  function DeleteAsWritten(h: Tree, key: int): (r: Option<Tree>)
    requires DelShape(h)
    ensures r.Some? ==> r.value == Delete(h, key)
    decreases |Items(h)|
  {
    if key < h.key then
      if h.left.Nil? then Some(h)
      else
        var p := PushRedLeft(h);
        PushRedLeftArg(h);
        match DeleteAsWritten(p.left, key)
        case None => None
        case Some(l') => Some(FixUp(p.(left := l')))
    else
      var g := LeanRight(h);
      if key == g.key && g.right.Nil? then Some(Nil)
      else if g.right.Nil? then None
      else
        var p := PushRedRight(g);
        PushRedRightArg(h);
        if key == p.key then
          Some(FixUp(p.(key := Leftmost(p.right), right := DeleteMin(p.right))))
        else
          match DeleteAsWritten(p.right, key)
          case None => None
          case Some(r') => Some(FixUp(p.(right := r')))
  }

  /** Deleting 2 from the one-node tree holding 1 faults as written, while
      the key is simply absent: Delete returns the tree unchanged. */
  lemma DeleteAbsentFaults()
    ensures DelShape(Node(Black, Nil, 1, Nil))
    ensures DeleteAsWritten(Node(Black, Nil, 1, Nil), 2).None?
    ensures Delete(Node(Black, Nil, 1, Nil), 2) == Node(Black, Nil, 1, Nil)
  {
  }

  /** The fault happens exactly when the key is absent and the search runs
      off the right end: on a key that is present (or absent but passed on
      the left) delete as written never faults. */
  lemma {:induction false} DeleteAsWrittenPresent(h: Tree, key: int)
    requires DelShape(h) && Ordered(h) && key in Keys(h)
    ensures DeleteAsWritten(h, key) == Some(Delete(h, key))
    decreases |Items(h)|
  {
    if key < h.key {
      if h.left.Node? {
        var p := PushRedLeft(h);
        PushRedLeftArg(h);
        assert key in Keys(p.left) by {
          assert key !in Keys(p.right) && key != p.key;
        }
        DeleteAsWrittenPresent(p.left, key);
      }
    } else {
      var g := LeanRight(h);
      if g.right.Nil? {
        assert !IsRed(h.left) && BlackHeight(h.left) == 0;
      } else {
        var p := PushRedRight(g);
        PushRedRightArg(h);
        if key != p.key {
          assert h.left.Node? ==> h.left.key in Keys(h.left);
          assert key in Keys(p.right) by {
            assert key !in Keys(p.left);
          }
          DeleteAsWrittenPresent(p.right, key);
        }
      }
    }
  }
}
