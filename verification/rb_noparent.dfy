/** The red-black tree of rb_noparent.py (class ParentlessRbTree): the
    same insertion as red_black.py, but the nodes have no parent link. The
    descent of _bst_insert_flat pushes every node it passes on a list, and
    the fix-up loop of rb_insert pops that list to find the parent and
    grandparent; _dir_rotate is told the parent of the node it rotates. */
module RbNoParent {
  import opened RbNode
  import opened TreePaths
  import opened Arena
  import opened RedBlack

  // ----- the ancestor stack -----

  /** stack holds the nodes at the proper prefixes of q, from the root
      down: the ancestors of the position q. */
  ghost predicate Ancestors(s: Shape, q: Path, stack: seq<int>)
    decreases |q|
  {
    && |stack| == |q|
    && (q != [] ==>
          && Sub(s, q[..|q| - 1]).Node? && stack[|stack| - 1] == Sub(s, q[..|q| - 1]).key
          && Ancestors(s, q[..|q| - 1], stack[..|stack| - 1]))
  }

  /** stack.pop(): the top of the stack is the node above q. */
  lemma AncestorsTop(s: Shape, q: Path, stack: seq<int>)
    requires Ancestors(s, q, stack)
    ensures stack == [] <==> q == []
    ensures q != [] ==> stack[|stack| - 1] == ParentId(s, q, NIL)
  {
  }

  /** stack.append(node) in the descent: the node at q joins the
      ancestors of the next position. */
  lemma AncestorsPush(s: Shape, q: Path, stack: seq<int>, d: bool)
    requires Ancestors(s, q, stack) && Sub(s, q).Node?
    ensures Ancestors(s, q + [d], stack + [Sub(s, q).key])
  {
    assert (q + [d])[..|q|] == q;
    assert (stack + [Sub(s, q).key])[..|stack|] == stack;
  }

  /** Replacing a subtree strictly below q leaves the ancestors of q where
      they were. */
  lemma {:induction false} AncestorsGraft(s: Shape, q: Path, stack: seq<int>, q2: Path, x: Shape)
    requires Ancestors(s, q, stack) && q2 != []
    ensures Ancestors(Graft(s, q + q2, x), q, stack)
    decreases |q|
  {
    if q != [] {
      var pq, q2' := q[..|q| - 1], [q[|q| - 1]] + q2;
      assert q + q2 == pq + q2';
      AncestorsGraft(s, pq, stack[..|stack| - 1], q2', x);
      SubNodeOnPath(s, pq);
      SubGraftBelow(s, pq, q2', x);
    }
  }

  // ----- the descent -----

  /** The descent of _bst_insert_flat with its list of visited nodes. */
  ghost predicate Stacking(s: Shape, left: seq<int>, right: seq<int>, colour: seq<Colour>, item: seq<int>,
                           data: int, q: Path, cs: Shape, ct: Tree, node: int, stack: seq<int>, isRight: bool)
  {
    Descending(s, left, right, colour, item, data, q, cs, ct, node, ParentId(s, q, NIL), isRight)
    && Ancestors(s, q, stack)
  }

  /** One step of the descent: push the node, go towards d. */
  lemma StackingNext(s: Shape, left: seq<int>, right: seq<int>, colour: seq<Colour>, item: seq<int>,
                     data: int, q: Path, cs: Shape, ct: Tree, node: int, stack: seq<int>, isRight: bool, d: bool)
    requires Stacking(s, left, right, colour, item, data, q, cs, ct, node, stack, isRight)
    requires cs.Node? && 0 <= node < |item| && data != item[node] && d == (data > item[node])
    ensures Stacking(s, left, right, colour, item, data, q + [d], Child(cs, d), Child(ct, d),
                     IdOf(Child(cs, d)), stack + [node], d)
  {
    DescendNext(s, left, right, colour, item, data, q, cs, ct, node, ParentId(s, q, NIL), isRight, d);
    AncestorsPush(s, q, stack, d);
  }

  // ----- _dir_rotate without parent links -----

  /** The slots _dir_rotate(G, P, d) at q touches: P, its child S on the
      far side, S's inner child C (maybe NIL) and G, the node above q (NIL
      at the root); they are distinct and the links read them as the shape
      says. */
  lemma RotateSiteNp(s: Shape, q: Path, d: bool, left: seq<int>, right: seq<int>,
                     x: Shape, p: int, sn: int, c: int, g: int)
    requires Linked(s, left, right) && Distinct(s) && |left| == |right|
    requires x == Sub(s, q) && x.Node? && Child(x, !d).Node?
    requires p == x.key && sn == Child(x, !d).key && c == IdOf(Child(Child(x, !d), d))
    requires g == ParentId(s, q, NIL)
    ensures 0 <= p < |left| && 0 <= sn < |left| && (c == NIL || 0 <= c < |left|)
    ensures LinkAt(left, right, p, !d) == sn && LinkAt(left, right, sn, d) == c
    ensures g == NIL <==> q == []
    ensures p != sn && c != p && c != sn
    ensures q != [] ==>
              && 0 <= g < |left| && g != sn && g != c && g != p
              && (right[g] == p <==> q[|q| - 1])
  {
    LinkedSub(s, q, left, right);
    DistinctSub(s, q);
    if q != [] {
      SideLinks(s, q, left, right);
    }
    var y := Child(x, !d);
    assert Linked(y, left, right) && Distinct(y);
    assert p !in Keys(y) && y.key in Keys(y);
    assert Keys(Child(y, d)) <= Keys(y) && y.key !in Keys(Child(y, d));
    if c != NIL {
      assert c in Keys(Child(y, d));
      LinkedSub(y, [d], left, right);
      OneStep(y, d, Nil);
    }
  }

  /** The writes of _dir_rotate(G, P, d) at q: after them the child links
      are those of the rotated shape. */
  lemma RotateCommitNp(s: Shape, q: Path, d: bool, left: seq<int>, right: seq<int>,
                       n: int, root: int, x: Shape, r: Shape, p: int, sn: int, c: int, g: int, gs: bool,
                       left': seq<int>, right': seq<int>, root': int)
    requires Hooked(s, left, right, n, root)
    requires x == Sub(s, q) && x.Node? && Child(x, !d).Node? && r == DirRot(x, d)
    requires p == x.key && sn == Child(x, !d).key && c == IdOf(Child(Child(x, !d), d))
    requires g == ParentId(s, q, NIL) && (q != [] ==> gs == q[|q| - 1])
    requires 0 <= p < n && 0 <= sn < n && (g == NIL || 0 <= g < n)
    requires left' == (var l := SetLink(SetLink(left, p, c, d), sn, p, !d);
                       if g == NIL then l else SetLink(l, g, sn, !gs))
    requires right' == (var l := SetLink(SetLink(right, p, c, !d), sn, p, d);
                        if g == NIL then l else SetLink(l, g, sn, gs))
    requires root' == if g == NIL then sn else root
    ensures Hooked(Graft(s, q, r), left', right', n, root')
  {
    RotateSiteNp(s, q, d, left, right, x, p, sn, c, g);
    RotateLinked(s, q, d, left, right, left', right', x, r, p, sn, g);
    RotateDistinct(s, q, d);
  }

  /** The ancestor-stack red-black tree. */
  class ParentlessRbTree {
    var left: seq<int>
    var right: seq<int>
    var colour: seq<Colour>
    var item: seq<int>
    var root: int
    var size: nat
    /** The node slots as a tree; its colours carry no meaning. */
    ghost var shape: Shape

    /** The child links agree with the shape, which holds every slot once. */
    ghost predicate Links()
      reads this
    {
      |colour| == |item| && Hooked(shape, left, right, |item|, root)
    }

    /** The tree of colours and items the nodes hold. */
    ghost function Model(): Tree
      reads this
    {
      Abs(shape, colour, item)
    }

    /** The object invariant: consistent links, one node per insertion,
      and a red-black tree (whose root may be red after case I1). */
    ghost predicate Valid()
      reads this
    {
      Links() && size == |item| && IsRedBlack(Model())
    }

    constructor ()
      ensures Valid() && Model() == Nil && size == 0
    {
      left, right, colour, item := [], [], [], [];
      root, size := NIL, 0;
      shape := Nil;
    }

    /** X.colour = c on the node at q: the tree held is recoloured there. */
    method SetColour(x: int, c: Colour, ghost q: Path)
      requires Links() && Sub(shape, q).Node? && x == Sub(shape, q).key
      modifies this`colour
      ensures Links()
      ensures Model() == Recolour(old(Model()), q, c)
    {
      LinkedSub(shape, q, left, right);
      AbsRecolour(shape, q, colour, item, c);
      colour := colour[x := c];
    }

    /** _dir_rotate(G, P, isRight): P, at q below G (NIL at the root),
      is rotated towards isRight; its child S on the other side takes its
      place under G (or becomes the root). The tree held is the rotated
      one. */
    method DirRotate(G: int, P: int, isRight: bool, ghost q: Path) returns (S: int)
      requires Links() && Sub(shape, q).Node? && P == Sub(shape, q).key
      requires Child(Sub(shape, q), !isRight).Node? && G == ParentId(shape, q, NIL)
      modifies this`left, this`right, this`root, this`shape
      ensures Links()
      ensures shape == Graft(old(shape), q, DirRot(Sub(old(shape), q), isRight))
      ensures Model() == Graft(old(Model()), q, DirRot(Sub(old(Model()), q), isRight))
      ensures S == Child(Sub(old(shape), q), !isRight).key
    {
      ghost var s0, l0, r0, root0 := shape, left, right, root;
      ghost var x := Sub(shape, q);
      ghost var c := IdOf(Child(Child(x, !isRight), isRight));
      RotateSiteNp(shape, q, isRight, left, right, x, P, Child(x, !isRight).key, c, G);
      S := GetChild(left, right, P, !isRight, shape, q);
      var C := GetChild(left, right, S, isRight, shape, q + [!isRight]);
      left, right := SetLink(left, P, C, isRight), SetLink(right, P, C, !isRight);
      left, right := SetLink(left, S, P, !isRight), SetLink(right, S, P, isRight);
      var gs := false;
      if G != NIL {
        gs := P == right[G];
        left, right := SetLink(left, G, S, !gs), SetLink(right, G, S, gs);
      } else {
        root := S;
      }
      shape := Graft(shape, q, DirRot(x, isRight));
      RotateCommitNp(s0, q, isRight, l0, r0, |item|, root0, x, DirRot(x, isRight), P, S, C, G, gs,
                     left, right, root);
      AbsRotated(s0, q, isRight, colour, item);
    }

    /** uncle(g, p) of rb_insert: the child of g that is not p. */
    function Uncle(g: int, p: int, ghost qG: Path, ghost dP: bool): (u: int)
      reads this
      requires Links() && Sub(shape, qG + [dP]).Node? && p == Sub(shape, qG + [dP]).key
      requires Sub(shape, qG).Node? && g == Sub(shape, qG).key
      ensures u == IdOf(Sub(shape, qG + [!dP]))
    {
      assert (qG + [dP])[..|qG|] == qG;
      SideLinks(shape, qG + [dP], left, right);
      if p == left[g] then right[g] else left[g]
    }

    /** The descent of _bst_insert_flat: from the root, left below a
      larger item and right otherwise, pushing every node passed, until
      data is found or the walk falls off the tree. When data is absent,
      the walk's path is its search path, the stack holds the nodes on it
      and isRight is the side it fell off on. */
    method Descend(data: int) returns (found: bool, stack: seq<int>, isRight: bool, ghost q: Path)
      requires Valid()
      ensures found <==> data in Keys(Model())
      ensures !found ==> q == SearchPath(Model(), data) && Ancestors(shape, q, stack)
      ensures !found && q != [] ==> isRight == q[|q| - 1]
    {
      var node := root;
      isRight := false;
      stack := [];
      q := [];
      ghost var cs := shape;
      ghost var ct := Model();
      assert [] + SearchPath(ct, data) == SearchPath(ct, data);
      while node != NIL
        invariant Stacking(shape, left, right, colour, item, data, q, cs, ct, node, stack, isRight)
        decreases cs
      {
        DescendAt(shape, left, right, colour, item, data, q, cs, ct, node, ParentId(shape, q, NIL), isRight);
        if data < item[node] {
          StackingNext(shape, left, right, colour, item, data, q, cs, ct, node, stack, isRight, false);
          stack := stack + [node];
          node := left[node];
          isRight := false;
          q := q + [false];
          cs, ct := cs.left, ct.left;
        } else if data == item[node] {
          return true, stack + [node], isRight, q;
        } else {
          StackingNext(shape, left, right, colour, item, data, q, cs, ct, node, stack, isRight, true);
          stack := stack + [node];
          node := right[node];
          isRight := true;
          q := q + [true];
          cs, ct := cs.right, ct.right;
        }
      }
      DescendEnd(shape, left, right, colour, item, data, q, cs, ct, node, ParentId(shape, q, NIL), isRight);
      found := false;
    }

    /** _bst_insert_flat (what insert runs): an item already present
      returns with nothing changed; otherwise size grows by one and
      rb_insert adds a node holding data where the descent ended and
      rebalances. Either way the tree holds the old items plus data and
      stays a red-black tree. */
    method BstInsertFlat(data: int)
      requires Valid()
      modifies this
      ensures Valid()
      ensures Keys(Model()) == old(Keys(Model())) + {data}
      ensures data in old(Keys(Model())) ==>
                && left == old(left) && right == old(right) && colour == old(colour)
                && item == old(item) && root == old(root) && size == old(size)
      ensures data !in old(Keys(Model())) ==> size == old(size) + 1
      ensures old(Model()) == Nil ==> Model() == Node(Black, Nil, data, Nil)
    {
      var found, stack, isRight, q := Descend(data);
      if found {
        return;
      }
      size := size + 1;
      RbInsert(stack, data, isRight, q);
    }

    /** rb_insert: a new red node N holding data is made in the next slot.
      With an empty stack (an empty tree) it becomes the root, coloured
      black; otherwise the top of the stack is its parent P, it hangs on
      side isRight, and the fix-up walks up from it. The tree held ends as
      a red-black tree with data added. */
    method RbInsert(stack: seq<int>, data: int, isRight: bool, ghost q: Path)
      requires Links() && IsRedBlack(Model()) && size == |item| + 1
      requires data !in Keys(Model()) && q == SearchPath(Model(), data)
      requires Ancestors(shape, q, stack) && (q != [] ==> isRight == q[|q| - 1])
      modifies this
      ensures Valid() && item == old(item) + [data] && size == old(size)
      ensures Keys(Model()) == old(Keys(Model())) + {data}
      ensures stack == [] ==> Model() == Node(Black, Nil, data, Nil)
    {
      AncestorsTop(shape, q, stack);
      ghost var par := ParentId(shape, q, NIL);
      ghost var keys := Keys(Model()) + {data};
      AppendSlot(shape, left, right, colour, item, root, data, q, par, isRight);
      var N := |item|;
      left, right, colour, item := left + [NIL], right + [NIL], colour + [Red], item + [data];
      ghost var s0, l0, r0, c0, root0 := shape, left, right, colour, root;
      assert l0[N := NIL] == l0 && r0[N := NIL] == r0 && c0[N := Red] == c0;
      assert keys == Keys(Abs(s0, c0, item)) + {item[N]};
      assert size == |item|;
      if stack == [] {
        root := N;
        colour := colour[N := Black];
        shape := Node(Black, Nil, N, Nil);
        FirstLeaf(s0, l0, r0, c0, item, root0, q, par, isRight, left, right, colour, Black);
        assert Keys(Model()) == keys;
        return;
      }
      var P := stack[|stack| - 1];
      LinkedSub(shape, q[..|q| - 1], left, right);
      Attach(P, N, stack[..|stack| - 1], isRight, q);
    }

    /** P.set_child(N, is_right) and the fix-up loop of rb_insert: the
      new node N, in the last slot, hangs below P where the search for its
      item ended, with the rest of the stack holding P's ancestors. */
    method Attach(P: int, N: int, stack: seq<int>, isRight: bool, ghost q: Path)
      requires Hangable(shape, left, right, colour, item, root, q, P, isRight) && P != NIL
      requires N == |item| - 1 && left[N] == NIL && right[N] == NIL && colour[N] == Red
      requires q != [] && Ancestors(shape, q[..|q| - 1], stack)
      modifies this`left, this`right, this`root, this`shape, this`colour
      ensures Links() && IsRedBlack(Model())
      ensures Keys(Model()) == old(Keys(Model())) + {item[N]}
    {
      ghost var s0, l0, r0, c0 := shape, left, right, colour;
      assert l0[N := NIL] == l0 && r0[N := NIL] == r0 && c0[N := Red] == c0;
      left, right := SetLink(left, P, N, !isRight), SetLink(right, P, N, isRight);
      shape := Graft(shape, q, Node(Black, Nil, N, Nil));
      HangHooked(s0, l0, r0, c0, item, root, q, P, isRight, left, right, shape);
      HangTree(s0, l0, r0, c0, item, root, q, P, isRight, colour, shape);
      assert q == q[..|q| - 1] + [q[|q| - 1]];
      AncestorsGraft(s0, q[..|q| - 1], stack, [q[|q| - 1]], Node(Black, Nil, N, Nil));
      FixUp(N, P, stack, q);
    }

    /** The nodes N at q and P, its parent, as the fix-up loop of
      rb_insert sees them, with the stack holding P's ancestors: the tree
      held satisfies the loop invariant at N. */
    ghost predicate Climbing(n: int, p: int, stack: seq<int>, q: Path)
      reads this
    {
      && Links() && q != [] && Fixing(Model(), q)
      && Sub(shape, q).Node? && n == Sub(shape, q).key
      && Sub(shape, q[..|q| - 1]).Node? && p == Sub(shape, q[..|q| - 1]).key
      && Ancestors(shape, q[..|q| - 1], stack)
    }

    /** The fix-up loop of rb_insert, walking up from N. P black (I3):
      done. No grandparent left on the stack (I6): P turns black. P and
      the uncle red (I1): P and the uncle turn black, G red, and the walk
      goes on from G while the stack is not empty. P red and the uncle not:
      cases I4 and I5. */
    method FixUp(n0: int, p0: int, stack0: seq<int>, ghost q0: Path)
      requires Climbing(n0, p0, stack0, q0)
      modifies this`left, this`right, this`root, this`shape, this`colour
      ensures Links() && IsRedBlack(Model()) && Keys(Model()) == old(Keys(Model()))
    {
      ghost var keys := Keys(Model());
      var n, p, stack := n0, p0, stack0;
      ghost var qN := q0;
      while true
        invariant Climbing(n, p, stack, qN) && Keys(Model()) == keys
        decreases |qN|
      {
        ghost var pq := qN[..|qN| - 1];
        ghost var t := Model();
        AbsSub(shape, pq, colour, item);
        LinkedSub(shape, pq, left, right);
        if colour[p] == Black {
          FixStop(t, qN);
          return;
        }
        AncestorsTop(shape, pq, stack);
        if stack == [] {
          assert qN == [qN[0]];
          SetColour(p, Black, pq);
          FixRoot(t, qN[0]);
          return;
        }
        var g := stack[|stack| - 1];
        stack := stack[..|stack| - 1];
        PrefixOfPrefix(qN);
        ghost var qG, dP, dN := qN[..|qN| - 2], qN[|qN| - 2], qN[|qN| - 1];
        OutSite(shape, qG, dP, dN, left, right);
        var u := Uncle(g, p, qG, dP);
        AbsSub(shape, qG + [!dP], colour, item);
        SubKeys(shape, qG + [!dP]);
        if u == NIL || colour[u] == Black {
          RotateOut(n, p, g, stack, qG, dP, dN);
          return;
        }
        SetColour(p, Black, qG + [dP]);
        SetColour(u, Black, qG + [!dP]);
        SetColour(g, Red, qG);
        FixI1(t, qG, dP, dN);
        AncestorsTop(shape, qG, stack);
        if stack != [] {
          n := g;
          p := stack[|stack| - 1];
          stack := stack[..|stack| - 1];
          qN := qG;
        } else {
          return;
        }
      }
    }

    /** Cases I4 and I5 of rb_insert: P is red and the uncle is not. An
      inner N is first rotated above P (I4); then P turns black, G red,
      and G is rotated away from P under GP, the top of the stack (I5),
      which ends the insertion with a red-black tree holding the same
      items. */
    method RotateOut(n: int, p: int, g: int, stack: seq<int>, ghost qG: Path, ghost dP: bool, ghost dN: bool)
      requires Links() && Fixing(Model(), qG + [dP, dN])
      requires Sub(shape, qG + [dP, dN]).Node? && n == Sub(shape, qG + [dP, dN]).key
      requires Sub(shape, qG + [dP]).Node? && p == Sub(shape, qG + [dP]).key
      requires Sub(shape, qG).Node? && g == Sub(shape, qG).key && Ancestors(shape, qG, stack)
      requires IsRed(Sub(Model(), qG + [dP])) && !IsRed(Sub(Model(), qG + [!dP]))
      modifies this`left, this`right, this`root, this`shape, this`colour
      ensures Links() && IsRedBlack(Model()) && Keys(Model()) == old(Keys(Model()))
    {
      ghost var t := Model();
      ghost var pq := qG + [dP];
      OutSite(shape, qG, dP, dN, left, right);
      SideLinks(shape, pq, left, right);
      assert pq[..|qG|] == qG;
      var pRight := p == right[g];
      var p' := p;
      if n == GetChild(left, right, p, !pRight, shape, pq) {
        ghost var s1 := shape;
        var _ := DirRotate(g, p, pRight, pq);
        FixI4(t, qG, dP);
        InnerSite(s1, qG, dP, shape);
        AncestorsGraft(s1, qG, stack, [dP], DirRot(Sub(s1, pq), dP));
        LinkedSub(shape, qG, left, right);
        p' := GetChild(left, right, g, pRight, shape, qG);
      }
      ghost var t1 := Model();
      SetColour(p', Black, pq);
      SetColour(g, Red, qG);
      AncestorsTop(shape, qG, stack);
      var gp := if stack != [] then stack[|stack| - 1] else NIL;
      var _ := DirRotate(gp, g, !pRight, qG);
      FixI5(t1, qG, dP);
    }

    /** to_list / inorder: every item once, in ascending order. */
    method ToList() returns (xs: seq<int>)
      requires Valid()
      ensures xs == Items(Model())
      ensures StrictlyIncreasing(xs) && forall x :: x in xs <==> x in Keys(Model())
    {
      xs := InOrder(left, right, colour, item, root, shape);
      OrderedItemsSorted(Model());
      ItemsKeys(Model());
    }

    /** contains: true exactly when x is stored. */
    method Contains(x: int) returns (found: bool)
      requires Valid()
      ensures found <==> x in Keys(Model())
    {
      found := Arena.Contains(left, right, colour, item, root, shape, x);
    }
  }
}
