/** Linked nodes held in parallel sequences. A node object is a slot number
    0, 1, 2, ...: its fields are `left[x]`, `right[x]`, `parent[x]`,
    `colour[x]` and `item[x]`, a missing child or parent is NIL, and `is`
    on nodes is equality of slots. The ghost shape of a linked tree is a
    Tree whose keys are the slots of its nodes (its colours carry no
    meaning); Abs reads the colours and items the slots hold into the tree
    value the rest of the model reasons about. This module also holds what
    the two linked engines share: get_child, is_red, and the read-only
    walks inorder/to_list and contains. */
module Arena {
  import opened RbNode
  import opened TreePaths

  /** The null reference. */
  const NIL: int := -1

  /** The ghost shape of a linked tree: a tree of slot numbers. */
  type Shape = Tree

  function IdOf(s: Shape): int
  {
    if s.Nil? then NIL else s.key
  }

  /** The shape holds exactly the slots 0 .. n-1. */
  ghost predicate Allocated(s: Shape, n: int)
  {
    forall i :: i in Keys(s) <==> 0 <= i < n
  }

  /** No slot occurs twice in the shape: distinct nodes are distinct
      objects. */
  ghost predicate Distinct(s: Shape)
  {
    s.Node? ==>
      && Distinct(s.left) && Distinct(s.right)
      && Keys(s.left) !! Keys(s.right)
      && s.key !in Keys(s.left) && s.key !in Keys(s.right)
  }

  /** Every node's child links point at its children in the shape. */
  ghost predicate Linked(s: Shape, left: seq<int>, right: seq<int>)
  {
    s.Node? ==>
      && 0 <= s.key < |left| && s.key < |right|
      && left[s.key] == IdOf(s.left) && right[s.key] == IdOf(s.right)
      && Linked(s.left, left, right) && Linked(s.right, left, right)
  }

  /** Every node's parent link points at its parent in the shape; the top
      node's points at up. */
  ghost predicate Parented(s: Shape, up: int, parent: seq<int>)
  {
    s.Node? ==>
      && 0 <= s.key < |parent| && parent[s.key] == up
      && Parented(s.left, s.key, parent) && Parented(s.right, s.key, parent)
  }

  /** The tree of colours and items held by the linked nodes. */
  ghost function Abs(s: Shape, colour: seq<Colour>, item: seq<int>): (t: Tree)
    ensures t.Nil? <==> s.Nil?
  {
    if s.Nil? then Nil
    else
      Node(if 0 <= s.key < |colour| then colour[s.key] else Black,
           Abs(s.left, colour, item),
           if 0 <= s.key < |item| then item[s.key] else 0,
           Abs(s.right, colour, item))
  }

  /** The slot of the parent of the node at q (up for the top node). */
  ghost function ParentId(s: Shape, q: Path, up: int): int
  {
    if q == [] then up else IdOf(Sub(s, q[..|q| - 1]))
  }

  // ----- the abstraction commutes with paths -----

  lemma {:induction false} AbsSub(s: Shape, q: Path, colour: seq<Colour>, item: seq<int>)
    ensures Abs(Sub(s, q), colour, item) == Sub(Abs(s, colour, item), q)
    decreases |q|
  {
    if q != [] && s.Node? {
      AbsSub(Child(s, q[0]), q[1..], colour, item);
    }
  }

  lemma {:induction false} AbsGraft(s: Shape, q: Path, x: Shape, colour: seq<Colour>, item: seq<int>)
    ensures Abs(Graft(s, q, x), colour, item) == Graft(Abs(s, colour, item), q, Abs(x, colour, item))
    decreases |q|
  {
    if q != [] && s.Node? {
      AbsGraft(Child(s, q[0]), q[1..], x, colour, item);
    }
  }

  lemma AbsRot(x: Shape, right: bool, colour: seq<Colour>, item: seq<int>)
    ensures Abs(DirRot(x, right), colour, item) == DirRot(Abs(x, colour, item), right)
  {
  }

  /** Writing a slot outside the shape changes nothing the shape holds. */
  lemma {:induction false} AbsUpdate(s: Shape, colour: seq<Colour>, item: seq<int>, i: int, c: Colour)
    requires 0 <= i < |colour| && i !in Keys(s)
    ensures Abs(s, colour[i := c], item) == Abs(s, colour, item)
  {
    if s.Node? {
      AbsUpdate(s.left, colour, item, i, c);
      AbsUpdate(s.right, colour, item, i, c);
    }
  }

  /** Adding a slot changes nothing the shape holds. */
  lemma {:induction false} AbsAppend(s: Shape, colour: seq<Colour>, item: seq<int>, c: Colour, k: int)
    requires (forall i :: i in Keys(s) ==> 0 <= i < |colour|) && |item| == |colour|
    ensures Abs(s, colour + [c], item + [k]) == Abs(s, colour, item)
  {
    if s.Node? {
      assert s.key in Keys(s);
      assert Keys(s.left) <= Keys(s) && Keys(s.right) <= Keys(s);
      AbsAppend(s.left, colour, item, c, k);
      AbsAppend(s.right, colour, item, c, k);
    }
  }

  /** Writing the colour of the node at q recolours the tree at q. */
  lemma {:induction false} AbsRecolour(s: Shape, q: Path, colour: seq<Colour>, item: seq<int>, c: Colour)
    requires Distinct(s) && Sub(s, q).Node? && 0 <= Sub(s, q).key < |colour|
    ensures Abs(s, colour[Sub(s, q).key := c], item) == Recolour(Abs(s, colour, item), q, c)
    decreases |q|
  {
    var id := Sub(s, q).key;
    AbsSub(s, q, colour, item);
    if q == [] {
      AbsUpdate(s.left, colour, item, id, c);
      AbsUpdate(s.right, colour, item, id, c);
    } else {
      var ch := Child(s, q[0]);
      SubKeys(ch, q[1..]);
      AbsRecolour(ch, q[1..], colour, item, c);
      AbsUpdate(Child(s, !q[0]), colour, item, id, c);
      RecolourStep(Abs(s, colour, item), q, c);
    }
  }

  /** A path reaches as far into the shape as into the tree it holds. */
  lemma {:induction false} AbsOnPath(s: Shape, q: Path, colour: seq<Colour>, item: seq<int>)
    ensures OnPath(Abs(s, colour, item), q) <==> OnPath(s, q)
    decreases |q|
  {
    if q != [] && s.Node? {
      AbsOnPath(Child(s, q[0]), q[1..], colour, item);
    }
  }

  /** The rotation at q seen through the abstraction: the tree held is
      rotated at the same place. */
  lemma AbsRotated(s: Shape, q: Path, d: bool, colour: seq<Colour>, item: seq<int>)
    ensures Abs(Graft(s, q, DirRot(Sub(s, q), d)), colour, item)
            == Graft(Abs(s, colour, item), q, DirRot(Sub(Abs(s, colour, item), q), d))
  {
    AbsGraft(s, q, DirRot(Sub(s, q), d), colour, item);
    AbsSub(s, q, colour, item);
    AbsRot(Sub(s, q), d, colour, item);
  }

  // ----- links below a path -----

  lemma {:induction false} LinkedSub(s: Shape, q: Path, left: seq<int>, right: seq<int>)
    requires Linked(s, left, right)
    ensures Linked(Sub(s, q), left, right)
    decreases |q|
  {
    if q != [] && s.Node? {
      LinkedSub(Child(s, q[0]), q[1..], left, right);
    }
  }

  lemma {:induction false} DistinctSub(s: Shape, q: Path)
    requires Distinct(s)
    ensures Distinct(Sub(s, q))
    decreases |q|
  {
    if q != [] && s.Node? {
      DistinctSub(Child(s, q[0]), q[1..]);
    }
  }

  lemma {:induction false} ParentedSub(s: Shape, q: Path, up: int, parent: seq<int>)
    requires Parented(s, up, parent)
    ensures Parented(Sub(s, q), ParentId(s, q, up), parent)
    decreases |q|
  {
    if q != [] && s.Node? {
      var c := Child(s, q[0]);
      ParentedSub(c, q[1..], s.key, parent);
      if |q| > 1 {
        assert q[..|q| - 1][1..] == q[1..][..|q[1..]| - 1];
      }
    }
  }

  /** The child link of the node at q points at the node one step down. */
  lemma LinkedChild(s: Shape, q: Path, left: seq<int>, right: seq<int>, d: bool)
    requires Linked(s, left, right) && Sub(s, q).Node?
    ensures 0 <= Sub(s, q).key < |left| && Sub(s, q).key < |right|
    ensures (if d then right else left)[Sub(s, q).key] == IdOf(Sub(s, q + [d]))
  {
    LinkedSub(s, q, left, right);
    SubAppend(s, q, [d]);
    OneStep(Sub(s, q), d, Nil);
  }

  lemma LinkedChildOnPath(s: Shape, q: Path, left: seq<int>, right: seq<int>, d: bool)
    ensures Linked(s, left, right) && Sub(s, q).Node? ==>
              0 <= Sub(s, q).key < |left| && Sub(s, q).key < |right|
              && (if d then right else left)[Sub(s, q).key] == IdOf(Sub(s, q + [d]))
  {
    if Linked(s, left, right) && Sub(s, q).Node? {
      LinkedChild(s, q, left, right, d);
    }
  }

  // ----- frames -----

  lemma {:induction false} LinkedFrame(s: Shape, left: seq<int>, right: seq<int>, left': seq<int>, right': seq<int>)
    requires Linked(s, left, right) && |left| <= |left'| && |right| <= |right'|
    requires forall i :: i in Keys(s) && 0 <= i < |left| && i < |right| ==>
               left'[i] == left[i] && right'[i] == right[i]
    ensures Linked(s, left', right')
  {
    if s.Node? {
      LinkedFrame(s.left, left, right, left', right');
      LinkedFrame(s.right, left, right, left', right');
    }
  }

  lemma {:induction false} ParentedFrame(s: Shape, up: int, parent: seq<int>, parent': seq<int>)
    requires Parented(s, up, parent) && |parent| <= |parent'|
    requires forall i :: i in Keys(s) && 0 <= i < |parent| ==> parent'[i] == parent[i]
    ensures Parented(s, up, parent')
  {
    if s.Node? {
      ParentedFrame(s.left, s.key, parent, parent');
      ParentedFrame(s.right, s.key, parent, parent');
    }
  }

  /** Replacing the subtree at q by x, whose slots are the replaced ones or
      fresh, keeps slots distinct and trades the replaced slots for x's. */
  lemma {:induction false} DistinctGraft(s: Shape, q: Path, x: Shape)
    requires Distinct(s) && Distinct(x) && OnPath(s, q)
    requires Keys(x) !! (Keys(s) - Keys(Sub(s, q)))
    ensures Distinct(Graft(s, q, x))
    ensures Keys(Graft(s, q, x)) == (Keys(s) - Keys(Sub(s, q))) + Keys(x)
    decreases |q|
  {
    if q != [] {
      var c := Child(s, q[0]);
      SubKeys(c, q[1..]);
      DistinctGraft(c, q[1..], x);
    }
  }

  /** Child links after replacing the subtree at q (below a node) by x:
      x is linked, its new parent's link on that side points at it, and
      nothing else outside the replaced subtree changed. */
  lemma {:induction false} LinkedGraft(s: Shape, q: Path, x: Shape,
                                       left: seq<int>, right: seq<int>, left': seq<int>, right': seq<int>,
                                       pid: int)
    requires q != [] && Sub(s, q[..|q| - 1]).Node? && pid == Sub(s, q[..|q| - 1]).key
    requires Linked(s, left, right) && Distinct(s) && Linked(x, left', right')
    requires |left| <= |left'| && |right| <= |right'|
    requires forall i :: (i in Keys(s) && i !in Keys(Sub(s, q)) && i != pid
               && 0 <= i < |left| && i < |right|) ==> left'[i] == left[i] && right'[i] == right[i]
    requires 0 <= pid < |left| && pid < |right|
    requires LinkAt(left', right', pid, q[|q| - 1]) == IdOf(x)
    requires LinkAt(left', right', pid, !q[|q| - 1]) == LinkAt(left, right, pid, !q[|q| - 1])
    ensures Linked(Graft(s, q, x), left', right')
    decreases |q|
  {
    var pq := q[..|q| - 1];
    SubNodeOnPath(s, pq);
    assert s.Node?;
    var d := q[0];
    var c, o := Child(s, d), Child(s, !d);
    SubKeys(c, q[1..]);
    assert Sub(s, q) == Sub(c, q[1..]);
    var g := Graft(c, q[1..], x);
    assert Graft(s, q, x) == WithChild(s, d, g);
    assert Keys(o) !! Keys(c) && s.key !in Keys(o);
    if |q| == 1 {
      assert pq == [];
      LinkedFrame(o, left, right, left', right');
      assert g == x;
    } else {
      assert pq[1..] == q[1..][..|q[1..]| - 1];
      assert Sub(s, pq) == Sub(c, pq[1..]);
      SubKeys(c, pq[1..]);
      LinkedFrame(o, left, right, left', right');
      LinkedGraft(c, q[1..], x, left, right, left', right', pid);
      SubNodeOnPath(c, pq[1..]);
      assert c.Node? && IdOf(g) == IdOf(c);
      assert s.key in Keys(s) && s.key !in Keys(c);
    }
    LinkedWithChild(s, d, g, left', right');
  }

  /** Hanging a linked subtree g as the d-child of s, with s's own links
      pointing at g and at its other child, gives a linked tree. */
  lemma LinkedWithChild(s: Shape, d: bool, g: Shape, left': seq<int>, right': seq<int>)
    requires s.Node? && Linked(g, left', right') && Linked(Child(s, !d), left', right')
    requires 0 <= s.key < |left'| && s.key < |right'|
    requires LinkAt(left', right', s.key, d) == IdOf(g)
    requires LinkAt(left', right', s.key, !d) == IdOf(Child(s, !d))
    ensures Linked(WithChild(s, d, g), left', right')
  {
  }

  /** Parent links after replacing the subtree at q by x: x's top points at
      the node above q, and nothing outside the replaced subtree changed. */
  lemma {:induction false} ParentedGraft(s: Shape, q: Path, x: Shape, up: int,
                                         parent: seq<int>, parent': seq<int>)
    requires Parented(s, up, parent) && Distinct(s) && |parent| <= |parent'|
    requires q == [] || Sub(s, q[..|q| - 1]).Node?
    requires Parented(x, ParentId(s, q, up), parent')
    requires forall i :: i in Keys(s) && i !in Keys(Sub(s, q)) && 0 <= i < |parent| ==>
               parent'[i] == parent[i]
    ensures Parented(Graft(s, q, x), up, parent')
    decreases |q|
  {
    if q != [] {
      var pq := q[..|q| - 1];
      SubNodeOnPath(s, pq);
      assert s.Node?;
      var c, o := Child(s, q[0]), Child(s, !q[0]);
      SubKeys(c, q[1..]);
      assert Sub(s, q) == Sub(c, q[1..]);
      ParentedFrame(o, s.key, parent, parent');
      if |q| == 1 {
        assert pq == [];
        assert Graft(c, q[1..], x) == x;
      } else {
        assert pq[1..] == q[1..][..|q[1..]| - 1];
        assert Sub(s, pq) == Sub(c, pq[1..]);
        ParentedGraft(c, q[1..], x, s.key, parent, parent');
      }
    }
  }

  /** The links a rotation leaves, given the three moved subtrees are
      linked. */
  lemma LinkedRotated(x: Shape, d: bool, left': seq<int>, right': seq<int>, sn: Shape)
    requires x.Node? && sn == Child(x, !d) && sn.Node?
    requires Linked(Child(x, d), left', right') && Linked(sn.left, left', right') && Linked(sn.right, left', right')
    requires 0 <= x.key < |left'| && x.key < |right'| && 0 <= sn.key < |left'| && sn.key < |right'|
    requires LinkAt(left', right', x.key, !d) == IdOf(Child(sn, d))
    requires LinkAt(left', right', x.key, d) == IdOf(Child(x, d))
    requires LinkAt(left', right', sn.key, !d) == IdOf(Child(sn, !d))
    requires LinkAt(left', right', sn.key, d) == x.key
    ensures Linked(DirRot(x, d), left', right')
  {
    DirRotShape(x, d);
  }

  /** _dir_rotate's parent writes: S takes p's parent, p's parent is S, and
      S's inner child (if any) now has p as its parent. */
  lemma ParentedRot(x: Shape, d: bool, up: int, parent: seq<int>, parent': seq<int>,
                     p: int, sk: int, c: int)
    requires Parented(x, up, parent) && Distinct(x) && x.Node? && Child(x, !d).Node?
    requires p == x.key && sk == Child(x, !d).key && c == IdOf(Child(Child(x, !d), d))
    requires |parent| <= |parent'|
    requires 0 <= p < |parent| && 0 <= sk < |parent| && (c != NIL ==> 0 <= c < |parent|)
    requires forall i :: (i in Keys(x) && i != p && i != sk && i != c && 0 <= i < |parent|) ==>
               parent'[i] == parent[i]
    requires parent'[sk] == up && parent'[p] == sk && (c != NIL ==> parent'[c] == p)
    ensures Parented(DirRot(x, d), up, parent')
  {
    var sn := Child(x, !d);
    var o, inner, outer := Child(x, d), Child(sn, d), Child(sn, !d);
    assert Parented(sn, p, parent) && Distinct(sn);
    assert p !in Keys(sn) && sn.key !in Keys(o);
    ParentedFrame(o, p, parent, parent');
    ParentedFrame(outer, sn.key, parent, parent');
    var inner' := inner;
    if inner.Node? {
      assert Parented(inner, sn.key, parent) && Distinct(inner);
      assert inner.key !in Keys(inner.left) && inner.key !in Keys(inner.right);
      ParentedFrame(inner.left, inner.key, parent, parent');
      ParentedFrame(inner.right, inner.key, parent, parent');
      assert Parented(inner, p, parent');
    }
    if d {
      assert Parented(Node(x.colour, inner, p, o), sn.key, parent');
    } else {
      assert Parented(Node(x.colour, o, p, inner), sn.key, parent');
    }
  }

  lemma DistinctRot(x: Shape, d: bool)
    requires Distinct(x)
    ensures Distinct(DirRot(x, d)) && Keys(DirRot(x, d)) == Keys(x)
  {
  }

  // ----- shared node operations -----

  /** get_child: the link on the given side. Read along the shape, it is
      the node one step down from the node at q. */
  function GetChild(left: seq<int>, right: seq<int>, x: int, isRight: bool, ghost s: Shape, ghost q: Path): (c: int)
    requires 0 <= x < |left| && x < |right|
    ensures Linked(s, left, right) && Sub(s, q).Node? && x == Sub(s, q).key ==>
              c == IdOf(Sub(s, q + [isRight]))
  {
    LinkedChildOnPath(s, q, left, right, isRight);
    if isRight then right[x] else left[x]
  }

  /** is_red on a slot: false for NIL, otherwise whether the node is red.
      Read along the shape, it is IsRed of the subtree at q. */
  function IsRedAt(colour: seq<Colour>, x: int, ghost s: Shape, ghost q: Path, ghost item: seq<int>): (r: bool)
    requires x == NIL || 0 <= x < |colour|
    ensures x == IdOf(Sub(s, q)) && (Sub(s, q).Node? ==> x < |colour|) ==>
              (r <==> IsRed(Sub(Abs(s, colour, item), q)))
  {
    AbsSub(s, q, colour, item);
    x != NIL && colour[x] == Red
  }

  // ----- parents and sides -----

  /** The parent link of the node at q is the node one step up, NIL for
      the root. */
  lemma ParentLinks(s: Shape, q: Path, parent: seq<int>)
    requires Parented(s, NIL, parent) && Sub(s, q).Node?
    ensures 0 <= Sub(s, q).key < |parent| && parent[Sub(s, q).key] == ParentId(s, q, NIL)
    ensures q != [] ==> Sub(s, q[..|q| - 1]).Node? && ParentId(s, q, NIL) == Sub(s, q[..|q| - 1]).key
    ensures q != [] ==> 0 <= ParentId(s, q, NIL)
    ensures q == [] ==> ParentId(s, q, NIL) == NIL
  {
    ParentedSub(s, q, NIL, parent);
    if q != [] {
      assert q == q[..|q| - 1] + [q[|q| - 1]];
      SubPrefixNode(s, q[..|q| - 1], [q[|q| - 1]]);
      ParentedSub(s, q[..|q| - 1], NIL, parent);
    }
  }

  /** Which side of its parent the node at q hangs on, as the links see
      it, and the slot of its sibling. */
  lemma SideLinks(s: Shape, q: Path, left: seq<int>, right: seq<int>)
    requires Linked(s, left, right) && Distinct(s) && q != [] && Sub(s, q).Node?
    ensures Sub(s, q[..|q| - 1]).Node?
    ensures var g, n := Sub(s, q[..|q| - 1]).key, Sub(s, q).key;
      && 0 <= g < |left| && g < |right| && n != NIL
      && (right[g] == n <==> q[|q| - 1]) && (left[g] == n <==> !q[|q| - 1])
      && (if q[|q| - 1] then left[g] else right[g]) == IdOf(Sub(s, q[..|q| - 1] + [!q[|q| - 1]]))
      && g !in Keys(Sub(s, q))
  {
    var pq, d := q[..|q| - 1], q[|q| - 1];
    assert q == pq + [d];
    SubPrefixNode(s, pq, [d]);
    var gs := Sub(s, pq);
    SubAppend(s, pq, [d]);
    SubAppend(s, pq, [!d]);
    OneStep(gs, d, Nil);
    OneStep(gs, !d, Nil);
    LinkedSub(s, pq, left, right);
    DistinctSub(s, pq);
    LinkedSub(s, q, left, right);
    assert Sub(s, q).key in Keys(Child(gs, d));
  }

  // ----- _dir_rotate on linked nodes -----

  /** The child links after _dir_rotate of the node p at q towards side d:
      p takes its raised child's inner child c on the far side, the raised
      child sn takes p on side d, and p's parent g (when there is one) takes
      sn on p's side; no other link changes. The nodes then form the shape
      rotated at q. */
  lemma RotateLinked(s: Shape, q: Path, d: bool, left: seq<int>, right: seq<int>,
                     left': seq<int>, right': seq<int>, x: Shape, r: Shape, p: int, sn: int, g: int)
    requires Linked(s, left, right) && Distinct(s)
    requires x == Sub(s, q) && x.Node? && Child(x, !d).Node? && r == DirRot(x, d)
    requires p == x.key && sn == Child(x, !d).key && g == ParentId(s, q, NIL)
    requires |left'| == |left| == |right| == |right'|
    requires 0 <= p < |left| && 0 <= sn < |left| && (q != [] ==> 0 <= g < |left|)
    requires forall i :: 0 <= i < |left| && i != p && i != sn && i != g ==>
               left'[i] == left[i] && right'[i] == right[i]
    requires LinkAt(left', right', p, !d) == IdOf(Child(Child(x, !d), d))
    requires LinkAt(left', right', p, d) == LinkAt(left, right, p, d)
    requires LinkAt(left', right', sn, d) == p
    requires LinkAt(left', right', sn, !d) == LinkAt(left, right, sn, !d)
    requires q != [] ==>
               && LinkAt(left', right', g, q[|q| - 1]) == sn
               && LinkAt(left', right', g, !q[|q| - 1]) == LinkAt(left, right, g, !q[|q| - 1])
    ensures Linked(Graft(s, q, r), left', right')
  {
    LinkedSub(s, q, left, right);
    DistinctSub(s, q);
    if q != [] {
      SideLinks(s, q, left, right);
      assert Sub(s, q[..|q| - 1]).key == g;
    }
    RotateLinkedHere(x, d, g, left, right, left', right', p, sn);
    if q != [] {
      var sc := Child(x, !d);
      assert sc.key in Keys(sc);
      assert p in Keys(x) && sn in Keys(x);
      DirRotShape(x, d);
      assert IdOf(r) == sn;
      LinkedGraft(s, q, r, left, right, left', right', g);
    }
  }

  /** set_child on a sequence of links: the slot x now holds c when this
      side is the one written. */
  function SetLink(links: seq<int>, x: int, c: int, write: bool): seq<int>
    requires 0 <= x < |links|
  {
    if write then links[x := c] else links
  }

  /** The link on one side of slot i. */
  function LinkAt(left: seq<int>, right: seq<int>, i: int, side: bool): int
    requires 0 <= i < |left| && i < |right|
  {
    if side then right[i] else left[i]
  }

  /** RotateLinked on the rotated subtree alone; g is the slot above it
      (NIL at the top), which is not one of its slots. */
  lemma RotateLinkedHere(x: Shape, d: bool, g: int, left: seq<int>, right: seq<int>,
                         left': seq<int>, right': seq<int>, p: int, sn: int)
    requires Linked(x, left, right) && Distinct(x) && x.Node? && Child(x, !d).Node?
    requires p == x.key && sn == Child(x, !d).key
    requires g < 0 || g !in Keys(x)
    requires |left'| == |left| == |right| == |right'|
    requires 0 <= p < |left| && 0 <= sn < |left|
    requires forall i :: 0 <= i < |left| && i != p && i != sn && i != g ==>
               left'[i] == left[i] && right'[i] == right[i]
    requires LinkAt(left', right', p, !d) == IdOf(Child(Child(x, !d), d))
    requires LinkAt(left', right', p, d) == LinkAt(left, right, p, d)
    requires LinkAt(left', right', sn, d) == p
    requires LinkAt(left', right', sn, !d) == LinkAt(left, right, sn, !d)
    ensures Linked(DirRot(x, d), left', right')
  {
    var sc, o := Child(x, !d), Child(x, d);
    assert Linked(sc, left, right) && Linked(o, left, right) && Distinct(sc);
    assert Keys(sc.left) <= Keys(sc) && Keys(sc.right) <= Keys(sc);
    assert p !in Keys(o) && p !in Keys(sc) && sn !in Keys(o) && sn !in Keys(sc.left) && sn !in Keys(sc.right);
    LinkedFrame(o, left, right, left', right');
    LinkedFrame(sc.left, left, right, left', right');
    LinkedFrame(sc.right, left, right, left', right');
    LinkedRotated(x, d, left', right', sc);
  }

  /** The parent links after _dir_rotate at q: c points at p, p at sn, sn
      at p's old parent; no other parent link changes. */
  lemma RotateParented(s: Shape, q: Path, d: bool, parent: seq<int>, parent': seq<int>,
                       x: Shape, r: Shape, p: int, sn: int, c: int, g: int)
    requires Parented(s, NIL, parent) && Distinct(s)
    requires x == Sub(s, q) && x.Node? && Child(x, !d).Node? && r == DirRot(x, d)
    requires p == x.key && sn == Child(x, !d).key && c == IdOf(Child(Child(x, !d), d))
    requires g == ParentId(s, q, NIL)
    requires |parent'| == |parent|
    requires 0 <= p < |parent| && 0 <= sn < |parent| && (c != NIL ==> 0 <= c < |parent|)
    requires forall i :: 0 <= i < |parent| && i != p && i != sn && i != c ==> parent'[i] == parent[i]
    requires parent'[p] == sn && parent'[sn] == g && (c != NIL ==> parent'[c] == p)
    ensures Parented(Graft(s, q, r), NIL, parent')
  {
    ParentedSub(s, q, NIL, parent);
    DistinctSub(s, q);
    SubKeys(s, q);
    if q != [] {
      ParentLinks(s, q, parent);
    }
    assert Parented(Child(x, !d), p, parent);
    ParentedRot(x, d, g, parent, parent', p, sn, c);
    DistinctRot(x, d);
    ParentedGraft(s, q, r, NIL, parent, parent');
  }

  /** The rotated shape holds the same slots, still once each; its top is
      the old top, or the raised child when the rotation was at the top. */
  lemma RotateDistinct(s: Shape, q: Path, d: bool)
    requires Distinct(s) && Sub(s, q).Node? && Child(Sub(s, q), !d).Node?
    ensures Distinct(Graft(s, q, DirRot(Sub(s, q), d)))
    ensures Keys(Graft(s, q, DirRot(Sub(s, q), d))) == Keys(s)
    ensures IdOf(Graft(s, q, DirRot(Sub(s, q), d))) ==
              if q == [] then Child(s, !d).key else IdOf(s)
  {
    var x := Sub(s, q);
    DistinctSub(s, q);
    SubKeys(s, q);
    DistinctRot(x, d);
    SubNodeOnPath(s, q);
    DistinctGraft(s, q, DirRot(x, d));
    DirRotShape(x, d);
    if q != [] {
      SubNodeOnPath(s, q);
      assert s.Node?;
    }
  }

  // ----- the read-only walks -----

  /** The explicit stack of InOrder: slot ids, with the shapes they head
      and the trees those shapes stand for. */
  ghost predicate Stacked(stack: seq<int>, shapes: seq<Shape>, trees: seq<Tree>,
                          left: seq<int>, right: seq<int>, colour: seq<Colour>, item: seq<int>)
  {
    && |stack| == |shapes| == |trees|
    && forall i :: 0 <= i < |shapes| ==>
         shapes[i].Node? && Linked(shapes[i], left, right)
         && stack[i] == shapes[i].key && trees[i] == Abs(shapes[i], colour, item)
  }

  lemma StackedPush(stack: seq<int>, shapes: seq<Shape>, trees: seq<Tree>,
                    left: seq<int>, right: seq<int>, colour: seq<Colour>, item: seq<int>, cs: Shape)
    requires Stacked(stack, shapes, trees, left, right, colour, item)
    requires cs.Node? && Linked(cs, left, right)
    ensures Stacked(stack + [cs.key], shapes + [cs], trees + [Abs(cs, colour, item)], left, right, colour, item)
  {
  }

  lemma StackedPop(stack: seq<int>, shapes: seq<Shape>, trees: seq<Tree>,
                   left: seq<int>, right: seq<int>, colour: seq<Colour>, item: seq<int>)
    requires Stacked(stack, shapes, trees, left, right, colour, item) && stack != [] && |item| == |left|
    ensures var n, ps, pt := |stack| - 1, shapes[|stack| - 1], trees[|stack| - 1];
      && Stacked(stack[..n], shapes[..n], trees[..n], left, right, colour, item)
      && ps.Node? && pt.Node? && Linked(ps.right, left, right)
      && 0 <= stack[n] < |right| && stack[n] < |item|
      && item[stack[n]] == pt.key && pt.right == Abs(ps.right, colour, item)
  {
  }

  /** inorder / to_list over linked nodes: descend left pushing each node
      on an explicit stack; pop one, emit its item, continue with its right
      child. The items come out in the order of the tree held by the
      nodes. */
  method InOrder(left: seq<int>, right: seq<int>, colour: seq<Colour>, item: seq<int>, root: int, ghost s: Shape)
    returns (xs: seq<int>)
    requires Linked(s, left, right) && root == IdOf(s) && |item| == |left|
    ensures xs == Items(Abs(s, colour, item))
  {
    ghost var t := Abs(s, colour, item);
    var stack: seq<int> := [];
    ghost var shapes: seq<Shape> := [];
    ghost var trees: seq<Tree> := [];
    var cursor := root;
    ghost var cs := s;
    ghost var ct := t;
    xs := [];
    while cursor != NIL || |stack| != 0
      invariant Stacked(stack, shapes, trees, left, right, colour, item)
      invariant Linked(cs, left, right) && cursor == IdOf(cs) && ct == Abs(cs, colour, item)
      invariant xs + (Items(ct) + Pending(trees)) == Items(t)
      decreases |Items(t)| - |xs|
    {
      while cursor != NIL
        invariant Stacked(stack, shapes, trees, left, right, colour, item)
        invariant Linked(cs, left, right) && cursor == IdOf(cs) && ct == Abs(cs, colour, item)
        invariant xs + (Items(ct) + Pending(trees)) == Items(t)
        invariant cursor != NIL || |stack| != 0
        decreases cs
      {
        PendingPush(trees, ct);
        StackedPush(stack, shapes, trees, left, right, colour, item, cs);
        stack := stack + [cursor];
        shapes := shapes + [cs];
        trees := trees + [ct];
        cursor := left[cursor];
        cs := cs.left;
        ct := ct.left;
      }
      if |stack| != 0 {
        var popped := stack[|stack| - 1];
        ghost var ps := shapes[|shapes| - 1];
        ghost var pt := trees[|trees| - 1];
        assert trees == trees[..|trees| - 1] + [pt];
        PendingPopStep(xs, trees[..|trees| - 1], pt, Items(t));
        StackedPop(stack, shapes, trees, left, right, colour, item);
        stack := stack[..|stack| - 1];
        shapes := shapes[..|shapes| - 1];
        trees := trees[..|trees| - 1];
        xs := xs + [item[popped]];
        cursor := right[popped];
        cs := ps.right;
        ct := pt.right;
      }
    }
  }

  /** contains over linked nodes: the BST search loop; true exactly when
      the item is stored (the source falls off the loop and returns None,
      read as false). */
  method Contains(left: seq<int>, right: seq<int>, colour: seq<Colour>, item: seq<int>, root: int,
                  ghost s: Shape, x: int)
    returns (found: bool)
    requires Linked(s, left, right) && root == IdOf(s) && |item| == |left|
    requires Ordered(Abs(s, colour, item))
    ensures found <==> x in Keys(Abs(s, colour, item))
  {
    var cursor := root;
    ghost var cs := s;
    while cursor != NIL
      invariant Linked(cs, left, right) && cursor == IdOf(cs)
      invariant Ordered(Abs(cs, colour, item))
      invariant x in Keys(Abs(s, colour, item)) <==> x in Keys(Abs(cs, colour, item))
      decreases cs
    {
      if x < item[cursor] {
        cursor := left[cursor];
        cs := cs.left;
      } else if x == item[cursor] {
        return true;
      } else {
        cursor := right[cursor];
        cs := cs.right;
      }
    }
    return false;
  }
}
