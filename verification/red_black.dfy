/** The parent-pointer red-black tree of red_black.py (class RbTree): an
    iterative BST descent that hangs a new red node, then the fix-up loop
    of cases I1 to I6 walking up through the parent links and rotating with
    _dir_rotate. Nodes live in the arena of Arena: slot x has the fields
    left[x], right[x], parent[x], colour[x] and item[x]. */
module RedBlack {
  import opened RbNode
  import opened TreePaths
  import opened Arena

  // ----- what the links say about positions -----

  /** The parent link of the node at q, and which side of that parent it
      hangs on; the sibling slot is the parent's other link. */
  lemma ParentSide(s: Shape, q: Path, left: seq<int>, right: seq<int>, parent: seq<int>, n: int)
    requires Linked(s, left, right) && Parented(s, NIL, parent) && Distinct(s)
    requires Sub(s, q).Node? && n == Sub(s, q).key
    ensures 0 <= n < |parent| && n < |left| && n < |right|
    ensures parent[n] == NIL <==> q == []
    ensures q != [] ==> Sub(s, q[..|q| - 1]).Node? && parent[n] == Sub(s, q[..|q| - 1]).key
    ensures q != [] ==> 0 <= parent[n] < |left| && parent[n] < |right| && parent[n] < |parent|
    ensures q != [] ==> parent[n] !in Keys(Sub(s, q))
    ensures q != [] ==> (right[parent[n]] == n <==> q[|q| - 1]) && (left[parent[n]] == n <==> !q[|q| - 1])
    ensures q != [] ==>
              LinkAt(left, right, parent[n], !q[|q| - 1]) == IdOf(Sub(s, q[..|q| - 1] + [!q[|q| - 1]]))
  {
    ParentLinks(s, q, parent);
    LinkedSub(s, q, left, right);
    if q != [] {
      SideLinks(s, q, left, right);
      ParentLinks(s, q[..|q| - 1], parent);
    }
  }

  /** Two steps up a path. */
  lemma PrefixOfPrefix(q: Path)
    requires |q| >= 2
    ensures q[..|q| - 1][..|q| - 2] == q[..|q| - 2] && q[..|q| - 1][|q| - 2] == q[|q| - 2]
    ensures q[..|q| - 1] == q[..|q| - 2] + [q[|q| - 2]]
    ensures q == q[..|q| - 2] + [q[|q| - 2], q[|q| - 1]]
  {
  }

  /** The slots _dir_rotate at q towards d touches: the node p, its child
      sn on the far side, sn's inner child c (maybe NIL) and p's parent g
      (NIL at the root); they are distinct, and the links and parent link
      read them as the shape says. */
  lemma RotateSite(s: Shape, q: Path, d: bool, left: seq<int>, right: seq<int>, parent: seq<int>,
                   x: Shape, p: int, sn: int, c: int)
    requires Linked(s, left, right) && Parented(s, NIL, parent) && Distinct(s)
    requires |left| == |parent| && |right| == |parent|
    requires x == Sub(s, q) && x.Node? && Child(x, !d).Node?
    requires p == x.key && sn == Child(x, !d).key && c == IdOf(Child(Child(x, !d), d))
    ensures 0 <= p < |left| && 0 <= sn < |left| && (c == NIL || 0 <= c < |left|)
    ensures LinkAt(left, right, p, !d) == sn && LinkAt(left, right, sn, d) == c
    ensures parent[p] == ParentId(s, q, NIL) && (parent[p] == NIL <==> q == [])
    ensures p != sn && c != p && c != sn
    ensures q != [] ==>
              && 0 <= parent[p] < |left| && parent[p] != sn && parent[p] != c && parent[p] != p
              && (right[parent[p]] == p <==> q[|q| - 1])
  {
    ParentSide(s, q, left, right, parent, p);
    ParentLinks(s, q, parent);
    LinkedSub(s, q, left, right);
    DistinctSub(s, q);
    var y := Child(x, !d);
    assert Linked(y, left, right) && Distinct(y);
    assert p !in Keys(y) && y.key in Keys(y);
    assert Keys(Child(y, d)) <= Keys(y) && y.key !in Keys(Child(y, d));
    if c != NIL {
      assert c in Keys(Child(y, d));
      LinkedSub(y, [d], left, right);
      OneStep(y, d, Nil);
    }
  }

  /** The links of n slots agree with the shape s, which holds every slot
      once and whose top is root. */
  ghost predicate Wired(s: Shape, left: seq<int>, right: seq<int>, parent: seq<int>, n: int, root: int)
  {
    Hooked(s, left, right, n, root) && |parent| == n && Parented(s, NIL, parent)
  }

  /** The child links of n slots agree with the shape s, which holds every
      slot once and whose top is root. */
  ghost predicate Hooked(s: Shape, left: seq<int>, right: seq<int>, n: int, root: int)
  {
    && |left| == n && |right| == n
    && Linked(s, left, right) && Distinct(s) && Allocated(s, n) && root == IdOf(s)
  }

  /** The writes of _dir_rotate at the node p at q towards d, given p's
      raised child sn, its inner child c and p's parent g (on whose side gs
      p hangs): after them the links are those of the rotated shape. */
  lemma RotateCommit(s: Shape, q: Path, d: bool, left: seq<int>, right: seq<int>, parent: seq<int>,
                     n: int, root: int, x: Shape, r: Shape, p: int, sn: int, c: int, g: int, gs: bool,
                     left': seq<int>, right': seq<int>, parent': seq<int>, root': int)
    requires Wired(s, left, right, parent, n, root)
    requires x == Sub(s, q) && x.Node? && Child(x, !d).Node? && r == DirRot(x, d)
    requires p == x.key && sn == Child(x, !d).key && c == IdOf(Child(Child(x, !d), d))
    requires g == ParentId(s, q, NIL) && (q != [] ==> gs == q[|q| - 1])
    requires 0 <= p < n && 0 <= sn < n && (c == NIL || 0 <= c < n) && (g == NIL || 0 <= g < n)
    requires left' == (var l := SetLink(SetLink(left, p, c, d), sn, p, !d);
                       if g == NIL then l else SetLink(l, g, sn, !gs))
    requires right' == (var l := SetLink(SetLink(right, p, c, !d), sn, p, d);
                        if g == NIL then l else SetLink(l, g, sn, gs))
    requires parent' == (if c == NIL then parent else parent[c := p])[p := sn][sn := g]
    requires root' == if g == NIL then sn else root
    ensures Wired(Graft(s, q, r), left', right', parent', n, root')
  {
    RotateSite(s, q, d, left, right, parent, x, p, sn, c);
    RotateLinked(s, q, d, left, right, left', right', x, r, p, sn, g);
    RotateParented(s, q, d, parent, parent', x, r, p, sn, c, g);
    RotateDistinct(s, q, d);
  }

  /** Of the two children of a node, the one whose slot is the node at
      pq + [b] is the one on side b. */
  lemma ChildIs(s: Shape, pq: Path, a: bool, b: bool)
    requires Distinct(s) && Sub(s, pq).Node? && Sub(s, pq + [b]).Node?
    requires 0 <= Sub(s, pq + [b]).key
    ensures IdOf(Sub(s, pq + [a])) == Sub(s, pq + [b]).key <==> a == b
  {
    var x := Sub(s, pq);
    SubAppend(s, pq, [a]);
    SubAppend(s, pq, [b]);
    OneStep(x, a, Nil);
    OneStep(x, b, Nil);
    DistinctSub(s, pq);
    var y, z := Child(x, b), Child(x, a);
    assert y.key in Keys(y);
    if a != b && z.Node? {
      assert z.key in Keys(z);
      assert Keys(x.left) !! Keys(x.right);
    }
  }

  /** After the rotation at q towards d, the raised child heads the
      subtree at q and the rotated node sits one step down on side d. */
  lemma RotatedAt(s: Shape, q: Path, d: bool)
    requires Sub(s, q).Node? && Child(Sub(s, q), !d).Node?
    ensures Sub(Graft(s, q, DirRot(Sub(s, q), d)), q).Node?
    ensures Sub(Graft(s, q, DirRot(Sub(s, q), d)), q).key == Child(Sub(s, q), !d).key
    ensures Sub(Graft(s, q, DirRot(Sub(s, q), d)), q + [d]).Node?
    ensures Sub(Graft(s, q, DirRot(Sub(s, q), d)), q + [d]).key == Sub(s, q).key
  {
    var r := DirRot(Sub(s, q), d);
    SubNodeOnPath(s, q);
    GraftInto(s, q, [d], r, Nil);
    SubGraft(s, q, r);
    DirRotShape(Sub(s, q), d);
    OneStep(r, d, Nil);
  }

  /** Where the search loop of _bst_insert_flat ends for an absent item:
      an empty slot below the node it last visited (NIL for an empty
      tree), which is one of the n allocated slots. */
  lemma SearchEnd(s: Shape, colour: seq<Colour>, item: seq<int>, key: int, q: Path, n: int)
    requires Ordered(Abs(s, colour, item)) && key !in Keys(Abs(s, colour, item))
    requires q == SearchPath(Abs(s, colour, item), key) && Allocated(s, n)
    ensures OnPath(s, q) && Sub(s, q).Nil?
    ensures q == [] <==> s.Nil?
    ensures q == [] ==> ParentId(s, q, NIL) == NIL
    ensures q != [] ==>
              && Sub(s, q[..|q| - 1]).Node? && ParentId(s, q, NIL) == Sub(s, q[..|q| - 1]).key
              && 0 <= ParentId(s, q, NIL) < n
  {
    var t := Abs(s, colour, item);
    SearchPathLeaf(t, key, Red);
    AbsOnPath(s, q, colour, item);
    AbsSub(s, q, colour, item);
    if q != [] {
      OnPathParent(s, q);
      SubKeys(s, q[..|q| - 1]);
    }
  }

  /** What rb_insert expects of its arguments: N is the last slot, which
      the shape does not hold yet; N's item is absent from the red-black
      tree held; and the search for it ends at q, below P on side isRight. */
  ghost predicate Hangable(s: Shape, left: seq<int>, right: seq<int>,
                           colour: seq<Colour>, item: seq<int>, root: int, q: Path, p: int, isRight: bool)
  {
    && |item| >= 1 && |colour| == |item|
    && |left| == |item| && |right| == |item|
    && Linked(s, left, right) && Distinct(s)
    && Allocated(s, |item| - 1) && root == IdOf(s)
    && IsRedBlack(Abs(s, colour, item)) && item[|item| - 1] !in Keys(Abs(s, colour, item))
    && q == SearchPath(Abs(s, colour, item), item[|item| - 1])
    && p == ParentId(s, q, NIL) && (p == NIL || 0 <= p < |item| - 1)
    && (q != [] ==> isRight == q[|q| - 1])
  }

  /** RbNode(data) in _bst_insert_flat: a fresh slot appended after a
      search that did not find data leaves the tree held as it was and
      sets up rb_insert. */
  lemma AppendSlot(s: Shape, left: seq<int>, right: seq<int>, colour: seq<Colour>,
                   item: seq<int>, root: int, data: int, q: Path, p: int, isRight: bool)
    requires |colour| == |item| && Hooked(s, left, right, |item|, root)
    requires IsRedBlack(Abs(s, colour, item)) && data !in Keys(Abs(s, colour, item))
    requires q == SearchPath(Abs(s, colour, item), data)
    requires p == ParentId(s, q, NIL) && (q != [] ==> isRight == q[|q| - 1])
    ensures Hangable(s, left + [NIL], right + [NIL], colour + [Red], item + [data], root, q, p, isRight)
    ensures Abs(s, colour + [Red], item + [data]) == Abs(s, colour, item)
  {
    SearchEnd(s, colour, item, data, q, |item|);
    AbsAppend(s, colour, item, Red, data);
    LinkedFrame(s, left, right, left + [NIL], right + [NIL]);
    assert (item + [data])[|item|] == data;
  }

  /** The state of the descent of _bst_insert_flat: node is the node at
      path q of the shape s (cs, holding the tree ct), par the node above
      it and isRight the last step; the search path for data runs through
      q, and data is stored exactly when it is stored below q. */
  ghost predicate Descending(s: Shape, left: seq<int>, right: seq<int>, colour: seq<Colour>, item: seq<int>,
                             data: int, q: Path, cs: Shape, ct: Tree, node: int, par: int, isRight: bool)
  {
    && cs == Sub(s, q) && Linked(cs, left, right) && node == IdOf(cs) && |item| == |left|
    && ct == Abs(cs, colour, item) && Ordered(ct)
    && par == ParentId(s, q, NIL) && (q != [] ==> isRight == q[|q| - 1])
    && SearchPath(Abs(s, colour, item), data) == q + SearchPath(ct, data)
    && (data in Keys(Abs(s, colour, item)) <==> data in Keys(ct))
  }

  /** The node the descent is at, when there is one. */
  lemma DescendAt(s: Shape, left: seq<int>, right: seq<int>, colour: seq<Colour>, item: seq<int>,
                  data: int, q: Path, cs: Shape, ct: Tree, node: int, par: int, isRight: bool)
    requires Descending(s, left, right, colour, item, data, q, cs, ct, node, par, isRight) && node != NIL
    ensures cs.Node? && 0 <= node < |item| && node < |left| && node < |right|
    ensures left[node] == IdOf(cs.left) && right[node] == IdOf(cs.right)
    ensures data == item[node] ==> data in Keys(Abs(s, colour, item))
  {
    assert cs.Node? && 0 <= cs.key < |left|;
    assert ct.key == item[node] && ct.key in Keys(ct);
  }

  /** One step of the descent, towards d (right when data is larger). */
  lemma DescendNext(s: Shape, left: seq<int>, right: seq<int>, colour: seq<Colour>, item: seq<int>,
                    data: int, q: Path, cs: Shape, ct: Tree, node: int, par: int, isRight: bool, d: bool)
    requires Descending(s, left, right, colour, item, data, q, cs, ct, node, par, isRight)
    requires cs.Node? && 0 <= node < |item| && data != item[node] && d == (data > item[node])
    ensures Descending(s, left, right, colour, item, data, q + [d], Child(cs, d), Child(ct, d),
                       IdOf(Child(cs, d)), node, d)
  {
    SubAppend(s, q, [d]);
    OneStep(cs, d, Nil);
    assert (q + [d])[..|q|] == q;
    assert ct.key == item[node];
    if d {
      assert data in Keys(ct) <==> data in Keys(ct.right);
    } else {
      assert data in Keys(ct) <==> data in Keys(ct.left);
    }
    assert q + ([d] + SearchPath(Child(ct, d), data)) == (q + [d]) + SearchPath(Child(ct, d), data);
  }

  /** Where the descent falls off the tree, data is absent and q is its
      search path. */
  lemma DescendEnd(s: Shape, left: seq<int>, right: seq<int>, colour: seq<Colour>, item: seq<int>,
                   data: int, q: Path, cs: Shape, ct: Tree, node: int, par: int, isRight: bool)
    requires Descending(s, left, right, colour, item, data, q, cs, ct, node, par, isRight) && node == NIL
    ensures q == SearchPath(Abs(s, colour, item), data) && data !in Keys(Abs(s, colour, item))
  {
    assert q + [] == q;
  }

  /** rb_insert's first writes when P is a node: the new slot gets no
      children and P's link on the side the search ended on points at it.
      The child links then match the shape with the new leaf where the
      search ended. */
  lemma HangHooked(s: Shape, left: seq<int>, right: seq<int>, colour: seq<Colour>,
                   item: seq<int>, root: int, q: Path, p: int, isRight: bool,
                   left': seq<int>, right': seq<int>, s': Shape)
    requires Hangable(s, left, right, colour, item, root, q, p, isRight) && p != NIL
    requires left' == SetLink(left[|item| - 1 := NIL], p, |item| - 1, !isRight)
    requires right' == SetLink(right[|item| - 1 := NIL], p, |item| - 1, isRight)
    requires s' == Graft(s, q, Node(Black, Nil, |item| - 1, Nil))
    ensures Hooked(s', left', right', |item|, root)
  {
    var n := |item| - 1;
    var leaf := Node(Black, Nil, n, Nil);
    SearchEnd(s, colour, item, item[n], q, n);
    assert n !in Keys(s);
    LinkedFrame(s, left, right, left[n := NIL], right[n := NIL]);
    LinkedGraft(s, q, leaf, left[n := NIL], right[n := NIL], left', right', p);
    DistinctGraft(s, q, leaf);
    assert s.Node?;
  }

  /** The new slot's parent link is P: the parent links then match the
      shape with the new leaf. */
  lemma HangParented(s: Shape, left: seq<int>, right: seq<int>, parent: seq<int>, colour: seq<Colour>,
                     item: seq<int>, root: int, q: Path, p: int, isRight: bool, parent': seq<int>, s': Shape)
    requires Hangable(s, left, right, colour, item, root, q, p, isRight) && p != NIL
    requires Parented(s, NIL, parent) && |parent| == |item|
    requires parent' == parent[|item| - 1 := p]
    requires s' == Graft(s, q, Node(Black, Nil, |item| - 1, Nil))
    ensures Parented(s', NIL, parent')
  {
    var n := |item| - 1;
    SearchEnd(s, colour, item, item[n], q, n);
    assert n !in Keys(s);
    ParentedGraft(s, q, Node(Black, Nil, n, Nil), NIL, parent, parent');
  }

  /** Where the new leaf hangs: at q, one step below P. */
  lemma HangPlace(s: Shape, q: Path, n: int, p: int, s': Shape)
    requires OnPath(s, q) && q != [] && Sub(s, q[..|q| - 1]).Node? && p == Sub(s, q[..|q| - 1]).key
    requires s' == Graft(s, q, Node(Black, Nil, n, Nil))
    ensures Sub(s', q).Node? && Sub(s', q).key == n
    ensures Sub(s', q[..|q| - 1]).Node? && Sub(s', q[..|q| - 1]).key == p
  {
    var leaf := Node(Black, Nil, n, Nil);
    var pq := q[..|q| - 1];
    assert q == pq + [q[|q| - 1]];
    SubGraft(s, q, leaf);
    OnPathPrefix(s, pq, [q[|q| - 1]]);
    SubGraftBelow(s, pq, [q[|q| - 1]], leaf);
    OneStep(Sub(s, pq), q[|q| - 1], leaf);
  }

  /** The same writes seen on the tree held: the old tree with a red leaf
      holding N's item where the search ended, which starts the fix-up
      loop with N at q below P. */
  lemma HangTree(s: Shape, left: seq<int>, right: seq<int>, colour: seq<Colour>,
                 item: seq<int>, root: int, q: Path, p: int, isRight: bool, colour': seq<Colour>, s': Shape)
    requires Hangable(s, left, right, colour, item, root, q, p, isRight) && p != NIL
    requires colour' == colour[|item| - 1 := Red]
    requires s' == Graft(s, q, Node(Black, Nil, |item| - 1, Nil))
    ensures Fixing(Abs(s', colour', item), q)
    ensures Keys(Abs(s', colour', item)) == Keys(Abs(s, colour, item)) + {item[|item| - 1]}
    ensures q != [] && Sub(s', q).Node? && Sub(s', q).key == |item| - 1
    ensures Sub(s', q[..|q| - 1]).Node? && Sub(s', q[..|q| - 1]).key == p
  {
    var n := |item| - 1;
    var leaf := Node(Black, Nil, n, Nil);
    SearchEnd(s, colour, item, item[n], q, n);
    HangPlace(s, q, n, p, s');
    assert n !in Keys(s);
    AbsGraft(s, q, leaf, colour', item);
    AbsUpdate(s, colour, item, n, Red);
    assert Abs(leaf, colour', item) == Node(Red, Nil, item[n], Nil);
    FixStart(Abs(s, colour, item), item[n]);
  }

  /** rb_insert when P is NIL (the tree was empty): the new node, of
      colour c, is the root. */
  lemma FirstLeaf(s: Shape, left: seq<int>, right: seq<int>, colour: seq<Colour>,
                  item: seq<int>, root: int, q: Path, p: int, isRight: bool,
                  left': seq<int>, right': seq<int>, colour': seq<Colour>, c: Colour)
    requires Hangable(s, left, right, colour, item, root, q, p, isRight) && p == NIL
    requires left' == left[|item| - 1 := NIL] && right' == right[|item| - 1 := NIL]
    requires colour' == colour[|item| - 1 := c]
    ensures Hooked(Node(Black, Nil, |item| - 1, Nil), left', right', |item|, |item| - 1)
    ensures |colour'| == |item| && |item| == 1
    ensures IsRedBlack(Abs(Node(Black, Nil, |item| - 1, Nil), colour', item))
    ensures Keys(Abs(Node(Black, Nil, |item| - 1, Nil), colour', item))
            == Keys(Abs(s, colour, item)) + {item[|item| - 1]}
  {
    SearchEnd(s, colour, item, item[|item| - 1], q, |item| - 1);
    assert |item| == 1 by {
      assert !(0 in Keys(Nil));
    }
  }

  /** The nodes around N at qG + [dP, dN]: its parent P and grandparent G,
      linked one step apart, and whether N is P's child on the side away
      from dP (the inner grandchild of G). */
  lemma OutSite(s: Shape, qG: Path, dP: bool, dN: bool, left: seq<int>, right: seq<int>)
    requires Linked(s, left, right) && Distinct(s) && Sub(s, qG + [dP, dN]).Node?
    ensures Sub(s, qG).Node? && Sub(s, qG + [dP]).Node?
    ensures Child(Sub(s, qG), dP) == Sub(s, qG + [dP])
    ensures Child(Sub(s, qG + [dP]), dN) == Sub(s, qG + [dP, dN])
    ensures 0 <= Sub(s, qG + [dP]).key < |left| && Sub(s, qG + [dP]).key < |right|
    ensures IdOf(Sub(s, qG + [dP] + [!dP])) == Sub(s, qG + [dP, dN]).key <==> dN == !dP
  {
    var pq := qG + [dP];
    assert pq + [dN] == qG + [dP, dN];
    SubPrefixNode(s, pq, [dN]);
    SubPrefixNode(s, qG, [dP]);
    SubAppend(s, pq, [dN]);
    SubAppend(s, qG, [dP]);
    OneStep(Sub(s, qG), dP, Nil);
    OneStep(Sub(s, pq), dN, Nil);
    LinkedSub(s, pq + [dN], left, right);
    LinkedSub(s, pq, left, right);
    ChildIs(s, pq, !dP, dN);
  }

  /** After case I4's rotation at P (at qG + [dP]) the grandparent is
      unchanged in place and its child on side dP is N, raised. */
  lemma InnerSite(s1: Shape, qG: Path, dP: bool, s2: Shape)
    requires Sub(s1, qG + [dP]).Node? && Child(Sub(s1, qG + [dP]), !dP).Node?
    requires s2 == Graft(s1, qG + [dP], DirRot(Sub(s1, qG + [dP]), dP))
    ensures Sub(s1, qG).Node? && Sub(s2, qG).Node? && Sub(s2, qG).key == Sub(s1, qG).key
    ensures Sub(s2, qG + [dP]).Node? && Sub(s2, qG + [dP]).key == Child(Sub(s1, qG + [dP]), !dP).key
    ensures Child(Sub(s2, qG), dP) == Sub(s2, qG + [dP])
  {
    var pq := qG + [dP];
    var r := DirRot(Sub(s1, pq), dP);
    RotatedAt(s1, pq, dP);
    SubNodeOnPath(s1, pq);
    OnPathPrefix(s1, qG, [dP]);
    SubPrefixNode(s1, qG, [dP]);
    SubGraftBelow(s1, qG, [dP], r);
    OneStep(Sub(s1, qG), dP, r);
    SubGraft(s1, pq, r);
  }

  /** The red-black tree with parent links. */
  class RbTree {
    var left: seq<int>
    var right: seq<int>
    var parent: seq<int>
    var colour: seq<Colour>
    var item: seq<int>
    var root: int
    var size: nat
    /** The node slots as a tree; its colours carry no meaning. */
    ghost var shape: Shape

    /** The links agree with the shape, which holds every slot once. */
    ghost predicate Links()
      reads this
    {
      |colour| == |item| && Wired(shape, left, right, parent, |item|, root)
    }

    /** The tree of colours and items the nodes hold. */
    ghost function Model(): Tree
      reads this
    {
      Abs(shape, colour, item)
    }

    /** The object invariant: consistent links, one node per insertion,
      and a red-black tree (whose root may be red). */
    ghost predicate Valid()
      reads this
    {
      Links() && size == |item| && IsRedBlack(Model())
    }

    constructor ()
      ensures Valid() && Model() == Nil && size == 0
    {
      left, right, parent, colour, item := [], [], [], [], [];
      root, size := NIL, 0;
      shape := Nil;
    }

    /** set_child: the link of x on the given side now points at c. */
    method SetChild(x: int, c: int, isRight: bool)
      requires 0 <= x < |left| && x < |right|
      modifies this`left, this`right
      ensures left == SetLink(old(left), x, c, !isRight)
      ensures right == SetLink(old(right), x, c, isRight)
    {
      if isRight {
        right := right[x := c];
      } else {
        left := left[x := c];
      }
    }

    /** get_uncle: the sibling of the parent of the node at q under the
      grandparent, NIL when there is no grandparent. */
    function GetUncle(n: int, ghost q: Path): (u: int)
      reads this
      requires Links() && Sub(shape, q).Node? && n == Sub(shape, q).key
      ensures |q| < 2 ==> u == NIL
      ensures |q| >= 2 ==> u == IdOf(Sub(shape, q[..|q| - 2] + [!q[|q| - 2]]))
    {
      ParentSide(shape, q, left, right, parent, n);
      var p := parent[n];
      if p == NIL then NIL
      else
        ParentSide(shape, q[..|q| - 1], left, right, parent, p);
        if parent[p] == NIL then NIL
        else
          PrefixOfPrefix(q);
          var g := parent[p];
          if p == left[g] then right[g] else left[g]
    }

    /** is_on_right: whether the node at q (which has a parent) is its
      parent's right child. */
    function IsOnRight(n: int, ghost q: Path): (r: bool)
      reads this
      requires Links() && Sub(shape, q).Node? && n == Sub(shape, q).key && q != []
      ensures r <==> q[|q| - 1]
    {
      ParentSide(shape, q, left, right, parent, n);
      n == right[parent[n]]
    }

    /** _dir_rotate at the node p at q towards side isRight: p's child S on
      the other side takes p's place under p's parent (or becomes the root),
      p becomes S's isRight child and S's inner child moves under p. The
      parent links follow, and the tree held is the rotated one. */
    method DirRotate(p: int, isRight: bool, ghost q: Path) returns (s: int)
      requires Links() && Sub(shape, q).Node? && p == Sub(shape, q).key
      requires Child(Sub(shape, q), !isRight).Node?
      modifies this`left, this`right, this`parent, this`root, this`shape
      ensures Links()
      ensures shape == Graft(old(shape), q, DirRot(Sub(old(shape), q), isRight))
      ensures Model() == Graft(old(Model()), q, DirRot(Sub(old(Model()), q), isRight))
      ensures s == Child(Sub(old(shape), q), !isRight).key
      ensures q == [] ==> root == s
      ensures q != [] ==> root == old(root)
    {
      ghost var s0, l0, r0, pa0, root0 := shape, left, right, parent, root;
      ghost var x := Sub(shape, q);
      ghost var c := IdOf(Child(Child(x, !isRight), isRight));
      RotateSite(shape, q, isRight, left, right, parent, x, p, Child(x, !isRight).key, c);
      var G := parent[p];
      var S := GetChild(left, right, p, !isRight, shape, q);
      var C := GetChild(left, right, S, isRight, shape, q + [!isRight]);
      SetChild(p, C, !isRight);
      if C != NIL {
        parent := parent[C := p];
      }
      SetChild(S, p, isRight);
      parent := parent[p := S];
      parent := parent[S := G];
      ghost var gs := false;
      if G != NIL {
        gs := p == right[G];
        SetChild(G, S, p == right[G]);
      } else {
        root := S;
      }
      shape := Graft(shape, q, DirRot(x, isRight));
      RotateCommit(s0, q, isRight, l0, r0, pa0, |item|, root0, x, DirRot(x, isRight), p, S, C, G, gs,
                   left, right, parent, root);
      AbsRotated(s0, q, isRight, colour, item);
      s := S;
    }

    /** X.colour = c on the node at q: the tree held is recoloured there. */
    method SetColour(x: int, c: Colour, ghost q: Path)
      requires Links() && Sub(shape, q).Node? && x == Sub(shape, q).key
      modifies this`colour
      ensures Links()
      ensures Model() == Recolour(old(Model()), q, c)
    {
      LinkedSub(shape, q, left, right);
      AbsRecolour(shape, q, colour, item, c);
      colour := colour[x := c];
    }

    /** The descent of _bst_insert_flat: from the root, left below a
      larger item and right otherwise, until data is found or the walk
      falls off the tree. When it is absent, the walk's path is the search
      path for data, par is the node it last visited (NIL for an empty
      tree) and isRight the side it fell off on. */
    method Descend(data: int) returns (found: bool, par: int, isRight: bool, ghost q: Path)
      requires Valid()
      ensures found <==> data in Keys(Model())
      ensures !found ==> q == SearchPath(Model(), data) && par == ParentId(shape, q, NIL)
      ensures !found && q != [] ==> isRight == q[|q| - 1]
    {
      par := NIL;
      var node := root;
      isRight := false;
      q := [];
      ghost var cs := shape;
      ghost var ct := Model();
      assert [] + SearchPath(ct, data) == SearchPath(ct, data);
      while node != NIL
        invariant Descending(shape, left, right, colour, item, data, q, cs, ct, node, par, isRight)
        decreases cs
      {
        DescendAt(shape, left, right, colour, item, data, q, cs, ct, node, par, isRight);
        if data < item[node] {
          DescendNext(shape, left, right, colour, item, data, q, cs, ct, node, par, isRight, false);
          par := node;
          node := left[node];
          isRight := false;
          q := q + [false];
          cs, ct := cs.left, ct.left;
        } else if data == item[node] {
          return true, node, isRight, q;
        } else {
          DescendNext(shape, left, right, colour, item, data, q, cs, ct, node, par, isRight, true);
          par := node;
          node := right[node];
          isRight := true;
          q := q + [true];
          cs, ct := cs.right, ct.right;
        }
      }
      DescendEnd(shape, left, right, colour, item, data, q, cs, ct, node, par, isRight);
      found := false;
    }

    /** _bst_insert_flat (what insert runs): an item already present
      returns with nothing changed; otherwise a new node holding data is
      created in the next slot, size grows by one and rb_insert hangs it
      where the descent ended and rebalances. Either way the tree holds the
      old items plus data and stays a red-black tree. */
    method BstInsertFlat(data: int)
      requires Valid()
      modifies this
      ensures Valid()
      ensures Keys(Model()) == old(Keys(Model())) + {data}
      ensures data in old(Keys(Model())) ==>
                && left == old(left) && right == old(right) && parent == old(parent)
                && colour == old(colour) && item == old(item) && root == old(root) && size == old(size)
      ensures data !in old(Keys(Model())) ==> size == old(size) + 1
      ensures old(Model()) == Nil ==> Model() == Node(Red, Nil, data, Nil)
    {
      var found, par, isRight, q := Descend(data);
      if found {
        return;
      }
      AppendSlot(shape, left, right, colour, item, root, data, q, par, isRight);
      ParentedFrame(shape, NIL, parent, parent + [NIL]);
      left, right, parent := left + [NIL], right + [NIL], parent + [NIL];
      colour, item := colour + [Red], item + [data];
      size := size + 1;
      RbInsert(par, |item| - 1, isRight, q);
    }

    /** rb_insert: N, the node in the last slot, becomes a red leaf below
      P on side isRight, or the root (left red) when P is NIL; then the
      fix-up walks up from N. The tree held ends as a red-black tree with
      N's item added. */
    method RbInsert(P: int, N: int, isRight: bool, ghost q: Path)
      requires Hangable(shape, left, right, colour, item, root, q, P, isRight)
      requires |parent| == |item| && Parented(shape, NIL, parent)
      requires N == |item| - 1 && size == |item|
      modifies this
      ensures Valid() && item == old(item) && size == old(size)
      ensures Keys(Model()) == old(Keys(Model())) + {old(item[N])}
      ensures P == NIL ==> Model() == Node(Red, Nil, item[N], Nil)
    {
      ghost var s0, l0, r0, pa0, c0, root0 := shape, left, right, parent, colour, root;
      colour := colour[N := Red];
      left := left[N := NIL];
      right := right[N := NIL];
      parent := parent[N := P];
      if P == NIL {
        root := N;
        shape := Node(Black, Nil, N, Nil);
        FirstLeaf(s0, l0, r0, c0, item, root0, q, P, isRight, left, right, colour, Red);
        return;
      }
      SetChild(P, N, isRight);
      shape := Graft(shape, q, Node(Black, Nil, N, Nil));
      HangHooked(s0, l0, r0, c0, item, root, q, P, isRight, left, right, shape);
      HangParented(s0, l0, r0, pa0, c0, item, root, q, P, isRight, parent, shape);
      HangTree(s0, l0, r0, c0, item, root, q, P, isRight, colour, shape);
      FixUp(N, P, q);
    }

    /** The nodes N at q and P, its parent, as the fix-up loop of
      rb_insert sees them: the tree held satisfies the loop invariant at N. */
    ghost predicate Climbing(n: int, p: int, q: Path)
      reads this
    {
      && Links() && q != [] && Fixing(Model(), q)
      && Sub(shape, q).Node? && n == Sub(shape, q).key
      && Sub(shape, q[..|q| - 1]).Node? && p == Sub(shape, q[..|q| - 1]).key
    }

    /** The fix-up loop of rb_insert, walking up from N. P black (I3):
      done. P a red root (I6): P turns black. P and the uncle red (I1): P
      and the uncle turn black, G red, and the walk goes on from G (or
      stops if G is the root). P red and the uncle not: cases I4 and I5. */
    method FixUp(n0: int, p0: int, ghost q0: Path)
      requires Climbing(n0, p0, q0)
      modifies this`left, this`right, this`parent, this`root, this`shape, this`colour
      ensures Links() && IsRedBlack(Model()) && Keys(Model()) == old(Keys(Model()))
    {
      ghost var keys := Keys(Model());
      var n, p := n0, p0;
      ghost var qN := q0;
      while true
        invariant Climbing(n, p, qN) && Keys(Model()) == keys
        decreases |qN|
      {
        ghost var pq := qN[..|qN| - 1];
        ghost var t := Model();
        AbsSub(shape, pq, colour, item);
        LinkedSub(shape, pq, left, right);
        if colour[p] == Black {
          FixStop(t, qN);
          return;
        }
        var g := parent[p];
        ParentSide(shape, pq, left, right, parent, p);
        if g == NIL {
          assert qN == [qN[0]];
          SetColour(p, Black, pq);
          FixRoot(t, qN[0]);
          return;
        }
        PrefixOfPrefix(qN);
        ghost var qG, dP, dN := qN[..|qN| - 2], qN[|qN| - 2], qN[|qN| - 1];
        var u := GetUncle(n, qN);
        AbsSub(shape, qG + [!dP], colour, item);
        SubKeys(shape, qG + [!dP]);
        if u == NIL || colour[u] == Black {
          RotateOut(n, p, g, qG, dP, dN);
          return;
        }
        SetColour(p, Black, qG + [dP]);
        SetColour(u, Black, qG + [!dP]);
        SetColour(g, Red, qG);
        FixI1(t, qG, dP, dN);
        n := g;
        p := parent[n];
        ParentSide(shape, qG, left, right, parent, n);
        qN := qG;
        if p == NIL {
          return;
        }
      }
    }

    /** Cases I4 and I5 of rb_insert: P is red and the uncle is not. An
      inner N is first rotated above P (I4); then P turns black, G red,
      and G is rotated away from P (I5), which ends the insertion with a
      red-black tree holding the same items. */
    method RotateOut(n: int, p: int, g: int, ghost qG: Path, ghost dP: bool, ghost dN: bool)
      requires Climbing(n, p, qG + [dP, dN])
      requires Sub(shape, qG).Node? && g == Sub(shape, qG).key
      requires IsRed(Sub(Model(), qG + [dP])) && !IsRed(Sub(Model(), qG + [!dP]))
      modifies this`left, this`right, this`parent, this`root, this`shape, this`colour
      ensures Links() && IsRedBlack(Model()) && Keys(Model()) == old(Keys(Model()))
    {
      ghost var t := Model();
      ghost var pq := qG + [dP];
      assert (qG + [dP, dN])[..|qG| + 1] == pq;
      OutSite(shape, qG, dP, dN, left, right);
      var pRight := IsOnRight(p, pq);
      var p' := p;
      if n == GetChild(left, right, p, !pRight, shape, pq) {
        ghost var s1 := shape;
        var _ := DirRotate(p, pRight, pq);
        FixI4(t, qG, dP);
        InnerSite(s1, qG, dP, shape);
        LinkedSub(shape, qG, left, right);
        p' := GetChild(left, right, g, pRight, shape, qG);
      }
      ghost var t1 := Model();
      SetColour(p', Black, pq);
      SetColour(g, Red, qG);
      var _ := DirRotate(g, !pRight, qG);
      FixI5(t1, qG, dP);
    }

    /** to_list / inorder: every item once, in ascending order. */
    method ToList() returns (xs: seq<int>)
      requires Valid()
      ensures xs == Items(Model())
      ensures StrictlyIncreasing(xs) && forall x :: x in xs <==> x in Keys(Model())
    {
      xs := InOrder(left, right, colour, item, root, shape);
      OrderedItemsSorted(Model());
      ItemsKeys(Model());
    }

    /** contains: true exactly when x is stored. */
    method Contains(x: int) returns (found: bool)
      requires Valid()
      ensures found <==> x in Keys(Model())
    {
      found := Arena.Contains(left, right, colour, item, root, shape, x);
    }
  }
}
