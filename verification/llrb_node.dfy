/** The LLRB node operations of llrb.py: the two colour-swapping rotations,
    the three-way colour flip, the shared fix-up applied on the way back up,
    and the two "push red down" steps used by deletion. Subtrees are
    exclusively owned in the source, so each in-place rewrite of a node is a
    function from the old subtree to the new subtree root. */
module LlrbNode {
  import opened RbNode

  /** No red link leans right. */
  ghost predicate LeftLeaning(t: Tree)
  {
    t.Node? ==> !IsRed(t.right) && LeftLeaning(t.left) && LeftLeaning(t.right)
  }

  /** A left-leaning 2-3 tree in colours: no red-red edge and no red right
      link (the root itself may be red). */
  ghost predicate Llrb23(t: Tree)
  {
    NoRedRed(t) && LeftLeaning(t)
  }

  /** All LLRB invariants as they hold after a public call: BST order, equal
      black counts, no red-red edge, no right-leaning red link, black root. */
  ghost predicate IsLlrb(t: Tree)
  {
    Ordered(t) && Balanced(t) && Llrb23(t) && !IsRed(t)
  }

  /** rotate_left: the right child x takes h's place and h's colour; h
      becomes x's red left child and adopts x's old left subtree. */
  function RotateLeft(h: Tree): (x: Tree)
    requires h.Node? && h.right.Node?
    ensures x.Node? && x.left.Node?
    ensures x.colour == h.colour && x.left.colour == Red
    ensures Items(x) == Items(h) && Keys(x) == Keys(h)
  {
    Node(h.colour, Node(Red, h.left, h.key, h.right.left), h.right.key, h.right.right)
  }

  /** rotate_left keeps BST order, and keeps balance and black height when
      the link it turns is red. */
  lemma RotateLeftKeeps(h: Tree)
    requires h.Node? && h.right.Node?
    ensures Ordered(h) ==> Ordered(RotateLeft(h))
    ensures Balanced(h) && IsRed(h.right) ==>
              Balanced(RotateLeft(h)) && BlackHeight(RotateLeft(h)) == BlackHeight(h)
  {
    var r := h.right;
    OrderedRotation(h.left, h.key, r.left, r.key, r.right, h.colour, r.colour, h.colour, Red);
    if Balanced(h) && IsRed(h.right) {
      assert Balanced(r) && BlackHeight(r) == BlackHeight(r.left);
    }
  }

  /** rotate_right: the exact mirror of rotate_left. */
  function RotateRight(h: Tree): (x: Tree)
    requires h.Node? && h.left.Node?
    ensures x.Node? && x.right.Node?
    ensures x.colour == h.colour && x.right.colour == Red
    ensures Items(x) == Items(h) && Keys(x) == Keys(h)
  {
    Node(h.colour, h.left.left, h.left.key, Node(Red, h.left.right, h.key, h.right))
  }

  /** rotate_right keeps BST order, and keeps balance and black height when
      the link it turns is red. */
  lemma RotateRightKeeps(h: Tree)
    requires h.Node? && h.left.Node?
    ensures Ordered(h) ==> Ordered(RotateRight(h))
    ensures Balanced(h) && IsRed(h.left) ==>
              Balanced(RotateRight(h)) && BlackHeight(RotateRight(h)) == BlackHeight(h)
  {
    var l := h.left;
    OrderedRotation(l.left, l.key, l.right, h.key, h.right, h.colour, Red, h.colour, l.colour);
    if Balanced(h) && IsRed(h.left) {
      assert Balanced(l);
    }
  }

  /** flip_colours: inverts h and both of its children; both must exist. */
  function FlipColours(h: Tree): (x: Tree)
    requires h.Node? && h.left.Node? && h.right.Node?
    ensures x.Node? && x.left.Node? && x.right.Node?
    ensures x.colour != h.colour && x.left.colour != h.left.colour
    ensures x.right.colour != h.right.colour
    ensures x.left.left == h.left.left && x.left.right == h.left.right
    ensures x.right.left == h.right.left && x.right.right == h.right.right
    ensures Items(x) == Items(h) && Keys(x) == Keys(h)
  {
    Node(Flip(h.colour), h.left.(colour := Flip(h.left.colour)), h.key,
         h.right.(colour := Flip(h.right.colour)))
  }

  /** flip_colours keeps BST order; it keeps balance when the children share
      a colour, and the black height too when h differs from both. */
  lemma FlipColoursKeeps(h: Tree)
    requires h.Node? && h.left.Node? && h.right.Node?
    ensures Ordered(h) ==> Ordered(FlipColours(h))
    ensures Balanced(h) && h.left.colour == h.right.colour ==> Balanced(FlipColours(h))
    ensures Balanced(h) && h.colour != h.left.colour && h.colour != h.right.colour ==>
              Balanced(FlipColours(h)) && BlackHeight(FlipColours(h)) == BlackHeight(h)
  {
    var x := FlipColours(h);
    assert Keys(x.left) == Keys(h.left) && Keys(x.right) == Keys(h.right);
    assert Ordered(x.left) == Ordered(h.left) && Ordered(x.right) == Ordered(h.right);
    assert Balanced(x.left) == Balanced(h.left) && Balanced(x.right) == Balanced(h.right);
  }

  /** fix_up_2_3, in the source's order: rotate left a right-leaning red link
      (unless the left link is red too), rotate right a red left-left run,
      then split a node whose two links are red. */
  function FixUp(h: Tree): (r: Tree)
    requires h.Node?
    ensures r.Node?
    ensures Items(r) == Items(h) && Keys(r) == Keys(h)
  {
    var h1 := if IsRed(h.right) && !IsRed(h.left) then RotateLeft(h) else h;
    var h2 := if IsRed(h1.left) && IsRed(h1.left.left) then RotateRight(h1) else h1;
    if IsRed(h2.left) && IsRed(h2.right) then FlipColours(h2) else h2
  }

  /** fix_up_2_3 keeps BST order and balance: each step it takes turns a red
      link or splits a node whose two links are red. */
  lemma FixUpKeeps(h: Tree)
    requires h.Node?
    ensures Ordered(h) ==> Ordered(FixUp(h))
    ensures Balanced(h) ==> Balanced(FixUp(h))
  {
    var h1 := if IsRed(h.right) && !IsRed(h.left) then RotateLeft(h) else h;
    if h1 != h {
      RotateLeftKeeps(h);
    }
    var h2 := if IsRed(h1.left) && IsRed(h1.left.left) then RotateRight(h1) else h1;
    if h2 != h1 {
      RotateRightKeeps(h1);
    }
    if IsRed(h2.left) && IsRed(h2.right) {
      FlipColoursKeeps(h2);
    }
  }

  /** A red node that has no red left child is already a left-leaning 2-3
      tree once its root is blackened. */
  lemma Llrb23OfBlacken(t: Tree)
    requires Llrb23(Blacken(t))
    requires IsRed(t) ==> !IsRed(t.left)
    ensures Llrb23(t)
  {
  }

  /** What fix_up_2_3 restores on the way back up, when at most one side
      carries a fault: the left child may be a red node with a red left child
      (a left-left run), the right child may be a red link (right-leaning),
      but not both at once, and a red h carries no fault below it on both
      sides. The result keeps the black height, is a left-leaning 2-3 tree up
      to a red left-left run at the root, and is one outright when h is
      black; it stays black when h is black and neither of the faults that
      force a split is present. */
  lemma {:induction false} FixUpShape(h: Tree)
    requires h.Node? && Balanced(h)
    requires Llrb23(Blacken(h.left)) && Llrb23(h.right)
    requires IsRed(h.left) && IsRed(h.left.left) ==> !IsRed(h.right)
    requires h.colour == Red ==> Llrb23(h.left) && !(IsRed(h.left) && IsRed(h.right))
    ensures Balanced(FixUp(h)) && BlackHeight(FixUp(h)) == BlackHeight(h)
    ensures Llrb23(Blacken(FixUp(h)))
    ensures h.colour == Black ==> Llrb23(FixUp(h))
    ensures (h.colour == Black && !(IsRed(h.left) && (IsRed(h.left.left) || IsRed(h.right))))
              ==> !IsRed(FixUp(h))
  {
    var l, r := h.left, h.right;
    if IsRed(r) && !IsRed(l) {
      Llrb23OfBlacken(l);
      var x := RotateLeft(h);
      RotateLeftKeeps(h);
      assert x == Node(h.colour, Node(Red, l, h.key, r.left), r.key, r.right);
      assert FixUp(h) == x;
    } else if IsRed(l) && IsRed(l.left) {
      assert !IsRed(r);
      var x := RotateRight(h);
      RotateRightKeeps(h);
      FlipColoursKeeps(x);
      assert x == Node(h.colour, l.left, l.key, Node(Red, l.right, h.key, r));
      assert NoRedRed(l.left) && LeftLeaning(l.left);
      assert FixUp(h) == FlipColours(x);
    } else {
      Llrb23OfBlacken(l);
      if IsRed(l) && IsRed(r) {
        FlipColoursKeeps(h);
        assert FixUp(h) == FlipColours(h);
      } else {
        assert FixUp(h) == h;
      }
    }
  }

  /** At the root, where the black height may change: if both children are
      left-leaning 2-3 trees, fix_up_2_3 leaves a tree that is one once its
      root is blackened. */
  lemma {:induction false} FixUpRootShape(h: Tree)
    requires h.Node? && Balanced(h)
    requires Llrb23(h.left) && Llrb23(h.right)
    ensures Balanced(FixUp(h))
    ensures Llrb23(Blacken(FixUp(h)))
  {
    var l, r := h.left, h.right;
    if IsRed(r) && !IsRed(l) {
      var x := RotateLeft(h);
      RotateLeftKeeps(h);
      assert x == Node(h.colour, Node(Red, l, h.key, r.left), r.key, r.right);
      assert FixUp(h) == x;
    } else if IsRed(l) && IsRed(r) {
      FlipColoursKeeps(h);
      assert FixUp(h) == FlipColours(h);
    } else {
      assert FixUp(h) == h;
    }
  }

  /** On a left-leaning 2-3 tree fix_up_2_3 changes nothing. */
  lemma FixUpIdentity(h: Tree)
    requires h.Node? && Llrb23(h)
    ensures FixUp(h) == h
  {
    assert !IsRed(h.right);
    assert IsRed(h.left) ==> NoRedRed(h.left) && !IsRed(h.left.left);
  }

  /** move_red_left: push a red link down towards h's left child. The flip
      makes h's two children red; if that leaves a red left-leaning link
      below h's right child, a right rotation there, a left rotation at h and
      a second flip move that red across to the left. */
  function MoveRedLeft(h: Tree): (x: Tree)
    requires h.Node? && h.left.Node? && h.right.Node?
    ensures x.Node? && x.left.Node?
    ensures Items(x) == Items(h) && Keys(x) == Keys(h)
  {
    var f := FlipColours(h);
    if IsRed(f.right.left) then
      FlipColours(RotateLeft(f.(right := RotateRight(f.right))))
    else f
  }

  /** move_red_left keeps BST order. */
  lemma MoveRedLeftKeeps(h: Tree)
    requires h.Node? && h.left.Node? && h.right.Node?
    ensures Ordered(h) ==> Ordered(MoveRedLeft(h))
  {
    var f := FlipColours(h);
    FlipColoursKeeps(h);
    if IsRed(f.right.left) {
      var f1 := f.(right := RotateRight(f.right));
      RotateRightKeeps(f.right);
      RotateLeftKeeps(f1);
      FlipColoursKeeps(RotateLeft(f1));
    }
  }

  /** move_red_right: push a red link down towards h's right child. The flip
      makes h's two children red; if that creates a red left-left run on the
      left, a right rotation at h and a second flip resolve it. */
  function MoveRedRight(h: Tree): (x: Tree)
    requires h.Node? && h.left.Node? && h.right.Node?
    ensures x.Node? && x.right.Node?
    ensures Items(x) == Items(h) && Keys(x) == Keys(h)
  {
    var f := FlipColours(h);
    if IsRed(f.left.left) then FlipColours(RotateRight(f)) else f
  }

  /** move_red_right keeps BST order. */
  lemma MoveRedRightKeeps(h: Tree)
    requires h.Node? && h.left.Node? && h.right.Node?
    ensures Ordered(h) ==> Ordered(MoveRedRight(h))
  {
    var f := FlipColours(h);
    FlipColoursKeeps(h);
    if IsRed(f.left.left) {
      RotateRightKeeps(f);
      FlipColoursKeeps(RotateRight(f));
    }
  }
}
