/** Positions in a tree, named by the path of left/right turns from the
    root, and the insertion fix-up of the parent-pointer and ancestor-stack
    engines stated on tree values: each case of the loop (P black, P a red
    root, I1, I4, I5) is a lemma about what one step does to the tree. */
module TreePaths {
  import opened RbNode

  /** A path from the root: false turns left, true turns right. */
  type Path = seq<bool>

  function Child(t: Tree, right: bool): Tree
    requires t.Node?
  {
    if right then t.right else t.left
  }

  /** The subtree at path q (Nil once the path leaves the tree). */
  function Sub(t: Tree, q: Path): Tree
    decreases |q|
  {
    if q == [] then t
    else if t.Nil? then Nil
    else Sub(Child(t, q[0]), q[1..])
  }

  /** t with the subtree at path q replaced by s (t itself when the path
      leaves the tree before its end). */
  function Graft(t: Tree, q: Path, s: Tree): Tree
    decreases |q|
  {
    if q == [] then s
    else if t.Nil? then Nil
    else if q[0] then t.(right := Graft(t.right, q[1..], s))
    else t.(left := Graft(t.left, q[1..], s))
  }

  /** Every proper prefix of q names a node: q names a node or the empty
      slot just below one. */
  ghost predicate OnPath(t: Tree, q: Path)
    decreases |q|
  {
    q == [] || (t.Node? && OnPath(Child(t, q[0]), q[1..]))
  }

  /** The node at q recoloured to c. */
  function Recolour(t: Tree, q: Path, c: Colour): Tree
  {
    if Sub(t, q).Nil? then t else Graft(t, q, Sub(t, q).(colour := c))
  }

  /** _dir_rotate on values: with right, the left child S comes up and the
      node becomes its right child, S's inner (right) subtree moving under
      the node; without, the mirror. No node changes colour. */
  function DirRot(t: Tree, right: bool): (x: Tree)
    ensures Items(x) == Items(t) && Keys(x) == Keys(t)
  {
    if t.Nil? || Child(t, !right).Nil? then t
    else if right then
      Node(t.left.colour, t.left.left, t.left.key, Node(t.colour, t.left.right, t.key, t.right))
    else
      Node(t.right.colour, Node(t.colour, t.left, t.key, t.right.left), t.right.key, t.right.right)
  }

  /** The path a BST search for key follows: to the node holding it, or to
      the empty slot where it would hang. */
  function SearchPath(t: Tree, key: int): Path
  {
    if t.Nil? || key == t.key then []
    else if key < t.key then [false] + SearchPath(t.left, key)
    else [true] + SearchPath(t.right, key)
  }

  /** The parent of the node at q is black (or q is the root). */
  ghost predicate ParentBlack(t: Tree, q: Path)
  {
    q == [] || !IsRed(Sub(t, q[..|q| - 1]))
  }

  /** The fix-up loop's invariant on colours: the only red-red edge allowed
      is the one from the parent of the node at q down to it. Stated as: the
      subtree at q has no red-red edge, and neither would the tree if the
      node at q were black. */
  ghost predicate NoRedRedExcept(t: Tree, q: Path)
  {
    NoRedRed(Sub(t, q)) && NoRedRed(Graft(t, q, Blacken(Sub(t, q))))
  }

  // ----- paths -----

  lemma {:induction false} SubNodeOnPath(t: Tree, q: Path)
    requires Sub(t, q).Node?
    ensures OnPath(t, q)
    decreases |q|
  {
    if q != [] {
      SubNodeOnPath(Child(t, q[0]), q[1..]);
    }
  }

  /** On a path, the node above the last step exists. */
  lemma {:induction false} OnPathParent(t: Tree, q: Path)
    requires OnPath(t, q) && q != []
    ensures Sub(t, q[..|q| - 1]).Node?
    decreases |q|
  {
    if |q| > 1 {
      assert q[..|q| - 1][1..] == q[1..][..|q[1..]| - 1];
      OnPathParent(Child(t, q[0]), q[1..]);
    }
  }

  lemma {:induction false} SubGraft(t: Tree, q: Path, s: Tree)
    requires OnPath(t, q)
    ensures Sub(Graft(t, q, s), q) == s
    decreases |q|
  {
    if q != [] {
      SubGraft(Child(t, q[0]), q[1..], s);
    }
  }

  lemma {:induction false} GraftSub(t: Tree, q: Path)
    ensures Graft(t, q, Sub(t, q)) == t
    decreases |q|
  {
    if q != [] && t.Node? {
      GraftSub(Child(t, q[0]), q[1..]);
    }
  }

  lemma {:induction false} SubAppend(t: Tree, q1: Path, q2: Path)
    ensures Sub(t, q1 + q2) == Sub(Sub(t, q1), q2)
    decreases |q1|
  {
    if q1 == [] {
      assert q1 + q2 == q2;
    } else if t.Nil? {
      NilSub(q2);
    } else {
      assert (q1 + q2)[1..] == q1[1..] + q2;
      SubAppend(Child(t, q1[0]), q1[1..], q2);
    }
  }

  lemma {:induction false} NilSub(q: Path)
    ensures Sub(Nil, q) == Nil
  {
  }

  lemma {:induction false} OnPathAppend(t: Tree, q1: Path, q2: Path)
    requires OnPath(t, q1) && OnPath(Sub(t, q1), q2)
    ensures OnPath(t, q1 + q2)
    decreases |q1|
  {
    if q1 == [] {
      assert q1 + q2 == q2;
    } else {
      assert (q1 + q2)[1..] == q1[1..] + q2;
      OnPathAppend(Child(t, q1[0]), q1[1..], q2);
    }
  }

  lemma {:induction false} OnPathPrefix(t: Tree, q1: Path, q2: Path)
    requires OnPath(t, q1 + q2)
    ensures OnPath(t, q1)
    decreases |q1|
  {
    if q1 != [] {
      assert (q1 + q2)[1..] == q1[1..] + q2;
      OnPathPrefix(Child(t, q1[0]), q1[1..], q2);
    }
  }

  lemma {:induction false} GraftAppend(t: Tree, q1: Path, q2: Path, s: Tree)
    ensures Graft(t, q1 + q2, s) == Graft(t, q1, Graft(Sub(t, q1), q2, s))
    decreases |q1|
  {
    if q1 == [] {
      assert q1 + q2 == q2;
    } else if t.Nil? {
    } else {
      assert (q1 + q2)[1..] == q1[1..] + q2;
      GraftAppend(Child(t, q1[0]), q1[1..], q2, s);
    }
  }

  lemma {:induction false} GraftGraft(t: Tree, q: Path, s1: Tree, s2: Tree)
    ensures Graft(Graft(t, q, s1), q, s2) == Graft(t, q, s2)
    decreases |q|
  {
    if q != [] && t.Node? {
      GraftGraft(Child(t, q[0]), q[1..], s1, s2);
    }
  }

  /** Grafting below q and then at q is grafting at q. */
  lemma GraftBelow(t: Tree, q1: Path, q2: Path, s1: Tree, s2: Tree)
    ensures Graft(Graft(t, q1 + q2, s1), q1, s2) == Graft(t, q1, s2)
  {
    GraftAppend(t, q1, q2, s1);
    GraftGraft(t, q1, Graft(Sub(t, q1), q2, s1), s2);
  }

  /** The subtree at q after grafting below q. */
  lemma SubGraftBelow(t: Tree, q1: Path, q2: Path, s: Tree)
    requires OnPath(t, q1)
    ensures Sub(Graft(t, q1 + q2, s), q1) == Graft(Sub(t, q1), q2, s)
  {
    GraftAppend(t, q1, q2, s);
    SubGraft(t, q1, Graft(Sub(t, q1), q2, s));
  }

  /** Recolouring below q is a graft at q of the recoloured subtree. */
  lemma RecolourBelow(t: Tree, q1: Path, q2: Path, c: Colour)
    requires OnPath(t, q1)
    ensures Recolour(t, q1 + q2, c) == Graft(t, q1, Recolour(Sub(t, q1), q2, c))
  {
    SubAppend(t, q1, q2);
    if Sub(t, q1 + q2).Nil? {
      GraftSub(t, q1);
    } else {
      GraftAppend(t, q1, q2, Sub(t, q1 + q2).(colour := c));
    }
  }

  /** A subtree's keys are keys of the tree; a node on a path is a prefix
      of a longer path that still reaches a node. */
  lemma {:induction false} SubKeys(t: Tree, q: Path)
    ensures Keys(Sub(t, q)) <= Keys(t)
    ensures Sub(t, q).Node? ==> Sub(t, q).key in Keys(t)
    decreases |q|
  {
    if q != [] && t.Node? {
      SubKeys(Child(t, q[0]), q[1..]);
    }
  }

  lemma SubPrefixNode(t: Tree, q1: Path, q2: Path)
    requires Sub(t, q1 + q2).Node?
    ensures Sub(t, q1).Node?
  {
    SubAppend(t, q1, q2);
    if Sub(t, q1).Nil? {
      NilSub(q2);
    }
  }

  /** Recolouring a path below the root recolours inside the child. */
  lemma RecolourStep(t: Tree, q: Path, c: Colour)
    requires t.Node? && q != []
    ensures Recolour(t, q, c) == WithChild(t, q[0], Recolour(Child(t, q[0]), q[1..], c))
  {
  }

  // ----- what a graft keeps -----

  /** Replacing a subtree by one with the same keys keeps the keys, and the
      BST order when the replacement is ordered. */
  lemma {:induction false} OrderedGraft(t: Tree, q: Path, s: Tree)
    requires Keys(s) == Keys(Sub(t, q))
    ensures Keys(Graft(t, q, s)) == Keys(t)
    ensures Ordered(t) && Ordered(s) ==> Ordered(Graft(t, q, s))
    decreases |q|
  {
    if q != [] && t.Node? {
      OrderedGraft(Child(t, q[0]), q[1..], s);
    }
  }

  /** Replacing a subtree by one with the same in-order items keeps the
      in-order items of the whole tree. */
  lemma {:induction false} ItemsGraft(t: Tree, q: Path, s: Tree)
    requires Items(s) == Items(Sub(t, q))
    ensures Items(Graft(t, q, s)) == Items(t)
    decreases |q|
  {
    if q != [] && t.Node? {
      ItemsGraft(Child(t, q[0]), q[1..], s);
    }
  }

  /** Replacing a subtree by a balanced one of the same black height keeps
      the tree balanced and its black height. */
  lemma {:induction false} BalancedGraft(t: Tree, q: Path, s: Tree)
    requires Balanced(t) && Balanced(s)
    requires BlackHeight(s) == BlackHeight(Sub(t, q))
    ensures Balanced(Graft(t, q, s)) && BlackHeight(Graft(t, q, s)) == BlackHeight(t)
    decreases |q|
  {
    if q != [] && t.Node? {
      BalancedGraft(Child(t, q[0]), q[1..], s);
    }
  }

  /** Subtrees inherit the invariants. */
  lemma {:induction false} SubKeeps(t: Tree, q: Path)
    ensures Ordered(t) ==> Ordered(Sub(t, q))
    ensures Balanced(t) ==> Balanced(Sub(t, q))
    ensures NoRedRed(t) ==> NoRedRed(Sub(t, q))
    decreases |q|
  {
    if q != [] && t.Node? {
      SubKeeps(Child(t, q[0]), q[1..]);
    }
  }

  /** Replacing the subtree at q keeps the no-red-red rule if the
      replacement obeys it and is red only where the old subtree was red or
      its parent is black. */
  lemma {:induction false} NoRedRedReplace(t: Tree, q: Path, a: Tree, b: Tree)
    requires OnPath(t, q)
    requires NoRedRed(Graft(t, q, a)) && NoRedRed(b)
    requires IsRed(b) ==> IsRed(a) || ParentBlack(t, q)
    ensures NoRedRed(Graft(t, q, b))
    decreases |q|
  {
    if |q| >= 2 {
      var c := Child(t, q[0]);
      assert q[..|q| - 1][1..] == q[1..][..|q[1..]| - 1];
      assert Sub(t, q[..|q| - 1]) == Sub(c, q[1..][..|q[1..]| - 1]);
      NoRedRedReplace(c, q[1..], a, b);
    } else if |q| == 1 {
      assert q[..|q| - 1] == [];
      assert Sub(t, q[..|q| - 1]) == t;
      assert Graft(Child(t, q[0]), q[1..], a) == a && Graft(Child(t, q[0]), q[1..], b) == b;
    }
  }

  // ----- the rotation -----

  /** The two rotations written out. */
  lemma DirRotShape(t: Tree, right: bool)
    requires t.Node? && Child(t, !right).Node?
    ensures right ==>
      DirRot(t, right) == Node(t.left.colour, t.left.left, t.left.key, Node(t.colour, t.left.right, t.key, t.right))
    ensures !right ==>
      DirRot(t, right) == Node(t.right.colour, Node(t.colour, t.left, t.key, t.right.left), t.right.key, t.right.right)
  {
  }

  /** _dir_rotate keeps BST order; a rotation that lifts a red child under
      a red node keeps balance and the black height. */
  lemma DirRotKeeps(t: Tree, right: bool)
    ensures Ordered(t) ==> Ordered(DirRot(t, right))
    ensures Balanced(t) && IsRed(t) && (t.Node? ==> IsRed(Child(t, !right))) ==>
              Balanced(DirRot(t, right)) && BlackHeight(DirRot(t, right)) == BlackHeight(t)
  {
    if t.Node? && Child(t, !right).Node? {
      var s := Child(t, !right);
      if right {
        OrderedRotation(s.left, s.key, s.right, t.key, t.right, s.colour, t.colour, t.colour, s.colour);
      } else {
        OrderedRotation(t.left, t.key, s.left, s.key, s.right, t.colour, s.colour, s.colour, t.colour);
      }
      if Balanced(t) {
        assert Balanced(s);
      }
    }
  }

  // ----- the insertion point -----

  /** The search for an absent key ends at an empty slot, and hanging a new
      leaf there keeps BST order and adds exactly that key. */
  lemma {:induction false} SearchPathLeaf(t: Tree, key: int, c: Colour)
    requires Ordered(t) && key !in Keys(t)
    ensures OnPath(t, SearchPath(t, key)) && Sub(t, SearchPath(t, key)).Nil?
    ensures Ordered(Graft(t, SearchPath(t, key), Node(c, Nil, key, Nil)))
    ensures Keys(Graft(t, SearchPath(t, key), Node(c, Nil, key, Nil))) == Keys(t) + {key}
  {
    if t.Node? {
      if key < t.key {
        SearchPathLeaf(t.left, key, c);
      } else {
        SearchPathLeaf(t.right, key, c);
      }
    }
  }

  /** The search for a present key ends at the node holding it. */
  lemma {:induction false} SearchPathFound(t: Tree, key: int)
    requires Ordered(t) && key in Keys(t)
    ensures Sub(t, SearchPath(t, key)).Node? && Sub(t, SearchPath(t, key)).key == key
  {
    if key < t.key {
      SearchPathFound(t.left, key);
    } else if key > t.key {
      SearchPathFound(t.right, key);
    }
  }

  /** One step of the search loop: going below the node at q towards key. */
  lemma SearchPathStep(t: Tree, q: Path, key: int)
    requires Sub(t, q).Node? && key != Sub(t, q).key
    requires SearchPath(t, key) == q + SearchPath(Sub(t, q), key)
    ensures SearchPath(t, key) ==
              (q + [key > Sub(t, q).key]) + SearchPath(Sub(t, q + [key > Sub(t, q).key]), key)
  {
    var d := key > Sub(t, q).key;
    SubAppend(t, q, [d]);
    assert Sub(Sub(t, q), [d]) == Child(Sub(t, q), d);
    assert SearchPath(Sub(t, q), key) == [d] + SearchPath(Child(Sub(t, q), d), key);
  }

  // ----- one and two steps down -----

  /** t with the child on the given side replaced by c. */
  function WithChild(t: Tree, right: bool, c: Tree): (r: Tree)
    requires t.Node?
    ensures r.Node? && r.colour == t.colour && r.key == t.key
    ensures Child(r, right) == c && Child(r, !right) == Child(t, !right)
  {
    if right then t.(right := c) else t.(left := c)
  }

  lemma OneStep(t: Tree, d: bool, s: Tree)
    requires t.Node?
    ensures Sub(t, [d]) == Child(t, d)
    ensures Graft(t, [d], s) == WithChild(t, d, s)
  {
    assert [d][1..] == [];
  }

  lemma TwoSteps(t: Tree, d1: bool, d2: bool, s: Tree)
    requires t.Node? && Child(t, d1).Node?
    ensures Sub(t, [d1, d2]) == Child(Child(t, d1), d2)
    ensures Graft(t, [d1, d2], s) == WithChild(t, d1, WithChild(Child(t, d1), d2, s))
  {
    assert [d1, d2][1..] == [d2];
    OneStep(Child(t, d1), d2, s);
  }

  lemma {:induction false} OnPathGraft(t: Tree, q: Path, s: Tree)
    requires OnPath(t, q)
    ensures OnPath(Graft(t, q, s), q)
    decreases |q|
  {
    if q != [] {
      OnPathGraft(Child(t, q[0]), q[1..], s);
    }
  }

  /** Grafting inside a subtree that was itself grafted at q1. */
  lemma GraftInto(t: Tree, q1: Path, q2: Path, g: Tree, s: Tree)
    requires OnPath(t, q1)
    ensures Graft(Graft(t, q1, g), q1 + q2, s) == Graft(t, q1, Graft(g, q2, s))
    ensures Sub(Graft(t, q1, g), q1 + q2) == Sub(g, q2)
  {
    var t1 := Graft(t, q1, g);
    GraftAppend(t1, q1, q2, s);
    SubGraft(t, q1, g);
    GraftGraft(t, q1, g, Graft(g, q2, s));
    SubAppend(t1, q1, q2);
  }

  /** Recolouring inside a subtree that was itself grafted at q1. */
  lemma RecolourInto(t: Tree, q1: Path, q2: Path, g: Tree, c: Colour)
    requires OnPath(t, q1)
    ensures Recolour(Graft(t, q1, g), q1 + q2, c) == Graft(t, q1, Recolour(g, q2, c))
  {
    OnPathGraft(t, q1, g);
    RecolourBelow(Graft(t, q1, g), q1, q2, c);
    SubGraft(t, q1, g);
    GraftGraft(t, q1, g, Recolour(g, q2, c));
  }

  // ----- the fix-up loop -----

  /** The fix-up loop's invariant with N at path q: BST order and black
      balance hold, N is red, and N's edge to its parent is the only place
      two reds may meet. */
  ghost predicate Fixing(t: Tree, q: Path)
  {
    Ordered(t) && Balanced(t) && IsRed(Sub(t, q)) && NoRedRedExcept(t, q)
  }

  /** The loop invariant seen from the grandparent G of N: the subtree at G
      carries the same invariant for the two steps down to N. */
  lemma FixingLocal(t: Tree, qG: Path, d1: bool, d2: bool)
    requires Fixing(t, qG + [d1, d2])
    ensures OnPath(t, qG + [d1, d2]) && OnPath(t, qG)
    ensures Sub(t, qG).Node? && Child(Sub(t, qG), d1).Node?
    ensures Sub(t, qG + [d1]) == Child(Sub(t, qG), d1)
    ensures Sub(t, qG + [!d1]) == Child(Sub(t, qG), !d1)
    ensures Sub(t, qG + [d1, d2]) == Child(Child(Sub(t, qG), d1), d2)
    ensures var g := Sub(t, qG);
      NoRedRed(Graft(g, [d1, d2], Blacken(Child(Child(g, d1), d2))))
    ensures Ordered(Sub(t, qG)) && Balanced(Sub(t, qG))
  {
    var q := qG + [d1, d2];
    SubNodeOnPath(t, q);
    OnPathPrefix(t, qG, [d1, d2]);
    var g := Sub(t, qG);
    SubAppend(t, qG, [d1, d2]);
    assert g.Node?;
    OneStep(g, d1, Nil);
    OneStep(g, !d1, Nil);
    SubAppend(t, qG, [d1]);
    SubAppend(t, qG, [!d1]);
    TwoSteps(g, d1, d2, Nil);
    var n := Sub(t, q);
    SubGraftBelow(t, qG, [d1, d2], Blacken(n));
    SubKeeps(Graft(t, q, Blacken(n)), qG);
    SubKeeps(t, qG);
  }

  /** Where the loop stops because N's parent is black, the tree is a
      red-black tree. */
  lemma FixStop(t: Tree, q: Path)
    requires q != [] && Fixing(t, q)
    requires !IsRed(Sub(t, q[..|q| - 1]))
    ensures IsRedBlack(t)
  {
    SubNodeOnPath(t, q);
    NoRedRedReplace(t, q, Blacken(Sub(t, q)), Sub(t, q));
    GraftGraft(t, q, Blacken(Sub(t, q)), Sub(t, q));
    GraftSub(t, q);
  }

  /** Case I6: N's parent is the red root; blackening the root gives a
      red-black tree with the same keys. */
  lemma FixRoot(t: Tree, d: bool)
    requires Fixing(t, [d]) && IsRed(t)
    ensures IsRedBlack(Recolour(t, [], Black))
    ensures Keys(Recolour(t, [], Black)) == Keys(t)
  {
    var n := Sub(t, [d]);
    OneStep(t, d, Blacken(n));
    assert Recolour(t, [], Black) == t.(colour := Black);
    assert NoRedRed(Child(t, !d));
  }

  /** Hanging the new red node at the end of the search path starts the
      loop: the keys grow by the new key and the invariant holds at it. */
  lemma FixStart(t: Tree, key: int)
    requires IsRedBlack(t) && key !in Keys(t)
    ensures var q := SearchPath(t, key);
      var t1 := Graft(t, q, Node(Red, Nil, key, Nil));
      Keys(t1) == Keys(t) + {key} && Fixing(t1, q) && Sub(t, q).Nil? && OnPath(t, q)
  {
    var q := SearchPath(t, key);
    var leaf := Node(Red, Nil, key, Nil);
    SearchPathLeaf(t, key, Red);
    BalancedGraft(t, q, leaf);
    SubGraft(t, q, leaf);
    GraftGraft(t, q, leaf, Blacken(leaf));
    GraftSub(t, q);
    NoRedRedReplace(t, q, Nil, Blacken(leaf));
  }

  /** Case I1 on the subtree at the grandparent: P and U red become black
      and G becomes red. */
  lemma LocalI1(g: Tree, dP: bool, dN: bool)
    requires g.Node? && IsRed(Child(g, dP)) && IsRed(Child(g, !dP))
    requires IsRed(Child(Child(g, dP), dN)) && NoRedRed(Child(Child(g, dP), dN))
    requires NoRedRed(WithChild(g, dP, WithChild(Child(g, dP), dN, Blacken(Child(Child(g, dP), dN)))))
    requires Balanced(g)
    ensures var g1 := Node(Red, g.left.(colour := Black), g.key, g.right.(colour := Black));
      NoRedRed(g1) && Balanced(g1) && BlackHeight(g1) == BlackHeight(g)
      && Keys(g1) == Keys(g) && (Ordered(g) ==> Ordered(g1))
  {
    var p := Child(g, dP);
    assert NoRedRed(WithChild(p, dN, Blacken(Child(p, dN))));
    assert NoRedRed(Child(p, !dN));
    if Ordered(g) {
      RecolourRootKeeps(g.left, Black);
      RecolourRootKeeps(g.right, Black);
    }
  }

  /** Recolouring a node keeps its keys and BST order. */
  lemma RecolourRootKeeps(t: Tree, c: Colour)
    requires t.Node?
    ensures Keys(t.(colour := c)) == Keys(t)
    ensures Ordered(t) ==> Ordered(t.(colour := c))
  {
  }

  /** Case I4 on the subtree at the parent: rotating the inner red child N
      above P turns the inner configuration into the outer one. */
  lemma LocalI4(p: Tree, dP: bool)
    requires IsRed(p) && IsRed(Child(p, !dP)) && NoRedRed(Child(p, !dP))
    requires NoRedRed(WithChild(p, !dP, Blacken(Child(p, !dP))))
    requires Balanced(p)
    ensures var p1 := DirRot(p, dP);
      IsRed(p1) && IsRed(Child(p1, dP)) && NoRedRed(Child(p1, dP))
      && NoRedRed(WithChild(p1, dP, Blacken(Child(p1, dP))))
      && Balanced(p1) && BlackHeight(p1) == BlackHeight(p)
      && (Ordered(p) ==> Ordered(p1))
  {
    DirRotKeeps(p, dP);
    assert NoRedRed(Child(p, dP));
  }

  /** Case I5 on the subtree at the grandparent: P black, G red, then the
      rotation at G lifts P to the top of the subtree. */
  lemma LocalI5(g: Tree, dP: bool)
    requires g.Node? && IsRed(Child(g, dP)) && !IsRed(Child(g, !dP))
    requires IsRed(Child(Child(g, dP), dP)) && NoRedRed(Child(Child(g, dP), dP))
    requires NoRedRed(WithChild(g, dP, WithChild(Child(g, dP), dP, Blacken(Child(Child(g, dP), dP)))))
    requires Balanced(g)
    ensures var g3 := DirRot(WithChild(g.(colour := Red), dP, Child(g, dP).(colour := Black)), !dP);
      !IsRed(g3) && NoRedRed(g3) && Balanced(g3) && BlackHeight(g3) == BlackHeight(g)
      && Keys(g3) == Keys(g) && (Ordered(g) ==> Ordered(g3))
  {
    var p := Child(g, dP);
    var g2 := WithChild(g.(colour := Red), dP, p.(colour := Black));
    assert NoRedRed(WithChild(p, dP, Blacken(Child(p, dP))));
    assert NoRedRed(Child(p, !dP)) && !IsRed(Child(p, !dP));
    assert NoRedRed(Child(g, !dP));
    assert Keys(g2) == Keys(g);
    if Ordered(g) {
      RecolourRootKeeps(p, Black);
      if dP {
        assert g2 == Node(Red, g.left, g.key, p.(colour := Black));
      } else {
        assert g2 == Node(Red, p.(colour := Black), g.key, g.right);
      }
      DirRotKeeps(g2, !dP);
    }
  }

  /** Case I1: P and the uncle U are red. Colouring them black and G red
      keeps the keys, order and black balance, and moves the invariant up
      to G; if G is the root the loop ends with a red-black tree (whose
      root may be red). */
  lemma FixI1(t: Tree, qG: Path, dP: bool, dN: bool)
    requires Fixing(t, qG + [dP, dN])
    requires IsRed(Sub(t, qG + [dP])) && IsRed(Sub(t, qG + [!dP]))
    ensures var t1 := Recolour(Recolour(Recolour(t, qG + [dP], Black), qG + [!dP], Black), qG, Red);
      Keys(t1) == Keys(t) && (qG == [] ==> IsRedBlack(t1)) && (qG != [] ==> Fixing(t1, qG))
  {
    FixingLocal(t, qG, dP, dN);
    var g := Sub(t, qG);
    var p, u := Child(g, dP), Child(g, !dP);
    var n := Child(p, dN);
    TwoSteps(g, dP, dN, Blacken(n));
    LocalI1(g, dP, dN);
    var g1 := Node(Red, g.left.(colour := Black), g.key, g.right.(colour := Black));
    var ga := WithChild(g, dP, p.(colour := Black));
    var gb := WithChild(ga, !dP, u.(colour := Black));
    OneStep(g, dP, p.(colour := Black));
    OneStep(ga, !dP, u.(colour := Black));
    GraftSub(t, qG);
    RecolourInto(t, qG, [dP], g, Black);
    RecolourInto(t, qG, [!dP], ga, Black);
    assert qG + [] == qG;
    RecolourInto(t, qG, [], gb, Red);
    assert gb.(colour := Red) == g1;
    OrderedGraft(t, qG, g1);
    BalancedGraft(t, qG, g1);
    if qG != [] {
      SubGraft(t, qG, g1);
      GraftGraft(t, qG, g1, Blacken(g1));
      GraftAppend(t, qG, [dP, dN], Blacken(n));
      NoRedRedReplace(t, qG, Graft(g, [dP, dN], Blacken(n)), Blacken(g1));
    }
  }

  /** Case I4: P is red, U is not, and N is the inner grandchild of G.
      Rotating at P brings N up; the old P is now the red outer grandchild,
      the invariant holds there, and the uncle is untouched. */
  lemma FixI4(t: Tree, qG: Path, dP: bool)
    requires Fixing(t, qG + [dP, !dP])
    requires IsRed(Sub(t, qG + [dP])) && !IsRed(Sub(t, qG + [!dP]))
    ensures var t1 := Graft(t, qG + [dP], DirRot(Sub(t, qG + [dP]), dP));
      Fixing(t1, qG + [dP, dP]) && IsRed(Sub(t1, qG + [dP]))
      && Sub(t1, qG + [!dP]) == Sub(t, qG + [!dP]) && Keys(t1) == Keys(t)
  {
    FixingLocal(t, qG, dP, !dP);
    var g := Sub(t, qG);
    var qP := qG + [dP];
    var p := Child(g, dP);
    var n := Child(p, !dP);
    var p1 := DirRot(p, dP);
    TwoSteps(g, dP, !dP, Blacken(n));
    assert NoRedRed(WithChild(p, !dP, Blacken(n)));
    LocalI4(p, dP);
    var t1 := Graft(t, qP, p1);
    SubNodeOnPath(t, qP);
    OrderedGraft(t, qP, p1);
    BalancedGraft(t, qP, p1);
    SubGraft(t, qP, p1);
    assert qG + [dP, dP] == qP + [dP];
    assert qG + [dP, !dP] == qP + [!dP];
    GraftInto(t, qP, [dP], p1, Blacken(Child(p1, dP)));
    OneStep(p1, dP, Blacken(Child(p1, dP)));
    GraftAppend(t, qP, [!dP], Blacken(n));
    OneStep(p, !dP, Blacken(n));
    NoRedRedReplace(t, qP, WithChild(p, !dP, Blacken(n)), WithChild(p1, dP, Blacken(Child(p1, dP))));
    var g1 := WithChild(g, dP, p1);
    GraftAppend(t, qG, [dP], p1);
    OneStep(g, dP, p1);
    GraftInto(t, qG, [!dP], g1, Nil);
    OneStep(g1, !dP, Nil);
  }

  /** Case I5: P is red, U is not, and N is the outer grandchild of G.
      Colouring P black and G red and rotating at G away from P ends the
      loop with a red-black tree holding the same keys. */
  lemma FixI5(t: Tree, qG: Path, dP: bool)
    requires Fixing(t, qG + [dP, dP])
    requires IsRed(Sub(t, qG + [dP])) && !IsRed(Sub(t, qG + [!dP]))
    ensures var t2 := Recolour(Recolour(t, qG + [dP], Black), qG, Red);
      var t3 := Graft(t2, qG, DirRot(Sub(t2, qG), !dP));
      IsRedBlack(t3) && Keys(t3) == Keys(t)
  {
    FixingLocal(t, qG, dP, dP);
    var g := Sub(t, qG);
    var p := Child(g, dP);
    var n := Child(p, dP);
    TwoSteps(g, dP, dP, Blacken(n));
    LocalI5(g, dP);
    var ga := WithChild(g, dP, p.(colour := Black));
    OneStep(g, dP, p.(colour := Black));
    GraftSub(t, qG);
    RecolourInto(t, qG, [dP], g, Black);
    assert qG + [] == qG;
    RecolourInto(t, qG, [], ga, Red);
    var g2 := ga.(colour := Red);
    assert g2 == WithChild(g.(colour := Red), dP, p.(colour := Black));
    SubGraft(t, qG, g2);
    var g3 := DirRot(g2, !dP);
    GraftGraft(t, qG, g2, g3);
    OrderedGraft(t, qG, g3);
    BalancedGraft(t, qG, g3);
    GraftAppend(t, qG, [dP, dP], Blacken(n));
    NoRedRedReplace(t, qG, Graft(g, [dP, dP], Blacken(n)), g3);
  }
}
