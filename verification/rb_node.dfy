/** Node and colour model shared by every engine: the two colours, the
    "is red" convention for absent nodes, the tree value every engine is
    abstracted to, and the red-black invariants stated on it. */
module RbNode {

  datatype Colour = Red | Black

  /** Colour.flip: the other colour. */
  function Flip(c: Colour): (r: Colour)
    ensures r != c
  {
    if c == Red then Black else Red
  }

  /** Flipping twice gives back the colour. */
  lemma FlipInvolution(c: Colour)
    ensures Flip(Flip(c)) == c && Flip(c) != c
  {
  }

  /** A (sub)tree: an absent node, or a node owning its two subtrees. */
  datatype Tree = Nil | Node(colour: Colour, left: Tree, key: int, right: Tree)

  /** is_red: an absent node counts as black. */
  predicate IsRed(t: Tree)
    ensures IsRed(t) ==> t.Node?
  {
    t.Node? && t.colour == Red
  }

  /** The tree with its root coloured black (what the tree handles do after
      every public call). */
  function Blacken(t: Tree): (r: Tree)
    ensures !IsRed(r)
    ensures r.Node? <==> t.Node?
  {
    if t.Nil? then Nil else t.(colour := Black)
  }

  /** The set of items stored in a tree. */
  function Keys(t: Tree): set<int>
  {
    if t.Nil? then {} else Keys(t.left) + {t.key} + Keys(t.right)
  }

  /** The in-order sequence of items. */
  function Items(t: Tree): seq<int>
  {
    if t.Nil? then [] else Items(t.left) + [t.key] + Items(t.right)
  }

  /** Number of nodes. */
  function Size(t: Tree): nat
  {
    if t.Nil? then 0 else Size(t.left) + 1 + Size(t.right)
  }

  /** Number of nodes on the longest root-to-nil path. */
  function Height(t: Tree): nat
  {
    if t.Nil? then 0
    else
      var hl, hr := Height(t.left), Height(t.right);
      1 + (if hl < hr then hr else hl)
  }

  /** BST order: everything left of a node is smaller, everything right of it
      is larger. */
  ghost predicate Ordered(t: Tree)
  {
    match t
    case Nil => true
    case Node(_, l, k, r) =>
      && Ordered(l) && Ordered(r)
      && (forall x :: x in Keys(l) ==> x < k)
      && (forall x :: x in Keys(r) ==> k < x)
  }

  /** Number of black nodes on the leftmost path from (and including) the root
      down to nil; on a balanced tree every path has this count. */
  function BlackHeight(t: Tree): nat
  {
    if t.Nil? then 0
    else BlackHeight(t.left) + (if t.colour == Black then 1 else 0)
  }

  /** Every root-to-nil path through every node has the same number of black
      nodes. */
  ghost predicate Balanced(t: Tree)
  {
    t.Node? ==>
      && Balanced(t.left) && Balanced(t.right)
      && BlackHeight(t.left) == BlackHeight(t.right)
  }

  /** No red node has a red child. */
  ghost predicate NoRedRed(t: Tree)
  {
    t.Node? ==>
      && (t.colour == Red ==> !IsRed(t.left) && !IsRed(t.right))
      && NoRedRed(t.left) && NoRedRed(t.right)
  }

  /** The invariants the parent-pointer and ancestor-stack engines keep: BST
      order, no red-red edge, equal black counts. Their root may stay red. */
  ghost predicate IsRedBlack(t: Tree)
  {
    Ordered(t) && NoRedRed(t) && Balanced(t)
  }

  ghost predicate StrictlyIncreasing(s: seq<int>)
  {
    forall i, j :: 0 <= i < j < |s| ==> s[i] < s[j]
  }

  /** The in-order sequence holds exactly the stored items. */
  lemma {:induction false} ItemsKeys(t: Tree)
    ensures forall x :: x in Items(t) <==> x in Keys(t)
    ensures |Items(t)| == Size(t)
  {
    if t.Node? {
      ItemsKeys(t.left);
      ItemsKeys(t.right);
    }
  }

  /** to_list of an ordered tree is strictly ascending: every item exactly
      once, in order. */
  lemma {:induction false} OrderedItemsSorted(t: Tree)
    requires Ordered(t)
    ensures StrictlyIncreasing(Items(t))
    ensures forall x :: x in Items(t) <==> x in Keys(t)
  {
    ItemsKeys(t);
    if t.Node? {
      OrderedItemsSorted(t.left);
      OrderedItemsSorted(t.right);
      var a, b := Items(t.left), Items(t.right);
      var s := Items(t);
      assert s == a + [t.key] + b;
      forall i, j | 0 <= i < j < |s| ensures s[i] < s[j] {
        if j < |a| {
        } else if j == |a| {
          assert s[i] == a[i] && a[i] in Keys(t.left);
        } else if i < |a| {
          assert s[i] == a[i] && a[i] in Keys(t.left);
          assert s[j] == b[j - |a| - 1] && b[j - |a| - 1] in Keys(t.right);
        } else if i == |a| {
          assert s[j] == b[j - |a| - 1] && b[j - |a| - 1] in Keys(t.right);
        } else {
          assert s[i] == b[i - |a| - 1] && s[j] == b[j - |a| - 1];
        }
      }
    }
  }

  /** A rotation keeps BST order whatever the colours: both shapes say
      a < x < b < y < c. */
  lemma OrderedRotation(a: Tree, x: int, b: Tree, y: int, c: Tree,
                        c1: Colour, c2: Colour, c3: Colour, c4: Colour)
    ensures Ordered(Node(c1, a, x, Node(c2, b, y, c))) <==> Ordered(Node(c3, Node(c4, a, x, b), y, c))
  {
    var lo, hi := Node(c1, a, x, Node(c2, b, y, c)), Node(c3, Node(c4, a, x, b), y, c);
    var bc, ab := lo.right, hi.left;
    assert Keys(bc) == Keys(b) + {y} + Keys(c);
    assert Keys(ab) == Keys(a) + {x} + Keys(b);
    if Ordered(lo) {
      assert Ordered(bc) && x < y;
      forall k | k in Keys(ab) ensures k < y {
        if k in Keys(a) { assert k < x; }
      }
      forall k | k in Keys(b) ensures x < k {
        assert k in Keys(bc);
      }
      assert Ordered(ab);
    }
    if Ordered(hi) {
      assert Ordered(ab) && x < y;
      forall k | k in Keys(bc) ensures x < k {
        if k in Keys(c) { assert y < k; }
      }
      forall k | k in Keys(b) ensures k < y {
        assert k in Keys(ab);
      }
      assert Ordered(bc);
    }
  }

  /** Two strictly ascending sequences with the same elements are equal: so
      "to_list is ascending and holds exactly the inserted items" pins
      to_list down to the sorted list of distinct inserted items. */
  lemma {:induction false} SortedUnique(s: seq<int>, u: seq<int>)
    requires StrictlyIncreasing(s) && StrictlyIncreasing(u)
    requires forall x :: x in s <==> x in u
    ensures s == u
  {
    if s != [] && u != [] {
      SameHead(s, u);
      SameTail(s, u);
      SortedUnique(s[1..], u[1..]);
      assert s == [s[0]] + s[1..] && u == [u[0]] + u[1..];
    } else if s != [] {
      HeadIn(s);
      assert false;
    } else if u != [] {
      HeadIn(u);
      assert false;
    }
  }

  lemma SameHead(s: seq<int>, u: seq<int>)
    requires StrictlyIncreasing(s) && StrictlyIncreasing(u) && s != [] && u != []
    requires forall x :: x in s <==> x in u
    ensures s[0] == u[0]
  {
    assert s[0] in s && u[0] in u;
    var i :| 0 <= i < |u| && u[i] == s[0];
    var j :| 0 <= j < |s| && s[j] == u[0];
    assert u[0] <= u[i] && s[0] <= s[j];
  }

  lemma SameTail(s: seq<int>, u: seq<int>)
    requires StrictlyIncreasing(s) && StrictlyIncreasing(u) && s != [] && u != [] && s[0] == u[0]
    requires forall x :: x in s <==> x in u
    ensures StrictlyIncreasing(s[1..]) && StrictlyIncreasing(u[1..])
    ensures forall x :: x in s[1..] <==> x in u[1..]
  {
    forall x | x in s[1..] ensures x in u[1..] {
      TailMember(s, u, x);
    }
    forall x | x in u[1..] ensures x in s[1..] {
      TailMember(u, s, x);
    }
  }

  lemma TailMember(s: seq<int>, u: seq<int>, x: int)
    requires StrictlyIncreasing(s) && StrictlyIncreasing(u) && s != [] && u != [] && s[0] == u[0]
    requires forall x :: x in s <==> x in u
    requires x in s[1..]
    ensures x in u[1..]
  {
    var i :| 1 <= i < |s| && s[i] == x;
    assert s[i] in s;
    var j :| 0 <= j < |u| && u[j] == x;
    assert j != 0 && u[1..][j - 1] == x;
  }

  /** Dropping the head of a strictly ascending sequence removes exactly
      that element. */
  lemma DropHead(s: seq<int>)
    requires StrictlyIncreasing(s) && s != []
    ensures forall x :: x in s[1..] <==> x in s && x != s[0]
  {
    forall x | x in s && x != s[0] ensures x in s[1..] {
      var i :| 0 <= i < |s| && s[i] == x;
      assert s[1..][i - 1] == x;
    }
    forall x | x in s[1..] ensures x != s[0] {
      var i :| 0 <= i < |s[1..]| && s[1..][i] == x;
      assert s[i + 1] == x;
    }
  }

  lemma HeadIn(s: seq<int>)
    requires s != []
    ensures s[0] in s
  {
  }

  function Pow2(n: nat): (r: nat)
    ensures r >= 1
  {
    if n == 0 then 1 else 2 * Pow2(n - 1)
  }

  lemma {:induction false} Pow2Add(a: nat, b: nat)
    ensures Pow2(a + b) == Pow2(a) * Pow2(b)
  {
    if a > 0 {
      Pow2Add(a - 1, b);
      assert Pow2(a + b) == 2 * Pow2(a - 1 + b);
    }
  }

  lemma {:induction false} Pow2Mono(a: nat, b: nat)
    requires a <= b
    ensures Pow2(a) <= Pow2(b)
  {
    if a < b {
      Pow2Mono(a, b - 1);
    }
  }

  /** A balanced tree holds at least 2^bh - 1 items, one more doubling when
      its root is red. */
  lemma {:induction false} SizeBound(t: Tree)
    requires Balanced(t)
    ensures Pow2(BlackHeight(t) + (if IsRed(t) then 1 else 0)) <= Size(t) + 1
  {
    if t.Node? {
      SizeBound(t.left);
      SizeBound(t.right);
      var b := BlackHeight(t.left);
      Pow2Mono(b, BlackHeight(t.left) + (if IsRed(t.left) then 1 else 0));
      Pow2Mono(b, BlackHeight(t.right) + (if IsRed(t.right) then 1 else 0));
      DoubleBound(Pow2(b), Size(t.left), Size(t.right));
      assert BlackHeight(t) + (if IsRed(t) then 1 else 0) == b + 1;
      assert Pow2(b + 1) == 2 * Pow2(b);
    }
  }

  lemma DoubleBound(p: int, l: nat, r: nat)
    requires p <= l + 1 && p <= r + 1
    ensures 2 * p <= l + 1 + r + 1
  {
  }

  /** Without red-red edges, a path has at most one red node per black one
      (plus a red root). */
  lemma {:induction false} HeightBound(t: Tree)
    requires Balanced(t) && NoRedRed(t)
    ensures Height(t) <= 2 * BlackHeight(t) + (if IsRed(t) then 1 else 0)
  {
    if t.Node? {
      HeightBound(t.left);
      HeightBound(t.right);
    }
  }

  lemma SquareMono(p: nat, n: nat)
    requires p <= n
    ensures p * p <= n * n
  {
    assert p * p <= p * n;
  }

  /** The red-black height guarantee in integer form:
      height <= 2 * log2(n + 1), i.e. 2^height <= (n + 1)^2. */
  lemma LogHeight(t: Tree)
    requires Balanced(t) && NoRedRed(t)
    ensures Pow2(Height(t)) <= (Size(t) + 1) * (Size(t) + 1)
  {
    HeightBound(t);
    SizeBound(t);
    var e := BlackHeight(t) + (if IsRed(t) then 1 else 0);
    Pow2Mono(Height(t), e + e);
    Pow2Add(e, e);
    SquareMono(Pow2(e), Size(t) + 1);
  }

  /** The in-order items still owed by a stack of nodes whose left subtrees
      have been listed: each node's key, then its right subtree, from the
      top of the stack (the end of the sequence) down. */
  ghost function Pending(stack: seq<Tree>): seq<int>
  {
    if stack == [] then []
    else
      var top := stack[|stack| - 1];
      (if top.Node? then [top.key] + Items(top.right) else []) + Pending(stack[..|stack| - 1])
  }

  lemma PendingPush(stack: seq<Tree>, c: Tree)
    requires c.Node?
    ensures Items(c) + Pending(stack) == Items(c.left) + Pending(stack + [c])
  {
    assert (stack + [c])[..|stack|] == stack;
  }

  lemma PendingPop(stack: seq<Tree>)
    requires stack != [] && stack[|stack| - 1].Node?
    ensures Pending(stack) ==
      [stack[|stack| - 1].key] + Items(stack[|stack| - 1].right) + Pending(stack[..|stack| - 1])
  {
  }

  /** Popping the top of the stack after the left descent has run out:
      its key is emitted and its right subtree becomes the cursor. */
  lemma PendingPopStep(xs: seq<int>, below: seq<Tree>, top: Tree, whole: seq<int>)
    requires top.Node?
    requires xs + (Items(Nil) + Pending(below + [top])) == whole
    ensures (xs + [top.key]) + (Items(top.right) + Pending(below)) == whole
  {
    var rest := Items(top.right) + Pending(below);
    assert Items(Nil) + Pending(below + [top]) == [top.key] + rest by {
      assert (below + [top])[..|below|] == below;
    }
    MoveOne(xs, top.key, rest, Items(Nil) + Pending(below + [top]), whole);
  }

  lemma MoveOne(xs: seq<int>, k: int, rest: seq<int>, pending: seq<int>, whole: seq<int>)
    requires pending == [k] + rest && xs + pending == whole
    ensures (xs + [k]) + rest == whole
  {
    AppendAssoc(xs, [k], rest);
  }

  lemma AppendAssoc(a: seq<int>, b: seq<int>, c: seq<int>)
    ensures a + (b + c) == (a + b) + c
  {
  }
}
