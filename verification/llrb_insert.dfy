/** LLRB insertion (the recursive insert of llrb.py): a plain BST descent
    that adds a red leaf, with fix_up_2_3 applied to every node on the way
    back up. */
module LlrbInsert {
  import opened RbNode
  import opened LlrbNode

  /** cmp: the sign of a - b, as -1, 0 or 1. */
  function Cmp(a: int, b: int): (c: int)
    ensures c == -1 || c == 0 || c == 1
    ensures c < 0 <==> a < b
    ensures c == 0 <==> a == b
    ensures c > 0 <==> a > b
  {
    (if a > b then 1 else 0) - (if a < b then 1 else 0)
  }

  /** insert: a missing key becomes a new red leaf; a key already present
      leaves the items as they are (the source has no value to overwrite),
      but the node is still passed through fix_up_2_3. */
  function Insert(h: Tree, key: int): (r: Tree)
    ensures r.Node?
    ensures Keys(r) == Keys(h) + {key}
    decreases h
  {
    if h.Nil? then Node(Red, Nil, key, Nil)
    else
      var c := Cmp(key, h.key);
      var h1 :=
        if c < 0 then h.(left := Insert(h.left, key))
        else if c > 0 then h.(right := Insert(h.right, key))
        else h;
      FixUp(h1)
  }

  /** insert keeps BST order. */
  lemma {:induction false} InsertOrdered(h: Tree, key: int)
    requires Ordered(h)
    ensures Ordered(Insert(h, key))
  {
    if h.Node? {
      var c := Cmp(key, h.key);
      if c < 0 {
        var l' := Insert(h.left, key);
        InsertOrdered(h.left, key);
        assert Ordered(h.(left := l'));
        FixUpKeeps(h.(left := l'));
      } else if c > 0 {
        var r' := Insert(h.right, key);
        InsertOrdered(h.right, key);
        assert Ordered(h.(right := r'));
        FixUpKeeps(h.(right := r'));
      } else {
        FixUpKeeps(h);
      }
    }
  }

  /** insert keeps the black height and balance, and returns a left-leaning
      2-3 tree up to a red left-left run at its root (which the tree handle
      removes by blackening the root); below a black node it returns a
      left-leaning 2-3 tree outright. */
  lemma {:induction false} InsertShape(h: Tree, key: int)
    requires Balanced(h) && Llrb23(h)
    ensures Balanced(Insert(h, key))
    ensures BlackHeight(Insert(h, key)) == BlackHeight(h)
    ensures Llrb23(Blacken(Insert(h, key)))
    ensures !IsRed(h) ==> Llrb23(Insert(h, key))
  {
    if h.Node? {
      var c := Cmp(key, h.key);
      assert Llrb23(h.left) && Llrb23(h.right) && !IsRed(h.right);
      if c < 0 {
        InsertShape(h.left, key);
        FixUpShape(h.(left := Insert(h.left, key)));
      } else if c > 0 {
        InsertShape(h.right, key);
        FixUpShape(h.(right := Insert(h.right, key)));
      } else {
        FixUpShape(h);
      }
    }
  }

  /** Inserting a key that is already present returns the tree unchanged:
      insert is idempotent on a valid LLRB. */
  lemma {:induction false} InsertPresent(h: Tree, key: int)
    requires Ordered(h) && Llrb23(h)
    requires key in Keys(h)
    ensures Insert(h, key) == h
  {
    var c := Cmp(key, h.key);
    if c < 0 {
      InsertPresent(h.left, key);
    } else if c > 0 {
      InsertPresent(h.right, key);
    }
    FixUpIdentity(h);
  }
}
