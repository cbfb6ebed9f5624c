/** The LLRB handle: a class holding the root, whose public operations run
    the recursive engine and then colour the root black. It also has the
    read-only walks it inherits from the parent-pointer tree class: the
    in-order listing with an explicit stack, and the search loop. */
module LlrbTree {
  import opened RbNode
  import opened LlrbNode
  import opened LlrbInsert
  import opened LlrbDelete

  /** Colouring the root black changes neither the items, the order nor
      the balance below the root. */
  lemma BlackenKeeps(t: Tree)
    ensures Items(Blacken(t)) == Items(t) && Keys(Blacken(t)) == Keys(t)
    ensures Ordered(Blacken(t)) == Ordered(t) && Balanced(Blacken(t)) == Balanced(t)
  {
  }

  /** inorder: the walk with an explicit stack. Descend left pushing each
      node; pop one, emit its item, continue with its right subtree. */
  method InOrder(t: Tree) returns (xs: seq<int>)
    ensures xs == Items(t)
  {
    var stack: seq<Tree> := [];
    var cursor := t;
    xs := [];
    while cursor.Node? || |stack| != 0
      invariant forall i :: 0 <= i < |stack| ==> stack[i].Node?
      invariant xs + (Items(cursor) + Pending(stack)) == Items(t)
      decreases |Items(t)| - |xs|
    {
      while cursor.Node?
        invariant forall i :: 0 <= i < |stack| ==> stack[i].Node?
        invariant xs + (Items(cursor) + Pending(stack)) == Items(t)
        invariant cursor.Node? || |stack| != 0
        decreases cursor
      {
        PendingPush(stack, cursor);
        stack := stack + [cursor];
        cursor := cursor.left;
      }
      var popped := stack[|stack| - 1];
      assert stack == stack[..|stack| - 1] + [popped];
      PendingPopStep(xs, stack[..|stack| - 1], popped, Items(t));
      stack := stack[..|stack| - 1];
      xs := xs + [popped.key];
      cursor := popped.right;
    }
  }

  class Llrb {
    var root: Tree

    /** The LLRB invariants hold between public calls. */
    ghost predicate Valid()
      reads this
    {
      IsLlrb(root)
    }

    constructor()
      ensures Valid() && root == Nil
    {
      root := Nil;
    }

    /** LLRB.insert: run insert from the root, then colour the root black. */
    method Insert(key: int)
      requires Valid()
      modifies this
      ensures Valid()
      ensures root == Blacken(LlrbInsert.Insert(old(root), key))
      ensures Keys(root) == old(Keys(root)) + {key}
    {
      InsertOrdered(root, key);
      InsertShape(root, key);
      BlackenKeeps(LlrbInsert.Insert(root, key));
      root := Blacken(LlrbInsert.Insert(root, key));
    }

    /** LLRB.delete_min: remove the smallest item, then colour the root
        black. The tree must not be empty. */
    method DeleteMin()
      requires Valid() && root.Node?
      modifies this
      ensures Valid()
      ensures root == Blacken(LlrbDelete.DeleteMin(old(root)))
      ensures Items(root) == old(Items(root))[1..]
    {
      var r := LlrbDelete.DeleteMin(root);
      DeleteMinOrdered(root);
      DeleteMinShape(root);
      BlackenKeeps(r);
      root := Blacken(r);
    }

    /** LLRB.delete: on a non-empty tree, run delete from the root, then
        colour the root black; on the empty tree, nothing. */
    method Delete(key: int)
      requires Valid()
      modifies this
      ensures Valid()
      ensures old(root).Node? ==> root == Blacken(LlrbDelete.Delete(old(root), key))
      ensures old(root).Nil? ==> root == Nil
      ensures Keys(root) == old(Keys(root)) - {key}
    {
      if root.Node? {
        var r := LlrbDelete.Delete(root, key);
        DeleteKeys(root, key);
        DeleteShape(root, key);
        BlackenKeeps(r);
        root := Blacken(r);
      }
    }

    /** to_list: the items of the in-order walk, collected in a list; on a
        valid tree that is each item once, ascending. */
    method ToList() returns (xs: seq<int>)
      requires Valid()
      ensures xs == Items(root)
      ensures StrictlyIncreasing(xs)
      ensures forall x :: x in xs <==> x in Keys(root)
    {
      xs := InOrder(root);
      OrderedItemsSorted(root);
    }

    /** contains: the BST search loop; true exactly when the item is stored
        (the source falls off the loop and returns None, read as false). */
    method Contains(x: int) returns (found: bool)
      requires Valid()
      ensures found <==> x in Keys(root)
    {
      var cursor := root;
      while cursor.Node?
        invariant Ordered(cursor)
        invariant x in Keys(root) <==> x in Keys(cursor)
        decreases cursor
      {
        if x < cursor.key {
          cursor := cursor.left;
        } else if x == cursor.key {
          return true;
        } else {
          cursor := cursor.right;
        }
      }
      return false;
    }
  }
}
