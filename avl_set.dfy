/**
 * The AvlTree of tree/avl_tree/avl_tree.go: a set of keys kept in an AVL
 * tree, with a count of its members. The handle's two fields are what the
 * operations reassign; the nodes below are AvlNode.Tree values.
 */
module AvlSet {
  import opened Optional
  import opened AvlNode

  /**
   * Inserting a new key into the non-empty tree of a valid set, whose root
   * may be the lone first root with height 0: the result is an AVL search
   * tree with correct heights holding one key more.
   */
  lemma InsertNew(t: Tree, k: int)
    requires t.Node? && SearchTree(t) && Balanced(t) && k !in Keys(t)
    requires HeightsOk(t) || (t.left.Nil? && t.right.Nil? && t.height == 0)
    ensures var r := Insert(t, k);
      && SearchTree(r) && IsAvl(r)
      && Keys(r) == Keys(t) + {k} && |Keys(r)| == |Keys(t)| + 1
  {
    if HeightsOk(t) {
      InsertAvl(t, k);
    } else {
      LoneRootInsert(t.key, k);
    }
    assert |Keys(t) + {k}| == |Keys(t)| + 1;
  }

  class AvlTree {
    var root: Tree
    var size: int

    /**
     * A lone root made by the first Add carries cached height 0 (a node made
     * by newNode carries 1); the invariant admits that one shape besides a
     * tree with correct cached heights.
     */
    ghost predicate LoneFirstRoot()
      reads this
    {
      root.Node? && root.left.Nil? && root.right.Nil? && root.height == 0
    }

    /** Search-tree order, the AVL balance condition, and a size that counts the keys. */
    ghost predicate Valid()
      reads this
    {
      && SearchTree(root)
      && Balanced(root)
      && (HeightsOk(root) || LoneFirstRoot())
      && size == |Keys(root)|
    }

    /** The set of keys the tree stands for. */
    ghost function Model(): set<int>
      reads this
    {
      Keys(root)
    }

    /** New: an empty set. */
    constructor ()
      ensures Valid() && Model() == {} && size == 0
    {
      root := Nil;
      size := 0;
    }

    method Init()
      modifies this
      ensures Valid() && Model() == {} && size == 0
    {
      root := Nil;
      size := 0;
    }

    method Size() returns (n: int)
      requires Valid()
      ensures n == |Model()|
    {
      return size;
    }

    /**
     * Adds k. Returns false and changes nothing when k is already a member;
     * otherwise returns true and the size grows by one.
     */
    method Add(k: int) returns (added: bool)
      requires Valid()
      modifies this
      ensures Valid()
      ensures added <==> k !in old(Model())
      ensures Model() == old(Model()) + {k}
      ensures size == if added then old(size) + 1 else old(size)
      ensures !added ==> root == old(root)
    {
      if root.Nil? {
        root := Node(Nil, Nil, 0, k);
        size := 1;
        return true;
      }
      FindFinds(root, k);
      var f := Find(root, k);
      if f.Node? {
        return false;
      }
      InsertNew(root, k);
      root := Insert(root, k);
      size := size + 1;
      return true;
    }

    /**
     * Removes k. Returns true and shrinks the size by one exactly when k was
     * a member; otherwise returns false and changes nothing.
     */
    method Remove(k: int) returns (removed: bool)
      requires Valid()
      modifies this
      ensures Valid()
      ensures removed <==> k in old(Model())
      ensures Model() == old(Model()) - {k}
      ensures size == if removed then old(size) - 1 else old(size)
      ensures !removed ==> root == old(root)
    {
      FindFinds(root, k);
      var f := Find(root, k);
      if f.Nil? {
        return false;
      }
      if HeightsOk(root) {
        RemoveAvl(root, k);
      }
      root := AvlNode.Remove(root, k);
      size := size - 1;
      return true;
    }

    /** The least key, or None on an empty set. */
    method Min() returns (r: Option<int>)
      requires Valid()
      ensures r.None? <==> Model() == {}
      ensures r.Some? ==> r.value in Model() && forall j :: j in Model() ==> r.value <= j
    {
      if root.Nil? {
        return None;
      }
      FindMinIsLeast(root);
      return Some(FindMin(root).key);
    }

    /** The greatest key, or None on an empty set. */
    method Max() returns (r: Option<int>)
      requires Valid()
      ensures r.None? <==> Model() == {}
      ensures r.Some? ==> r.value in Model() && forall j :: j in Model() ==> j <= r.value
    {
      if root.Nil? {
        return None;
      }
      FindMaxIsGreatest(root);
      return Some(FindMax(root).key);
    }

    method Contains(k: int) returns (b: bool)
      requires Valid()
      ensures b <==> k in Model()
    {
      if root.Nil? {
        return false;
      }
      FindFinds(root, k);
      var node := Find(root, k);
      return node.Node?;
    }

    /** Hands every key to the callback in in-order; the result is the sequence of keys handed over. */
    method Apply() returns (visited: seq<int>)
      ensures visited == InOrder(root)
    {
      if root.Nil? {
        return [];
      }
      visited := Traverse(root);
    }

    /** The members, strictly ascending. */
    method ToSlice() returns (s: seq<int>)
      requires Valid()
      ensures s == InOrder(root)
      ensures forall i, j :: 0 <= i < j < |s| ==> s[i] < s[j]
      ensures forall j :: j in s <==> j in Model()
      ensures |s| == size
    {
      s := Apply();
      InOrderAscending(root);
      InOrderCount(root);
    }
  }
}
