/**
 * The insert-only AVL tree of tree/avl_tree.go (type Tree): the same node
 * code as the AVL set, without removal, and with a size that Add bumps on
 * every call, a repeated key included.
 */
module InsertOnlyAvl {
  import AvlNode

  class Tree {
    var root: AvlNode.Tree
    var size: int

    /**
     * What the code as written keeps: search-tree order, correct cached
     * heights and balance, and a size that is at least the number of keys
     * (it counts calls to Add, not keys).
     */
    ghost predicate Valid()
      reads this
    {
      && AvlNode.SearchTree(root)
      && AvlNode.IsAvl(root)
      && |AvlNode.Keys(root)| <= size
      && (root.Nil? ==> size == 0)
    }

    /** The size counts exactly the stored keys, as Size's callers expect. */
    ghost predicate Counted()
      reads this
    {
      size == |AvlNode.Keys(root)|
    }

    ghost function Model(): set<int>
      reads this
    {
      AvlNode.Keys(root)
    }

    /** New: an empty tree. */
    constructor ()
      ensures Valid() && Counted() && Model() == {} && size == 0
    {
      root := AvlNode.Nil;
      size := 0;
    }

    method Init()
      modifies this
      ensures Valid() && Counted() && Model() == {} && size == 0
    {
      root := AvlNode.Nil;
      size := 0;
    }

    method Size() returns (n: int)
      ensures n == size
    {
      return size;
    }

    /**
     * Add as written: inserts k (a key already present leaves the tree as it
     * is) and bumps the size on every call.
     */
    method Add(k: int)
      requires Valid()
      modifies this
      ensures Valid()
      ensures Model() == old(Model()) + {k}
      ensures size == old(size) + 1
      ensures old(root).Nil? ==> root.Node? && root.key == k && root.height == 1 && AvlNode.Height(root) == 1
      ensures k in old(Model()) ==> root == old(root)
    {
      if root.Nil? {
        root := AvlNode.Node(AvlNode.Nil, AvlNode.Nil, 1, k);
        size := 1;
      } else {
        AvlNode.InsertAvl(root, k);
        if k in AvlNode.Keys(root) {
          AvlNode.InsertExisting(root, k);
        }
        root := AvlNode.Insert(root, k);
        size := size + 1;
      }
    }

    /**
     * Add corrected: the size grows only when k is new, so a tree whose size
     * counted its keys still does.
     */
    method AddCounted(k: int)
      requires Valid()
      modifies this
      ensures Valid()
      ensures Model() == old(Model()) + {k}
      ensures size == if k in old(Model()) then old(size) else old(size) + 1
      ensures old(Counted()) ==> Counted()
    {
      if root.Nil? {
        root := AvlNode.Node(AvlNode.Nil, AvlNode.Nil, 1, k);
        size := 1;
      } else {
        AvlNode.FindFinds(root, k);
        var before := AvlNode.Find(root, k);
        AvlNode.InsertAvl(root, k);
        ghost var keys := AvlNode.Keys(root);
        root := AvlNode.Insert(root, k);
        if before.Nil? {
          assert |keys + {k}| == |keys| + 1;
          size := size + 1;
        } else {
          assert keys + {k} == keys;
        }
      }
    }

    /** Hands every key to the callback in in-order; the result is the sequence of keys handed over. */
    method Apply() returns (visited: seq<int>)
      ensures visited == AvlNode.InOrder(root)
    {
      if root.Nil? {
        return [];
      }
      visited := AvlNode.Traverse(root);
    }

    /** The stored keys, strictly ascending, each once. */
    method ToSlice() returns (s: seq<int>)
      requires Valid()
      ensures forall i, j :: 0 <= i < j < |s| ==> s[i] < s[j]
      ensures forall j :: j in s <==> j in Model()
      ensures |s| == |Model()|
    {
      s := Apply();
      AvlNode.InOrderAscending(root);
      AvlNode.InOrderCount(root);
    }
  }

  /**
   * Add as written, given the same key twice: Size reports 2 while ToSlice
   * lists 1 key.
   */
  method SizeAfterRepeatedAdd() returns (size: int, listed: int)
    ensures size == 2 && listed == 1
  {
    var t := new Tree();
    t.Add(1);
    t.Add(1);
    size := t.Size();
    var s := t.ToSlice();
    listed := |s|;
  }

  /** The same calls on the corrected AddCounted: Size and ToSlice agree at 1. */
  method SizeAfterRepeatedAddCounted() returns (size: int, listed: int)
    ensures size == 1 && listed == 1
  {
    var t := new Tree();
    t.AddCounted(1);
    t.AddCounted(1);
    size := t.Size();
    var s := t.ToSlice();
    listed := |s|;
  }
}
