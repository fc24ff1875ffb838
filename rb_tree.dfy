/**
 * The public RBTree of tree/rb_tree/rb_tree.go: a handle on the root node of
 * a left-leaning red-black tree. The handle is the one object whose field the
 * operations reassign; everything below it is an RbNode.Tree value.
 */
module RbTree {
  import opened Optional
  import opened RbNode

  class RBTree<V> {
    var root: Tree<V>

    /**
     * The invariant every public operation keeps: search-tree order, correct
     * cached sizes, left-leaning red links, equal black height on every path,
     * and a root that is not RED.
     */
    ghost predicate Valid()
      reads this
    {
      SearchTree(root) && SizesOk(root) && IsLlrb(root) && !IsRed(root)
    }

    /** The map from keys to values that the tree stands for. */
    ghost function Model(): map<int, V>
      reads this
    {
      Contents(root)
    }

    /** The zero value `var t RBTree`: an empty tree. */
    constructor ()
      ensures Valid() && Model() == map[]
    {
      root := Nil;
    }

    method Init()
      modifies this
      ensures Valid() && Model() == map[]
    {
      root := Nil;
    }

    /** The value stored under k, or None. */
    method Get(k: int) returns (r: Option<V>)
      requires Valid()
      ensures k in Model() ==> r == Some(Model()[k])
      ensures k !in Model() ==> r == None
    {
      var x := Find(root, k);
      FindContents(root, k);
      if x.Nil? {
        return None;
      }
      return Some(x.value);
    }

    /**
     * Stores v under k, replacing an older value. The root ends BLACK; on an
     * empty tree it is a single BLACK node of size 1.
     */
    method Put(k: int, v: V)
      requires Valid()
      modifies this
      ensures Valid()
      ensures Model() == old(Model())[k := v]
      ensures root.Node? && root.color == Black
      ensures old(root).Nil? ==> root == Node(Black, 1, Nil, k, v, Nil)
    {
      if root.Nil? {
        root := NewNode(k, v, Black);
      } else {
        InsertShape(root, k, v);
        InsertContents(root, k, v);
        root := Insert(root, k, v);
        Recolor(root, Black);
        root := root.(color := Black);
      }
    }

    method IsEmpty() returns (b: bool)
      requires Valid()
      ensures b <==> Model() == map[]
    {
      var n := Size();
      return n == 0;
    }

    /** The number of stored keys, read from the root's cached size. */
    method Size() returns (n: int)
      requires Valid()
      ensures n == |Model()|
    {
      SizeIsCount(root);
      SearchTreeCount(root);
      ContentsKeys(root);
      return GetSize(root);
    }

    /** The least key, or None on an empty tree. */
    method Min() returns (r: Option<int>)
      requires Valid()
      ensures r.None? <==> Model() == map[]
      ensures r.Some? ==> r.value in Model() && forall j :: j in Model() ==> r.value <= j
    {
      ContentsKeys(root);
      var m := FindMin(root);
      if m.Nil? {
        return None;
      }
      FindMinIsLeast(root);
      return Some(m.key);
    }

    /** The greatest key, or None on an empty tree. */
    method Max() returns (r: Option<int>)
      requires Valid()
      ensures r.None? <==> Model() == map[]
      ensures r.Some? ==> r.value in Model() && forall j :: j in Model() ==> j <= r.value
    {
      ContentsKeys(root);
      var m := FindMax(root);
      if m.Nil? {
        return None;
      }
      FindMaxIsGreatest(root);
      return Some(m.key);
    }

    /**
     * Removes the least key; a no-op on an empty tree. Every key left is
     * greater than the one removed, so repeated calls empty the tree in
     * ascending order. The root ends BLACK or nil.
     */
    method DeleteMin()
      requires Valid()
      modifies this
      ensures Valid()
      ensures old(root).Nil? ==> root == old(root)
      ensures old(root).Node? ==> Model() == old(Model()) - {FindMin(old(root)).key}
      ensures old(root).Node? ==> forall j :: j in Model() ==> FindMin(old(root)).key < j
      ensures root.Nil? || root.color == Black
    {
      if root.Nil? {
        return;
      }
      DeleteMinAtRoot(root);
      if !IsRed(root.left) && !IsRed(root.right) {
        root := root.(color := Red);
      }
      root := RbNode.DeleteMin(root);
      if root.Node? {
        root := root.(color := Black);
      }
    }
  }
}
