/**
 * The nodes of the left-leaning red-black tree in tree/rb_tree/rb_tree.go.
 *
 * A node exclusively owns its two children, there are no parent pointers,
 * and every helper that rearranges nodes returns the root of the rebuilt
 * subtree. A subtree is therefore modelled as a value: `Nil` is Go's nil
 * *node, and a helper that mutates nodes in place is a function from the old
 * subtree to the new one. Keys are ints (the Go `Key.CompareTo` is an
 * ordinary three-way comparison here) and values are of a type parameter.
 */
module RbNode {

  datatype Color = Red | Black

  datatype Tree<V> =
    | Nil
    | Node(color: Color, size: int, left: Tree<V>, key: int, value: V, right: Tree<V>)

  // ---------------------------------------------------------------------
  // What a subtree stores
  // ---------------------------------------------------------------------

  /** The (key, value) pairs of a subtree, in in-order. */
  ghost function Entries<V>(t: Tree<V>): seq<(int, V)>
  {
    match t
    case Nil => []
    case Node(_, _, l, k, v, r) => Entries(l) + [(k, v)] + Entries(r)
  }

  /** The subtree read as a map, in-order, so a later entry wins. */
  ghost function Contents<V>(t: Tree<V>): map<int, V>
  {
    match t
    case Nil => map[]
    case Node(_, _, l, k, v, r) => Contents(l) + map[k := v] + Contents(r)
  }

  ghost function Keys<V>(t: Tree<V>): set<int>
  {
    match t
    case Nil => {}
    case Node(_, _, l, k, _, r) => Keys(l) + {k} + Keys(r)
  }

  /** The number of nodes, which the cached `size` field is meant to hold. */
  ghost function Count<V>(t: Tree<V>): nat
  {
    |Entries(t)|
  }

  /** Binary-search-tree order on keys. */
  ghost predicate SearchTree<V>(t: Tree<V>)
  {
    match t
    case Nil => true
    case Node(_, _, l, k, _, r) =>
      && SearchTree(l) && SearchTree(r)
      && (forall j :: j in Keys(l) ==> j < k)
      && (forall j :: j in Keys(r) ==> k < j)
  }

  /** Every cached `size` is 1 + size(left) + size(right), nil counting 0. */
  ghost predicate SizesOk<V>(t: Tree<V>)
  {
    match t
    case Nil => true
    case Node(_, s, l, _, _, r) => s == GetSize(l) + GetSize(r) + 1 && SizesOk(l) && SizesOk(r)
  }

  /** The sizes of both children are right; the node's own may be stale. */
  ghost predicate SizesOkBelow<V>(t: Tree<V>)
  {
    t.Nil? || (SizesOk(t.left) && SizesOk(t.right))
  }

  // ---------------------------------------------------------------------
  // Red-black shape
  // ---------------------------------------------------------------------

  /** The number of BLACK nodes on the left spine, the node itself included. */
  ghost function BlackHeight<V>(t: Tree<V>): nat
  {
    match t
    case Nil => 0
    case Node(c, _, l, _, _, _) => BlackHeight(l) + (if c == Black then 1 else 0)
  }

  /** Every path from the root to a nil child meets the same number of BLACK nodes. */
  ghost predicate BlackBalanced<V>(t: Tree<V>)
  {
    match t
    case Nil => true
    case Node(_, _, l, _, _, r) =>
      BlackHeight(l) == BlackHeight(r) && BlackBalanced(l) && BlackBalanced(r)
  }

  /** No right child is RED and no RED node has a RED left child. */
  ghost predicate LeftLeaning<V>(t: Tree<V>)
  {
    match t
    case Nil => true
    case Node(c, _, l, _, _, r) =>
      !IsRed(r) && (c == Red ==> !IsRed(l)) && LeftLeaning(l) && LeftLeaning(r)
  }

  /**
   * Left-leaning everywhere except that a RED root may have a RED left child:
   * the transient state `insert` and `deleteMin` hand back to their caller.
   */
  ghost predicate LeftLeaningBelowRoot<V>(t: Tree<V>)
  {
    t.Node? && !IsRed(t.right) && LeftLeaning(t.left) && LeftLeaning(t.right)
  }

  ghost predicate IsLlrb<V>(t: Tree<V>)
  {
    LeftLeaning(t) && BlackBalanced(t)
  }

  /**
   * What `deleteMin` needs of the node it is called on: a non-empty subtree of
   * a left-leaning tree in which the node or its left child is RED, so that
   * the node about to be removed is never a lone BLACK leaf.
   */
  ghost predicate DeletePre<V>(x: Tree<V>)
  {
    LeftLeaningBelowRoot(x) && BlackBalanced(x) && (IsRed(x) || IsRed(x.left))
  }

  // ---------------------------------------------------------------------
  // Node helpers (rb_tree.go:59-143)
  // ---------------------------------------------------------------------

  /** A nil node counts as BLACK: only an existing node can be RED. */
  predicate IsRed<V>(x: Tree<V>): (r: bool)
    ensures r ==> x.Node?
  {
    x.Node? && x.color == Red
  }

  /**
   * Sets the node to the opposite colour and both children to the node's old
   * colour; Go dereferences both children, so both must exist.
   */
  function FlipColors<V>(x: Tree<V>): (r: Tree<V>)
    requires x.Node? && x.left.Node? && x.right.Node?
    ensures r.Node? && r.left.Node? && r.right.Node?
    ensures r.color != x.color && r.left.color == x.color && r.right.color == x.color
    ensures Entries(r) == Entries(x) && Contents(r) == Contents(x) && Keys(r) == Keys(x)
    ensures SearchTree(r) == SearchTree(x) && SizesOkBelow(r) == SizesOkBelow(x)
    ensures SizesOk(r) == SizesOk(x)
  {
    match x.color
    case Black => x.(color := Red, left := x.left.(color := Black), right := x.right.(color := Black))
    case Red => x.(color := Black, left := x.left.(color := Red), right := x.right.(color := Red))
  }

  /** A lone node of colour c holding k and v, its size counted. */
  function NewNode<V>(k: int, v: V, c: Color): (r: Tree<V>)
    ensures Entries(r) == [(k, v)] && Contents(r) == map[k := v] && Keys(r) == {k}
    ensures SearchTree(r) && SizesOk(r) && IsLlrb(r) && r.color == c
  {
    Node(c, 1, Nil, k, v, Nil)
  }

  /** The left subtree, nil for nil: the entries that come before the node's own. */
  function GetLeft<V>(x: Tree<V>): (r: Tree<V>)
    ensures x.Nil? ==> r == Nil
    ensures x.Node? ==> Entries(x) == Entries(r) + [(x.key, x.value)] + Entries(x.right)
    ensures x.Node? && SearchTree(x) ==> SearchTree(r) && forall j :: j in Keys(r) ==> j < x.key
  {
    if x.Nil? then Nil else x.left
  }

  /** The right subtree, nil for nil: the entries that come after the node's own. */
  function GetRight<V>(x: Tree<V>): (r: Tree<V>)
    ensures x.Nil? ==> r == Nil
    ensures x.Node? ==> Entries(x) == Entries(x.left) + [(x.key, x.value)] + Entries(r)
    ensures x.Node? && SearchTree(x) ==> SearchTree(r) && forall j :: j in Keys(r) ==> x.key < j
  {
    if x.Nil? then Nil else x.right
  }

  function GetSize<V>(x: Tree<V>): int
  {
    if x.Nil? then 0 else x.size
  }

  /** Recomputes the node's own size from its children's cached sizes. */
  function CalcSize<V>(x: Tree<V>): (r: Tree<V>)
    ensures SizesOkBelow(x) ==> SizesOk(r)
    ensures r.Nil? == x.Nil?
    ensures r.Node? ==> r.color == x.color && r.left == x.left && r.right == x.right
    ensures Entries(r) == Entries(x) && Contents(r) == Contents(x) && Keys(r) == Keys(x)
    ensures SearchTree(r) == SearchTree(x)
    ensures LeftLeaning(r) == LeftLeaning(x) && BlackBalanced(r) == BlackBalanced(x)
    ensures BlackHeight(r) == BlackHeight(x)
  {
    if x.Nil? then Nil else x.(size := GetSize(x.left) + GetSize(x.right) + 1)
  }

  /**
   * Rotates the right child up. The new root takes the old root's colour and
   * size, the old root takes the child's colour and has its size recomputed.
   */
  function RotateLeft<V>(x: Tree<V>): (r: Tree<V>)
    requires x.Node? ==> x.right.Node?
    ensures x.Nil? ==> r.Nil?
    ensures x.Node? ==> r.Node? && r.left.Node?
    ensures x.Node? ==> r.color == x.color && r.left.color == x.right.color && r.size == x.size
    ensures Entries(r) == Entries(x) && Contents(r) == Contents(x) && Keys(r) == Keys(x)
    ensures SearchTree(x) ==> SearchTree(r)
    ensures SizesOkBelow(x) ==> SizesOkBelow(r)
    ensures SizesOk(x) ==> SizesOk(r)
  {
    match x
    case Nil => Nil
    case Node(c, s, l, k, v, res) =>
      var d := Node(res.color, s, l, k, v, res.left);
      RotateLeftOrder(x);
      RotateLeftSizes(x);
      RotateLeftStores(x);
      Node(c, s, CalcSize(d), res.key, res.value, res.right)
  }

  /** RotateLeft keeps search-tree order. */
  lemma RotateLeftOrder<V>(x: Tree<V>)
    requires x.Node? && x.right.Node?
    ensures var res := x.right;
      var y := Node(x.color, x.size, CalcSize(Node(res.color, x.size, x.left, x.key, x.value, res.left)),
                    res.key, res.value, res.right);
      SearchTree(x) ==> SearchTree(y)
  {
    var res := x.right;
    if SearchTree(x) {
      var kl, k1 := Keys(x.left), Keys(res.left);
      assert Keys(res) == k1 + {res.key} + Keys(res.right);
      assert SearchTree(res) && x.key < res.key;
      assert forall j :: j in k1 ==> x.key < j < res.key;
      assert forall j :: j in kl ==> j < res.key;
      var cd := CalcSize(Node(res.color, x.size, x.left, x.key, x.value, res.left));
      assert SearchTree(cd) && Keys(cd) == kl + {x.key} + k1;
    }
  }

  /** RotateLeft keeps correct cached sizes, below the root and at it. */
  lemma RotateLeftSizes<V>(x: Tree<V>)
    requires x.Node? && x.right.Node?
    ensures var res := x.right;
      var y := Node(x.color, x.size, CalcSize(Node(res.color, x.size, x.left, x.key, x.value, res.left)),
                    res.key, res.value, res.right);
      && (SizesOkBelow(x) ==> SizesOkBelow(y))
      && (SizesOk(x) ==> SizesOk(y))
  {
    var res := x.right;
    if SizesOk(x) {
      assert SizesOk(res) && res.size == GetSize(res.left) + GetSize(res.right) + 1;
      var d := CalcSize(Node(res.color, x.size, x.left, x.key, x.value, res.left));
      assert SizesOk(d) && d.size == GetSize(x.left) + GetSize(res.left) + 1;
    }
  }

  /** RotateLeft moves no entry: the in-order sequence, map and key set are the old ones. */
  lemma RotateLeftStores<V>(x: Tree<V>)
    requires x.Node? && x.right.Node?
    ensures var res := x.right;
      var y := Node(x.color, x.size, CalcSize(Node(res.color, x.size, x.left, x.key, x.value, res.left)),
                    res.key, res.value, res.right);
      Entries(y) == Entries(x) && Contents(y) == Contents(x) && Keys(y) == Keys(x)
  {
    var res := x.right;
    var d := Node(res.color, x.size, x.left, x.key, x.value, res.left);
    var cd := CalcSize(d);
    var y := Node(x.color, x.size, cd, res.key, res.value, res.right);
    var el, e1, e2 := Entries(x.left), Entries(res.left), Entries(res.right);
    var p, q := [(x.key, x.value)], [(res.key, res.value)];
    assert Entries(cd) == el + p + e1;
    assert Entries(res) == e1 + q + e2;
    SeqJoin(el, p, e1, q, e2);
    var ml, m1, m2 := Contents(x.left), Contents(res.left), Contents(res.right);
    var mp, mq := map[x.key := x.value], map[res.key := res.value];
    assert Contents(cd) == ml + mp + m1;
    assert Contents(res) == m1 + mq + m2;
    MapJoin(ml, mp, m1, mq, m2);
    var kl, k1, k2 := Keys(x.left), Keys(res.left), Keys(res.right);
    assert Keys(cd) == kl + {x.key} + k1;
    assert Keys(res) == k1 + {res.key} + k2;
  }

  /** Regrouping five concatenated sequences, as a rotation regroups a subtree. */
  lemma SeqJoin<T>(a: seq<T>, p: seq<T>, b: seq<T>, q: seq<T>, c: seq<T>)
    ensures (a + p + b) + q + c == a + p + (b + q + c)
  {
  }

  /** The same regrouping for the maps the five parts stand for. */
  lemma MapJoin<K, W>(a: map<K, W>, p: map<K, W>, b: map<K, W>, q: map<K, W>, c: map<K, W>)
    ensures (a + p + b) + q + c == a + p + (b + q + c)
  {
  }

  /** The mirror image of RotateLeft. */
  function RotateRight<V>(x: Tree<V>): (r: Tree<V>)
    requires x.Node? ==> x.left.Node?
    ensures x.Nil? ==> r.Nil?
    ensures x.Node? ==> r.Node? && r.right.Node?
    ensures x.Node? ==> r.color == x.color && r.right.color == x.left.color && r.size == x.size
    ensures Entries(r) == Entries(x) && Contents(r) == Contents(x) && Keys(r) == Keys(x)
    ensures SearchTree(x) ==> SearchTree(r)
    ensures SizesOkBelow(x) ==> SizesOkBelow(r)
    ensures SizesOk(x) ==> SizesOk(r)
  {
    match x
    case Nil => Nil
    case Node(c, s, res, k, v, r) =>
      var d := Node(res.color, s, res.right, k, v, r);
      RotateRightOrder(x);
      RotateRightSizes(x);
      RotateRightStores(x);
      Node(c, s, res.left, res.key, res.value, CalcSize(d))
  }

  /** RotateRight keeps search-tree order. */
  lemma RotateRightOrder<V>(x: Tree<V>)
    requires x.Node? && x.left.Node?
    ensures var res := x.left;
      var y := Node(x.color, x.size, res.left, res.key, res.value,
                    CalcSize(Node(res.color, x.size, res.right, x.key, x.value, x.right)));
      SearchTree(x) ==> SearchTree(y)
  {
    var res := x.left;
    if SearchTree(x) {
      var k2, kr := Keys(res.right), Keys(x.right);
      assert Keys(res) == Keys(res.left) + {res.key} + k2;
      assert SearchTree(res) && res.key < x.key;
      assert forall j :: j in k2 ==> res.key < j < x.key;
      assert forall j :: j in kr ==> res.key < j;
      var cd := CalcSize(Node(res.color, x.size, res.right, x.key, x.value, x.right));
      assert SearchTree(cd) && Keys(cd) == k2 + {x.key} + kr;
    }
  }

  /** RotateRight keeps correct cached sizes, below the root and at it. */
  lemma RotateRightSizes<V>(x: Tree<V>)
    requires x.Node? && x.left.Node?
    ensures var res := x.left;
      var y := Node(x.color, x.size, res.left, res.key, res.value,
                    CalcSize(Node(res.color, x.size, res.right, x.key, x.value, x.right)));
      && (SizesOkBelow(x) ==> SizesOkBelow(y))
      && (SizesOk(x) ==> SizesOk(y))
  {
    var res := x.left;
    if SizesOk(x) {
      assert SizesOk(res) && res.size == GetSize(res.left) + GetSize(res.right) + 1;
      var d := CalcSize(Node(res.color, x.size, res.right, x.key, x.value, x.right));
      assert SizesOk(d) && d.size == GetSize(res.right) + GetSize(x.right) + 1;
    }
  }

  /** RotateRight moves no entry either. */
  lemma RotateRightStores<V>(x: Tree<V>)
    requires x.Node? && x.left.Node?
    ensures var res := x.left;
      var y := Node(x.color, x.size, res.left, res.key, res.value,
                    CalcSize(Node(res.color, x.size, res.right, x.key, x.value, x.right)));
      Entries(y) == Entries(x) && Contents(y) == Contents(x) && Keys(y) == Keys(x)
  {
    var res := x.left;
    var cd := CalcSize(Node(res.color, x.size, res.right, x.key, x.value, x.right));
    var ea, eb, er := Entries(res.left), Entries(res.right), Entries(x.right);
    var q, p := [(res.key, res.value)], [(x.key, x.value)];
    assert Entries(cd) == eb + p + er;
    assert Entries(res) == ea + q + eb;
    SeqJoin(ea, q, eb, p, er);
    var ma, mb, mr := Contents(res.left), Contents(res.right), Contents(x.right);
    var mq, mp := map[res.key := res.value], map[x.key := x.value];
    assert Contents(cd) == mb + mp + mr;
    assert Contents(res) == ma + mq + mb;
    MapJoin(ma, mq, mb, mp, mr);
    var ka, kb, kr := Keys(res.left), Keys(res.right), Keys(x.right);
    assert Keys(cd) == kb + {x.key} + kr;
    assert Keys(res) == ka + {res.key} + kb;
  }

  // ---------------------------------------------------------------------
  // Insertion, lookup, minimum and maximum (rb_tree.go:145-199)
  // ---------------------------------------------------------------------

  /**
   * Recursive insertion with the bottom-up fix-ups: lean a right-leaning RED
   * link left, split two RED links in a row, flip a node with two RED
   * children, then recompute the size. An equal key only overwrites the value.
   */
  function Insert<V>(x: Tree<V>, k: int, v: V): (r: Tree<V>)
    ensures r.Node? && Keys(r) == Keys(x) + {k}
    ensures Contents(r) == Contents(Descend(x, k, v))
    ensures SearchTree(x) ==> SearchTree(r)
    ensures SizesOk(x) ==> SizesOk(r)
    decreases x, 1
  {
    if x.Nil? then NewNode(k, v, Red) else FixUp(Descend(x, k, v))
  }

  /** The fix-ups insert applies to a node after the recursive step. */
  function FixUp<V>(x: Tree<V>): (r: Tree<V>)
    requires x.Node?
    ensures r.Node?
    ensures Entries(r) == Entries(x) && Contents(r) == Contents(x) && Keys(r) == Keys(x)
    ensures SearchTree(x) ==> SearchTree(r)
    ensures SizesOkBelow(x) ==> SizesOk(r)
  {
    var r1 := if IsRed(x.right) && !IsRed(x.left) then RotateLeft(x) else x;
    var r2 := if IsRed(r1.left) && IsRed(GetLeft(r1.left)) then RotateRight(r1) else r1;
    var r3 := if IsRed(r2.left) && IsRed(r2.right) then FlipColors(r2) else r2;
    CalcSize(r3)
  }

  /** The recursive step of Insert: the node with the key placed in the right subtree. */
  function Descend<V>(x: Tree<V>, k: int, v: V): (r: Tree<V>)
    ensures r.Node? && Keys(r) == Keys(x) + {k}
    ensures x.Node? ==> r.color == x.color && r.key == x.key
    ensures SearchTree(x) ==> SearchTree(r)
    ensures SizesOk(x) ==> SizesOkBelow(r)
    decreases x, 0
  {
    if x.Nil? then NewNode(k, v, Red)
    else if k < x.key then x.(left := Insert(x.left, k, v))
    else if k > x.key then x.(right := Insert(x.right, k, v))
    else x.(value := v)
  }

  /** The node whose key equals k, or Nil. */
  function Find<V>(x: Tree<V>, k: int): (r: Tree<V>)
    ensures r.Node? ==> r.key == k
  {
    if x.Nil? then Nil
    else if k < x.key then Find(x.left, k)
    else if k > x.key then Find(x.right, k)
    else x
  }

  /** The leftmost node, or Nil for an empty tree. */
  function FindMin<V>(x: Tree<V>): (r: Tree<V>)
    ensures r.Nil? <==> x.Nil?
    ensures r.Node? ==> r.left.Nil? && r.key in Keys(x)
  {
    if GetLeft(x).Nil? then x else FindMin(x.left)
  }

  /** The rightmost node, or Nil for an empty tree. */
  function FindMax<V>(x: Tree<V>): (r: Tree<V>)
    ensures r.Nil? <==> x.Nil?
    ensures r.Node? ==> r.right.Nil? && r.key in Keys(x)
  {
    if GetRight(x).Nil? then x else FindMax(x.right)
  }

  // ---------------------------------------------------------------------
  // Deletion of the minimum (rb_tree.go:201-241)
  // ---------------------------------------------------------------------

  /**
   * The repair applied on the way back up from a deletion: a RED right child
   * is rotated left, two RED links in a row are split, and a node with two
   * RED children is flipped. The Go code has a second rotation, guarded by
   * "left not RED and right RED", between the first and the split; it can
   * never fire (BalanceSecondRotationIsDead), so it is not repeated here.
   */
  function Balance<V>(x: Tree<V>): (r: Tree<V>)
    requires x.Node?
    ensures r.Node?
    ensures Entries(r) == Entries(x) && Contents(r) == Contents(x) && Keys(r) == Keys(x)
    ensures SearchTree(x) ==> SearchTree(r)
    ensures SizesOkBelow(x) ==> SizesOk(r)
  {
    var n2 := if IsRed(x.right) then RotateLeft(x) else x;
    var n3 := if IsRed(n2.left) && IsRed(GetLeft(n2.left)) then RotateRight(n2) else n2;
    var n4 := if IsRed(n3.left) && IsRed(n3.right) then FlipColors(n3) else n3;
    CalcSize(n4)
  }

  /**
   * Pushes a RED link into the left child by a colour flip, borrowing from the
   * right sibling by a double rotation when its left child is RED. There is no
   * second colour flip after the rotations.
   */
  function MoveRedLeft<V>(x: Tree<V>): (r: Tree<V>)
    requires x.Node? && x.left.Node? && x.right.Node?
    ensures r.Node?
    ensures Entries(r) == Entries(x) && Contents(r) == Contents(x) && Keys(r) == Keys(x)
    ensures SearchTree(x) ==> SearchTree(r)
    ensures SizesOk(x) ==> SizesOk(r)
  {
    var n := FlipColors(x);
    if IsRed(GetLeft(GetRight(n))) then RotateLeft(n.(right := RotateRight(n.right)))
    else n
  }

  /**
   * Removes the leftmost node. The first in-order entry is dropped and all the
   * others are kept in order.
   */
  function DeleteMin<V>(x: Tree<V>): (r: Tree<V>)
    requires DeletePre(x)
    ensures Entries(r) == Entries(x)[1..]
    ensures Keys(r) <= Keys(x)
    ensures SearchTree(x) ==> SearchTree(r)
    ensures SizesOk(x) ==> SizesOk(r)
    decreases Count(x)
  {
    if x.left.Nil? then
      LoneRedLeaf(x);
      Nil
    else
      DeleteMinStep(x);
      var n := if !IsRed(x.left) && !IsRed(GetLeft(x.left)) then MoveRedLeft(x) else x;
      DropFirstEntry(n);
      var d := DeleteMin(n.left);
      ReplaceLeftKeeps(n, d);
      Balance(n.(left := d))
  }

  /** After a RED right child is rotated up it is the left child, so it is RED on the left. */
  lemma BalanceSecondRotationIsDead<V>(x: Tree<V>)
    requires x.Node?
    ensures var n1 := if IsRed(x.right) then RotateLeft(x) else x;
      !(!IsRed(n1.left) && IsRed(n1.right))
  {
  }

  // ---------------------------------------------------------------------
  // Lemmas: counting and shape facts used by the definitions
  // ---------------------------------------------------------------------

  /** In a search tree every key is stored once, so the node count is the number of keys. */
  lemma {:induction false} SearchTreeCount<V>(t: Tree<V>)
    requires SearchTree(t)
    ensures Count(t) == |Keys(t)|
  {
    match t
    case Nil =>
    case Node(_, _, l, k, _, r) =>
      SearchTreeCount(l);
      SearchTreeCount(r);
      forall j | j in Keys(l) ensures j !in Keys(r) {}
      assert Keys(l) !! Keys(r) && k !in Keys(l) && k !in Keys(r);
      assert |Keys(l) + {k}| == |Keys(l)| + 1;
  }

  /** Insertion into a search tree stores the pair, replacing an older value for the key. */
  lemma {:induction false} InsertContents<V>(x: Tree<V>, k: int, v: V)
    requires SearchTree(x)
    ensures Contents(Insert(x, k, v)) == Contents(x)[k := v]
  {
    match x
    case Nil =>
    case Node(_, _, l, key, _, r) =>
      if k < key {
        InsertContents(l, k, v);
        assert Descend(x, k, v) == x.(left := Insert(l, k, v));
        ReplaceLeftContents(x, Insert(l, k, v), k, v);
      } else if k > key {
        InsertContents(r, k, v);
        assert Descend(x, k, v) == x.(right := Insert(r, k, v));
        ReplaceRightContents(x, Insert(r, k, v), k, v);
      } else {
        assert Descend(x, k, v) == x.(value := v);
        ReplaceValueContents(x, v);
      }
  }

  lemma ReplaceLeftContents<V>(x: Tree<V>, l': Tree<V>, k: int, v: V)
    requires SearchTree(x) && x.Node? && k < x.key
    requires Contents(l') == Contents(x.left)[k := v]
    ensures Contents(x.(left := l')) == Contents(x)[k := v]
  {
    var ml, mk, mr := Contents(x.left), map[x.key := x.value], Contents(x.right);
    assert Contents(x) == ml + mk + mr;
    assert Contents(x.(left := l')) == ml[k := v] + mk + mr;
    ContentsKeys(x.right);
    assert k !in mk + mr;
    UpdateUnder(ml, mk + mr, k, v);
    MapJoin3(ml, mk, mr);
    MapJoin3(ml[k := v], mk, mr);
  }

  /** Map union is associative. */
  lemma MapJoin3<K, W>(a: map<K, W>, b: map<K, W>, c: map<K, W>)
    ensures (a + b) + c == a + (b + c)
  {
  }

  lemma ReplaceRightContents<V>(x: Tree<V>, r': Tree<V>, k: int, v: V)
    requires x.Node? && Contents(r') == Contents(x.right)[k := v]
    ensures Contents(x.(right := r')) == Contents(x)[k := v]
  {
  }

  lemma ReplaceValueContents<V>(x: Tree<V>, v: V)
    requires SearchTree(x) && x.Node?
    ensures Contents(x.(value := v)) == Contents(x)[x.key := v]
  {
    var y := x.(value := v);
    assert Contents(y) == Contents(x.left) + map[x.key := v] + Contents(x.right);
    assert Contents(x) == Contents(x.left) + map[x.key := x.value] + Contents(x.right);
    ContentsKeys(x.right);
    UpdateMiddle(Contents(x.left), x.key, x.value, Contents(x.right), v);
  }

  lemma UpdateMiddle<K, W>(a: map<K, W>, k: K, w0: W, b: map<K, W>, w: W)
    requires k !in b
    ensures (a + map[k := w0] + b)[k := w] == a + map[k := w] + b
  {
  }

  lemma UpdateUnder<K, W>(a: map<K, W>, b: map<K, W>, k: K, w: W)
    requires k !in b
    ensures a[k := w] + b == (a + b)[k := w]
  {
  }

  lemma {:induction false} ContentsKeys<V>(t: Tree<V>)
    ensures Contents(t).Keys == Keys(t)
  {
    match t
    case Nil =>
    case Node(_, _, l, _, _, r) =>
      ContentsKeys(l);
      ContentsKeys(r);
  }

  /** The node deleteMin recurses into is again one deleteMin accepts. */
  lemma DeleteMinStep<V>(x: Tree<V>)
    requires DeletePre(x) && x.left.Node?
    ensures IsRed(x.left) || IsRed(x.left.left) || x.right.Node?
    ensures var n := if !IsRed(x.left) && !IsRed(GetLeft(x.left)) then MoveRedLeft(x) else x;
      n.Node? && DeletePre(n.left)
  {
    if !IsRed(x.left) && !IsRed(GetLeft(x.left)) {
      MoveRedLeftShape(x);
    } else {
      assert LeftLeaning(x.left) && BlackBalanced(x.left);
    }
  }

  /** Dropping the first entry of a node with a left child drops the first entry of that child. */
  lemma DropFirstEntry<V>(n: Tree<V>)
    requires n.Node? && n.left.Node?
    ensures Count(n.left) < Count(n)
    ensures Entries(n)[1..] == Entries(n.left)[1..] + [(n.key, n.value)] + Entries(n.right)
  {
    var a, p, r := Entries(n.left), [(n.key, n.value)], Entries(n.right);
    assert Entries(n) == a + p + r;
    assert a == Entries(n.left.left) + [(n.left.key, n.left.value)] + Entries(n.left.right);
    DropHead(a, p, r);
  }

  /** Dropping the head of a concatenation whose first part is not empty. */
  lemma DropHead<T>(a: seq<T>, p: seq<T>, r: seq<T>)
    requires |a| > 0
    ensures (a + p + r)[1..] == a[1..] + p + r
  {
  }

  /** Replacing the left child by a subset of its entries keeps order and sizes. */
  lemma ReplaceLeftKeeps<V>(n: Tree<V>, d: Tree<V>)
    requires n.Node? && n.left.Node?
    requires Keys(d) <= Keys(n.left)
    requires SearchTree(n.left) ==> SearchTree(d)
    requires SizesOk(n.left) ==> SizesOk(d)
    ensures Entries(n.(left := d)) == Entries(d) + [(n.key, n.value)] + Entries(n.right)
    ensures Keys(n.(left := d)) <= Keys(n)
    ensures SearchTree(n) ==> SearchTree(n.(left := d))
    ensures SizesOk(n) ==> SizesOkBelow(n.(left := d))
  {
  }

  /** Recolouring a node changes neither its order, nor its sizes, nor the black balance below it. */
  lemma Recolor<V>(t: Tree<V>, c: Color)
    requires t.Node?
    ensures SearchTree(t.(color := c)) == SearchTree(t) && SizesOk(t.(color := c)) == SizesOk(t)
    ensures BlackBalanced(t.(color := c)) == BlackBalanced(t) && Contents(t.(color := c)) == Contents(t)
    ensures c == Black && LeftLeaningBelowRoot(t) ==> LeftLeaning(t.(color := c))
    ensures FindMin(t.(color := c)).key == FindMin(t).key
  {
  }

  /** A node of DeletePre with no left child is a RED leaf. */
  lemma LoneRedLeaf<V>(x: Tree<V>)
    requires DeletePre(x) && x.left.Nil?
    ensures x.color == Red && x.right.Nil?
  {
    assert BlackHeight(x.right) == 0;
  }

  /** A non-nil BLACK node has black height at least 1. */
  lemma BlackNodeHasHeight<V>(t: Tree<V>)
    requires t.Node? && t.color == Black
    ensures BlackHeight(t) >= 1
  {
  }

  /**
   * What MoveRedLeft leaves when deleteMin calls it: a BLACK root, a left
   * child on which deleteMin can recurse, and a RED, left-leaning right child
   * one BLACK node shorter than the old root.
   */
  lemma MoveRedLeftShape<V>(x: Tree<V>)
    requires DeletePre(x) && x.left.Node? && !IsRed(x.left) && !IsRed(x.left.left)
    ensures x.right.Node?
    ensures var n := MoveRedLeft(x);
      && n.color == Black
      && DeletePre(n.left)
      && IsRed(n.right) && LeftLeaning(n.right) && BlackBalanced(n.right)
      && BlackHeight(n.left) == BlackHeight(n.right)
      && BlackHeight(x) == BlackHeight(n.right) + 1
  {
    BlackNodeHasHeight(x.left);
    assert x.color == Red;
    var a, b := x.left, x.right;
    assert BlackHeight(b) >= 1;
    var n := FlipColors(x);
    if IsRed(GetLeft(GetRight(n))) {
      var c := b.left;
      var rr := RotateRight(n.right);
      assert rr == Node(Red, b.size, c.left, c.key, c.value,
                        CalcSize(Node(Red, b.size, c.right, b.key, b.value, b.right)));
      var m := RotateLeft(n.(right := rr));
      assert m.left == CalcSize(Node(Red, x.size, a.(color := Red), x.key, x.value, c.left));
      assert BlackHeight(c) == BlackHeight(b) - 1;
      assert LeftLeaning(c);
      assert BlackBalanced(a) && BlackBalanced(b) && BlackBalanced(c);
    } else {
      assert BlackBalanced(a) && BlackBalanced(b);
    }
  }

  // ---------------------------------------------------------------------
  // Lemmas: the red-black shape is kept
  // ---------------------------------------------------------------------

  /** FixUp after the recursion went left: the left child may end in a RED-RED pair. */
  lemma FixUpAfterLeft<V>(x: Tree<V>)
    requires x.Node? && LeftLeaningBelowRoot(x.left) && BlackBalanced(x.left)
    requires !IsRed(x.right) && LeftLeaning(x.right) && BlackBalanced(x.right)
    requires BlackHeight(x.left) == BlackHeight(x.right)
    requires x.color == Red ==> LeftLeaning(x.left)
    ensures var r := FixUp(x);
      && BlackBalanced(r) && BlackHeight(r) == BlackHeight(x)
      && LeftLeaningBelowRoot(r)
      && (x.color == Black ==> LeftLeaning(r))
      && (x.color == Red ==> IsRed(r))
  {
    var l := x.left;
    if IsRed(l) && IsRed(l.left) {
      assert x.color == Black;
      assert BlackBalanced(l.left) && LeftLeaning(l.left);
    } else {
      assert FixUp(x) == CalcSize(x);
    }
  }

  /** The first case of FixUpAfterRight: a RED right child under a non-RED left one is rotated left. */
  lemma FixUpRightRed<V>(x: Tree<V>)
    requires x.Node? && LeftLeaning(x.left) && BlackBalanced(x.left)
    requires LeftLeaning(x.right) && BlackBalanced(x.right)
    requires BlackHeight(x.left) == BlackHeight(x.right)
    requires IsRed(x.right) && !IsRed(x.left)
    ensures var r := FixUp(x);
      && BlackBalanced(r) && BlackHeight(r) == BlackHeight(x)
      && LeftLeaningBelowRoot(r)
      && (x.color == Black ==> LeftLeaning(r))
      && (x.color == Red ==> IsRed(r))
  {
    var rt := x.right;
    assert LeftLeaning(rt.left) && LeftLeaning(rt.right);
    assert BlackBalanced(rt.left) && BlackBalanced(rt.right);
    var r1 := RotateLeft(x);
    assert !IsRed(r1.left.left) && !IsRed(r1.right);
    assert FixUp(x) == CalcSize(r1);
  }

  /** FixUp after the recursion went right, or replaced the value in place. */
  lemma FixUpAfterRight<V>(x: Tree<V>)
    requires x.Node? && LeftLeaning(x.left) && BlackBalanced(x.left)
    requires LeftLeaning(x.right) && BlackBalanced(x.right)
    requires BlackHeight(x.left) == BlackHeight(x.right)
    requires x.color == Red ==> !IsRed(x.left)
    ensures var r := FixUp(x);
      && BlackBalanced(r) && BlackHeight(r) == BlackHeight(x)
      && LeftLeaningBelowRoot(r)
      && (x.color == Black ==> LeftLeaning(r))
      && (x.color == Red ==> IsRed(r))
  {
    var l, rt := x.left, x.right;
    if IsRed(rt) && !IsRed(l) {
      FixUpRightRed(x);
    } else if IsRed(rt) {
      assert x.color == Black && BlackBalanced(l) && BlackBalanced(rt);
      assert FixUp(x) == CalcSize(FlipColors(x));
    } else {
      assert FixUp(x) == CalcSize(x);
    }
  }

  /**
   * Insertion into a left-leaning, black-balanced subtree keeps the black
   * height and the balance, and can leave a RED-RED pair only at the root,
   * and only when the subtree's root was RED already.
   */
  lemma {:induction false} InsertShape<V>(x: Tree<V>, k: int, v: V)
    requires IsLlrb(x)
    ensures var r := Insert(x, k, v);
      && BlackBalanced(r) && BlackHeight(r) == BlackHeight(x)
      && LeftLeaningBelowRoot(r)
      && (!IsRed(x) ==> LeftLeaning(r))
      && (IsRed(x) ==> IsRed(r))
    decreases x
  {
    match x
    case Nil =>
    case Node(c, s, l, key, val, rt) =>
      if k < key {
        InsertShape(l, k, v);
        FixUpAfterLeft(Descend(x, k, v));
      } else if k > key {
        InsertShape(rt, k, v);
        FixUpAfterRight(Descend(x, k, v));
      } else {
        FixUpAfterRight(Descend(x, k, v));
      }
  }

  /**
   * Balance repairs a node whose left child came back from deleteMin: when
   * the right child is RED the result is fully left-leaning, otherwise the
   * node keeps its colour and is left-leaning unless RED over RED.
   */
  lemma BalanceShape<V>(x: Tree<V>)
    requires x.Node?
    requires BlackBalanced(x.left) && BlackBalanced(x.right)
    requires BlackHeight(x.left) == BlackHeight(x.right)
    requires LeftLeaning(x.right)
    requires x.left.Nil? || LeftLeaningBelowRoot(x.left)
    requires IsRed(x.right) ==> x.color == Black
    requires !IsRed(x.right) ==> LeftLeaning(x.left)
    ensures var r := Balance(x);
      && BlackBalanced(r) && BlackHeight(r) == BlackHeight(x)
      && LeftLeaningBelowRoot(r)
      && (IsRed(x.right) ==> LeftLeaning(r))
      && (!IsRed(x.right) ==> r.color == x.color)
      && (!IsRed(x.right) && (x.color == Black || !IsRed(x.left)) ==> LeftLeaning(r))
  {
    if IsRed(x.right) {
      if IsRed(x.left) {
        BalanceRedPair(x);
      } else {
        BalanceRedRight(x);
      }
    } else {
      assert Balance(x) == CalcSize(x);
    }
  }

  /** Balance with a RED right child and a left child that is not RED: one rotation. */
  lemma BalanceRedRight<V>(x: Tree<V>)
    requires x.Node? && x.color == Black && IsRed(x.right) && !IsRed(x.left)
    requires BlackBalanced(x.left) && BlackBalanced(x.right)
    requires BlackHeight(x.left) == BlackHeight(x.right)
    requires LeftLeaning(x.right) && LeftLeaning(x.left)
    ensures var r := Balance(x);
      BlackBalanced(r) && BlackHeight(r) == BlackHeight(x) && LeftLeaning(r) && !IsRed(r.right)
  {
    var b := x.right;
    assert LeftLeaning(b.left) && LeftLeaning(b.right) && !IsRed(b.left);
    assert BlackBalanced(b.left) && BlackBalanced(b.right);
    var n2 := RotateLeft(x);
    assert Balance(x) == CalcSize(n2);
  }

  /**
   * Balance with two RED children: the rotation left and the rotation right
   * cancel out and the colour flip makes the node RED over two BLACK children.
   */
  lemma BalanceRedPair<V>(x: Tree<V>)
    requires x.Node? && x.color == Black && IsRed(x.right) && IsRed(x.left)
    requires BlackBalanced(x.left) && BlackBalanced(x.right)
    requires BlackHeight(x.left) == BlackHeight(x.right)
    requires LeftLeaning(x.right) && LeftLeaningBelowRoot(x.left)
    ensures var r := Balance(x);
      BlackBalanced(r) && BlackHeight(r) == BlackHeight(x) && LeftLeaning(r) && IsRed(r)
  {
    var l, b := x.left, x.right;
    assert LeftLeaning(b.left) && LeftLeaning(b.right) && !IsRed(b.left);
    assert BlackBalanced(b.left) && BlackBalanced(b.right);
    assert BlackBalanced(l.left) && BlackBalanced(l.right);
    var n2 := RotateLeft(x);
    var n3 := RotateRight(n2);
    assert Balance(x) == CalcSize(FlipColors(n3));
  }

  /**
   * What deleteMin guarantees about the shape: the black height and the
   * balance are kept, a RED-RED pair can be left only at the root, a
   * left-leaning tree stays left-leaning, a BLACK node comes back as a BLACK
   * node and a RED-RED pair as a RED node.
   */
  ghost predicate DeleteMinPost<V>(x: Tree<V>, r: Tree<V>)
  {
    && BlackBalanced(r) && BlackHeight(r) == BlackHeight(x)
    && (r.Nil? || LeftLeaningBelowRoot(r))
    && (LeftLeaning(x) ==> LeftLeaning(r))
    && (IsBlackNode(x) ==> IsBlackNode(r))
    && (IsRed(x) && x.left.Node? && IsRed(x.left) ==> IsRed(r))
  }

  predicate IsBlackNode<V>(x: Tree<V>)
  {
    x.Node? && x.color == Black
  }

  /** The recursive step of deleteMin through MoveRedLeft keeps the shape. */
  lemma DeleteMinMovedShape<V>(x: Tree<V>, d: Tree<V>)
    requires DeletePre(x) && x.left.Node? && !IsRed(x.left) && !IsRed(x.left.left)
    ensures x.right.Node?
    ensures DeleteMinPost(MoveRedLeft(x).left, d) ==> DeleteMinPost(x, Balance(MoveRedLeft(x).(left := d)))
  {
    MoveRedLeftShape(x);
    var n := MoveRedLeft(x);
    if DeleteMinPost(n.left, d) {
      BalanceShape(n.(left := d));
    }
  }

  /** The recursive step of deleteMin without MoveRedLeft keeps the shape. */
  lemma DeleteMinKeptShape<V>(x: Tree<V>, d: Tree<V>)
    requires DeletePre(x) && x.left.Node? && (IsRed(x.left) || IsRed(x.left.left))
    requires DeleteMinPost(x.left, d)
    ensures DeleteMinPost(x, Balance(x.(left := d)))
  {
    assert LeftLeaning(x.left) && BlackBalanced(x.left) && BlackBalanced(x.right);
    BalanceShape(x.(left := d));
  }

  lemma {:induction false} DeleteMinShape<V>(x: Tree<V>)
    requires DeletePre(x)
    ensures DeleteMinPost(x, DeleteMin(x))
    decreases Count(x)
  {
    if x.left.Nil? {
      LoneRedLeaf(x);
    } else {
      DeleteMinStep(x);
      var n := if !IsRed(x.left) && !IsRed(GetLeft(x.left)) then MoveRedLeft(x) else x;
      DropFirstEntry(n);
      DeleteMinShape(n.left);
      var d := DeleteMin(n.left);
      assert DeleteMin(x) == Balance(n.(left := d));
      if !IsRed(x.left) && !IsRed(GetLeft(x.left)) {
        DeleteMinMovedShape(x, d);
      } else {
        DeleteMinKeptShape(x, d);
      }
    }
  }

  // ---------------------------------------------------------------------
  // Lemmas: lookups, sizes and the order of entries
  // ---------------------------------------------------------------------

  /** In a search tree, find reaches exactly the stored keys and their values. */
  lemma {:induction false} FindContents<V>(x: Tree<V>, k: int)
    requires SearchTree(x)
    ensures Find(x, k).Node? <==> k in Contents(x)
    ensures Find(x, k).Node? ==> Find(x, k).value == Contents(x)[k]
  {
    match x
    case Nil =>
    case Node(_, _, l, key, _, r) =>
      ContentsKeys(l);
      ContentsKeys(r);
      if k < key {
        FindContents(l, k);
        assert k !in Keys(r);
      } else if k > key {
        FindContents(r, k);
      } else {
        assert k !in Keys(r);
      }
  }

  /** The leftmost key of a search tree is its least key. */
  lemma {:induction false} FindMinIsLeast<V>(x: Tree<V>)
    requires SearchTree(x) && x.Node?
    ensures forall j :: j in Keys(x) ==> FindMin(x).key <= j
  {
    if x.left.Node? {
      FindMinIsLeast(x.left);
    }
  }

  /** The rightmost key of a search tree is its greatest key. */
  lemma {:induction false} FindMaxIsGreatest<V>(x: Tree<V>)
    requires SearchTree(x) && x.Node?
    ensures forall j :: j in Keys(x) ==> j <= FindMax(x).key
  {
    if x.right.Node? {
      FindMaxIsGreatest(x.right);
    }
  }

  /** Correct cached sizes make the root's size the number of nodes. */
  lemma {:induction false} SizeIsCount<V>(t: Tree<V>)
    requires SizesOk(t)
    ensures GetSize(t) == Count(t)
  {
    match t
    case Nil =>
    case Node(_, _, l, _, _, r) =>
      SizeIsCount(l);
      SizeIsCount(r);
  }

  /** Keys strictly ascending. */
  ghost predicate Ascending<V>(s: seq<(int, V)>)
  {
    forall i, j :: 0 <= i < j < |s| ==> s[i].0 < s[j].0
  }

  /** A sequence of pairs read as a map, a later pair overriding an earlier one. */
  ghost function MapOf<V>(s: seq<(int, V)>): map<int, V>
  {
    if |s| == 0 then map[] else map[s[0].0 := s[0].1] + MapOf(s[1..])
  }

  /** The in-order entries of a search tree have ascending keys, all of them keys of the tree. */
  lemma {:induction false} EntriesAscending<V>(t: Tree<V>)
    requires SearchTree(t)
    ensures Ascending(Entries(t))
    ensures forall i :: 0 <= i < |Entries(t)| ==> Entries(t)[i].0 in Keys(t)
  {
    match t
    case Nil =>
    case Node(_, _, l, k, v, r) =>
      EntriesAscending(l);
      EntriesAscending(r);
      var el, er := Entries(l), Entries(r);
      var e := Entries(t);
      assert e == el + [(k, v)] + er;
      forall i | 0 <= i < |e|
        ensures e[i].0 in Keys(t)
        ensures i < |el| ==> e[i].0 < k
        ensures i > |el| ==> e[i].0 > k
      {
        if i < |el| {
          assert e[i] == el[i];
        } else if i > |el| {
          assert e[i] == er[i - |el| - 1];
        }
      }
      forall i, j | 0 <= i < j < |e|
        ensures e[i].0 < e[j].0
      {
        if j < |el| {
          assert e[i] == el[i] && e[j] == el[j];
        } else if i > |el| {
          assert e[i] == er[i - |el| - 1] && e[j] == er[j - |el| - 1];
        }
      }
  }

  lemma {:induction false} MapOfConcat<V>(a: seq<(int, V)>, b: seq<(int, V)>)
    ensures MapOf(a + b) == MapOf(a) + MapOf(b)
    decreases |a|
  {
    if |a| == 0 {
      assert a + b == b;
    } else {
      assert (a + b)[0] == a[0] && (a + b)[1..] == a[1..] + b;
      MapOfConcat(a[1..], b);
    }
  }

  /** The map of a sequence with one entry in the middle. */
  lemma MapOfAround<V>(a: seq<(int, V)>, k: int, v: V, b: seq<(int, V)>)
    ensures MapOf(a + [(k, v)] + b) == MapOf(a) + map[k := v] + MapOf(b)
  {
    var p := [(k, v)];
    assert MapOf(p) == map[k := v] by {
      assert p[1..] == [];
      assert MapOf(p) == map[k := v] + MapOf([]);
    }
    MapOfConcat(a + p, b);
    MapOfConcat(a, p);
  }

  /** The map a tree stands for is the map of its in-order entries. */
  lemma {:induction false} ContentsIsMapOfEntries<V>(t: Tree<V>)
    ensures Contents(t) == MapOf(Entries(t))
  {
    match t
    case Nil =>
    case Node(_, _, l, k, v, r) =>
      assert Entries(t) == Entries(l) + [(k, v)] + Entries(r);
      MapOfAround(Entries(l), k, v, Entries(r));
      ContentsIsMapOfEntries(l);
      ContentsIsMapOfEntries(r);
  }

  /** A key below every key of a sequence is not in its map. */
  lemma {:induction false} BelowAllNotInMapOf<V>(s: seq<(int, V)>, k: int)
    requires forall i :: 0 <= i < |s| ==> k < s[i].0
    ensures k !in MapOf(s)
    decreases |s|
  {
    if |s| > 0 {
      BelowAllNotInMapOf(s[1..], k);
    }
  }

  /** The first in-order entry is the leftmost node. */
  lemma {:induction false} FirstEntryIsMin<V>(t: Tree<V>)
    requires t.Node?
    ensures |Entries(t)| > 0
    ensures Entries(t)[0] == (FindMin(t).key, FindMin(t).value)
  {
    if t.left.Node? {
      FirstEntryIsMin(t.left);
    }
  }

  /**
   * On a search tree, deleteMin removes exactly the least key and leaves every
   * other key with its value.
   */
  lemma DeleteMinContents<V>(x: Tree<V>)
    requires DeletePre(x) && SearchTree(x)
    ensures Contents(DeleteMin(x)) == Contents(x) - {FindMin(x).key}
  {
    FirstEntryIsMin(x);
    EntriesAscending(x);
    ContentsIsMapOfEntries(x);
    ContentsIsMapOfEntries(DeleteMin(x));
    MapOfDropFirst(Entries(x));
  }

  /** Dropping the first pair of an ascending sequence drops its key from the map. */
  lemma MapOfDropFirst<V>(s: seq<(int, V)>)
    requires |s| > 0 && Ascending(s)
    ensures MapOf(s[1..]) == MapOf(s) - {s[0].0}
  {
    forall i | 0 <= i < |s[1..]| ensures s[0].0 < s[1..][i].0 {
      assert s[1..][i] == s[i + 1];
    }
    BelowAllNotInMapOf(s[1..], s[0].0);
  }

  /**
   * The three steps of the public DeleteMin on a valid non-empty root: paint
   * the root RED when neither child is RED, delete the minimum, paint the new
   * root BLACK. The result is valid again and holds every key but the least.
   */
  lemma DeleteMinAtRoot<V>(x: Tree<V>)
    requires x.Node? && SearchTree(x) && SizesOk(x) && IsLlrb(x) && !IsRed(x)
    ensures var y := if !IsRed(x.left) && !IsRed(x.right) then x.(color := Red) else x;
      DeletePre(y)
    ensures var y := if !IsRed(x.left) && !IsRed(x.right) then x.(color := Red) else x;
      var d := DeleteMin(y);
      var z := if d.Node? then d.(color := Black) else d;
      && SearchTree(z) && SizesOk(z) && IsLlrb(z) && !IsRed(z)
      && Contents(z) == Contents(x) - {FindMin(x).key}
      && (forall j :: j in Contents(z) ==> FindMin(x).key < j)
  {
    var min := FindMin(x).key;
    var y := if !IsRed(x.left) && !IsRed(x.right) then x.(color := Red) else x;
    Recolor(x, Red);
    DeleteMinShape(y);
    DeleteMinContents(y);
    var d := DeleteMin(y);
    if d.Node? {
      Recolor(d, Black);
    }
    FindMinIsLeast(x);
    ContentsKeys(x);
    forall j | j in Contents(d) ensures min < j {
      assert j in Contents(x) && j != min;
    }
  }
}
