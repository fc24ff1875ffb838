/**
 * The nodes of the two AVL trees, tree/avl_tree/avl_tree.go and
 * tree/avl_tree.go, which share their node code line for line: getHeight,
 * calcHeight, adjust, getLeft/getRight, rotateLeft/rotateRight, insert and
 * traverse. The set in tree/avl_tree/avl_tree.go adds find, findMin, findMax
 * and remove, which are here as well.
 *
 * As in the red-black tree, nodes are exclusively owned and every helper
 * returns the new subtree root, so a subtree is a value. The cached `height`
 * is a nat: every height the code writes is 0 or one more than another.
 */
module AvlNode {

  datatype Tree = Nil | Node(left: Tree, right: Tree, height: nat, key: int)

  // ---------------------------------------------------------------------
  // What a subtree stores, and its shape
  // ---------------------------------------------------------------------

  /** The keys in in-order, the order traverse visits them. */
  ghost function InOrder(t: Tree): seq<int>
  {
    match t
    case Nil => []
    case Node(l, r, _, k) => InOrder(l) + [k] + InOrder(r)
  }

  ghost function Keys(t: Tree): set<int>
  {
    match t
    case Nil => {}
    case Node(l, r, _, k) => Keys(l) + {k} + Keys(r)
  }

  ghost predicate SearchTree(t: Tree)
  {
    match t
    case Nil => true
    case Node(l, r, _, k) =>
      && SearchTree(l) && SearchTree(r)
      && (forall j :: j in Keys(l) ==> j < k)
      && (forall j :: j in Keys(r) ==> k < j)
  }

  /** The true height: nil is 0, a node one more than its taller child. */
  ghost function Height(t: Tree): nat
  {
    match t
    case Nil => 0
    case Node(l, r, _, _) => 1 + Max(Height(l), Height(r))
  }

  function Max(a: int, b: int): int
  {
    if a < b then b else a
  }

  /** Every cached height is the true height. */
  ghost predicate HeightsOk(t: Tree)
  {
    match t
    case Nil => true
    case Node(l, r, h, _) => h == Height(t) && HeightsOk(l) && HeightsOk(r)
  }

  /** The AVL condition: at every node the children's heights differ by at most one. */
  ghost predicate Balanced(t: Tree)
  {
    match t
    case Nil => true
    case Node(l, r, _, _) =>
      -1 <= Height(l) - Height(r) <= 1 && Balanced(l) && Balanced(r)
  }

  ghost predicate IsAvl(t: Tree)
  {
    HeightsOk(t) && Balanced(t)
  }

  // ---------------------------------------------------------------------
  // Node helpers
  // ---------------------------------------------------------------------

  /** A lone node holding k, its height cached correctly. */
  function NewNode(k: int): (r: Tree)
    ensures InOrder(r) == [k] && Keys(r) == {k} && SearchTree(r) && IsAvl(r)
  {
    Node(Nil, Nil, 1, k)
  }

  function GetHeight(t: Tree): nat
  {
    if t.Nil? then 0 else t.height
  }

  /** The left subtree, nil for nil: the keys that come before the node's own. */
  function GetLeft(t: Tree): (r: Tree)
    ensures t.Nil? ==> r == Nil
    ensures t.Node? ==> InOrder(t) == InOrder(r) + [t.key] + InOrder(t.right)
    ensures t.Node? && SearchTree(t) ==> SearchTree(r) && forall j :: j in Keys(r) ==> j < t.key
    ensures IsAvl(t) ==> IsAvl(r)
  {
    if t.Nil? then Nil else t.left
  }

  /** The right subtree, nil for nil: the keys that come after the node's own. */
  function GetRight(t: Tree): (r: Tree)
    ensures t.Nil? ==> r == Nil
    ensures t.Node? ==> InOrder(t) == InOrder(t.left) + [t.key] + InOrder(r)
    ensures t.Node? && SearchTree(t) ==> SearchTree(r) && forall j :: j in Keys(r) ==> t.key < j
    ensures IsAvl(t) ==> IsAvl(r)
  {
    if t.Nil? then Nil else t.right
  }

  /** Recomputes the node's cached height from its children's cached heights. */
  function CalcHeight(t: Tree): (r: Tree)
    ensures r.Nil? == t.Nil?
    ensures t.Node? ==> r.left == t.left && r.right == t.right && r.key == t.key
    ensures t.Node? ==> r.height == 1 + Max(GetHeight(t.left), GetHeight(t.right))
    ensures t.Node? && HeightsOk(t.left) && HeightsOk(t.right) ==> HeightsOk(r)
    ensures HeightsOk(t) ==> r == t
    ensures InOrder(r) == InOrder(t) && Keys(r) == Keys(t) && SearchTree(r) == SearchTree(t)
  {
    if t.Nil? then Nil
    else if GetHeight(t.left) > GetHeight(t.right) then t.(height := GetHeight(t.left) + 1)
    else t.(height := GetHeight(t.right) + 1)
  }

  /**
   * Rotates the right child up and recomputes the heights of the two nodes
   * involved (and of the untouched right grandchild). A node whose children
   * have equal cached heights is returned as it is; otherwise Go dereferences
   * the right child, so it must exist.
   */
  function RotateLeft(t: Tree): (r: Tree)
    requires t.Node? && GetHeight(t.left) != GetHeight(t.right) ==> t.right.Node?
    ensures r.Nil? == t.Nil?
    ensures t.Node? && GetHeight(t.left) == GetHeight(t.right) ==> r == t
    ensures InOrder(r) == InOrder(t) && Keys(r) == Keys(t)
    ensures SearchTree(t) ==> SearchTree(r)
  {
    if t.Nil? then Nil
    else if GetHeight(t.left) == GetHeight(t.right) then t
    else
      var res := t.right;
      var down := t.(right := res.left);
      RotateLeftOrder(t);
      CalcHeight(Node(CalcHeight(down), CalcHeight(res.right), res.height, res.key))
  }

  /** The mirror image of RotateLeft. */
  function RotateRight(t: Tree): (r: Tree)
    requires t.Node? && GetHeight(t.left) != GetHeight(t.right) ==> t.left.Node?
    ensures r.Nil? == t.Nil?
    ensures t.Node? && GetHeight(t.left) == GetHeight(t.right) ==> r == t
    ensures InOrder(r) == InOrder(t) && Keys(r) == Keys(t)
    ensures SearchTree(t) ==> SearchTree(r)
  {
    if t.Nil? then Nil
    else if GetHeight(t.left) == GetHeight(t.right) then t
    else
      var res := t.left;
      var down := t.(left := res.right);
      RotateRightOrder(t);
      CalcHeight(Node(CalcHeight(res.left), CalcHeight(down), res.height, res.key))
  }

  /**
   * Rebalances a node whose children's heights differ by more than one, with
   * a double rotation when the inner grandchild is taller; otherwise only
   * recomputes the node's height.
   */
  function Adjust(t: Tree): (r: Tree)
    ensures r.Nil? == t.Nil?
    ensures InOrder(r) == InOrder(t) && Keys(r) == Keys(t)
    ensures SearchTree(t) ==> SearchTree(r)
  {
    if t.Nil? then Nil
    else if GetHeight(t.left) - GetHeight(t.right) > 1 then
      var l := if GetHeight(GetLeft(t.left)) < GetHeight(GetRight(t.left)) then RotateLeft(t.left) else t.left;
      RotateRight(t.(left := l))
    else if GetHeight(t.right) - GetHeight(t.left) > 1 then
      var r := if GetHeight(GetLeft(t.right)) > GetHeight(GetRight(t.right)) then RotateRight(t.right) else t.right;
      RotateLeft(t.(right := r))
    else CalcHeight(t)
  }

  /** Adds k below t unless a node already holds it, rebalancing on the way up. */
  function Insert(t: Tree, k: int): (r: Tree)
    ensures r.Node?
    ensures Keys(r) == Keys(t) + {k}
    ensures SearchTree(t) ==> SearchTree(r)
  {
    if t.Nil? then NewNode(k)
    else if k < t.key then Adjust(t.(left := Insert(t.left, k)))
    else if k > t.key then Adjust(t.(right := Insert(t.right, k)))
    else t
  }

  /** The node holding k, or Nil. */
  function Find(t: Tree, k: int): (r: Tree)
    ensures r.Node? ==> r.key == k
  {
    if t.Nil? then Nil
    else if k < t.key then Find(t.left, k)
    else if k > t.key then Find(t.right, k)
    else t
  }

  /** The leftmost node, or Nil. */
  function FindMin(t: Tree): (r: Tree)
    ensures r.Nil? <==> t.Nil?
    ensures r.Node? ==> r.key in Keys(t)
  {
    if t.Nil? then Nil
    else if t.left.Node? then FindMin(t.left)
    else t
  }

  /** The rightmost node, or Nil. */
  function FindMax(t: Tree): (r: Tree)
    ensures r.Nil? <==> t.Nil?
    ensures r.Node? ==> r.key in Keys(t)
  {
    if t.Nil? then Nil
    else if t.right.Node? then FindMax(t.right)
    else t
  }

  /**
   * Removes k below t. A node with one child is replaced by that child; a
   * node with two children takes the key of its in-order predecessor, which
   * is then removed from the left subtree.
   */
  function Remove(t: Tree, k: int): (r: Tree)
    ensures Keys(r) <= Keys(t)
    ensures SearchTree(t) ==> SearchTree(r) && Keys(r) == Keys(t) - {k}
  {
    if t.Nil? then Nil
    else if k < t.key then
      RemoveLeft(t, k, Remove(t.left, k));
      Adjust(t.(left := Remove(t.left, k)))
    else if k > t.key then
      RemoveRight(t, k, Remove(t.right, k));
      Adjust(t.(right := Remove(t.right, k)))
    else if t.left.Nil? then Adjust(t.right)
    else if t.right.Nil? then Adjust(t.left)
    else
      var pred := FindMax(t.left);
      var l := Remove(t.left, pred.key);
      RemovePredecessor(t, l);
      Adjust(t.(left := l, key := pred.key))
  }

  /** Visits the keys in in-order; the result is the sequence of keys handed to the callback. */
  method Traverse(t: Tree) returns (visited: seq<int>)
    ensures visited == InOrder(t)
  {
    if t.Nil? {
      return [];
    }
    var l := Traverse(t.left);
    var r := Traverse(t.right);
    visited := l + [t.key] + r;
  }

  // ---------------------------------------------------------------------
  // Lemmas: order
  // ---------------------------------------------------------------------

  lemma RotateLeftOrder(t: Tree)
    requires t.Node? && t.right.Node?
    ensures var res := t.right;
      var y := Node(t.(right := res.left), res.right, res.height, res.key);
      && InOrder(y) == InOrder(t) && Keys(y) == Keys(t)
      && (SearchTree(t) ==> SearchTree(y))
  {
    if SearchTree(t) {
      assert SearchTree(t.right) && t.right.key in Keys(t.right);
    }
  }

  lemma RotateRightOrder(t: Tree)
    requires t.Node? && t.left.Node?
    ensures var res := t.left;
      var y := Node(res.left, t.(left := res.right), res.height, res.key);
      && InOrder(y) == InOrder(t) && Keys(y) == Keys(t)
      && (SearchTree(t) ==> SearchTree(y))
  {
    if SearchTree(t) {
      assert SearchTree(t.left) && t.left.key in Keys(t.left);
    }
  }

  /** Removing k from the left subtree, when k is below the node's key, removes it from the whole. */
  lemma RemoveLeft(t: Tree, k: int, l: Tree)
    requires t.Node? && k < t.key
    requires Keys(l) <= Keys(t.left)
    requires SearchTree(t.left) ==> SearchTree(l) && Keys(l) == Keys(t.left) - {k}
    ensures Keys(t.(left := l)) <= Keys(t)
    ensures SearchTree(t) ==> SearchTree(t.(left := l)) && Keys(t.(left := l)) == Keys(t) - {k}
  {
    if SearchTree(t) {
      assert k !in Keys(t.right);
    }
  }

  /** The mirror image of RemoveLeft. */
  lemma RemoveRight(t: Tree, k: int, r: Tree)
    requires t.Node? && k > t.key
    requires Keys(r) <= Keys(t.right)
    requires SearchTree(t.right) ==> SearchTree(r) && Keys(r) == Keys(t.right) - {k}
    ensures Keys(t.(right := r)) <= Keys(t)
    ensures SearchTree(t) ==> SearchTree(t.(right := r)) && Keys(t.(right := r)) == Keys(t) - {k}
  {
    if SearchTree(t) {
      assert k !in Keys(t.left);
    }
  }

  /** The two-child case of remove: the predecessor's key moves up into the node. */
  lemma RemovePredecessor(t: Tree, l: Tree)
    requires t.Node? && t.left.Node? && t.right.Node?
    requires Keys(l) <= Keys(t.left)
    requires SearchTree(t.left) ==> SearchTree(l) && Keys(l) == Keys(t.left) - {FindMax(t.left).key}
    ensures Keys(t.(left := l, key := FindMax(t.left).key)) <= Keys(t)
    ensures SearchTree(t) ==>
      && SearchTree(t.(left := l, key := FindMax(t.left).key))
      && Keys(t.(left := l, key := FindMax(t.left).key)) == Keys(t) - {t.key}
  {
    var p := FindMax(t.left).key;
    if SearchTree(t) {
      FindMaxIsGreatest(t.left);
      assert t.key !in Keys(t.left) && t.key !in Keys(t.right);
    }
  }

  lemma {:induction false} FindMaxIsGreatest(t: Tree)
    requires SearchTree(t) && t.Node?
    ensures forall j :: j in Keys(t) ==> j <= FindMax(t).key
  {
    if t.right.Node? {
      FindMaxIsGreatest(t.right);
    }
  }

  lemma {:induction false} FindMinIsLeast(t: Tree)
    requires SearchTree(t) && t.Node?
    ensures forall j :: j in Keys(t) ==> FindMin(t).key <= j
  {
    if t.left.Node? {
      FindMinIsLeast(t.left);
    }
  }

  /** In a search tree, find reaches exactly the stored keys. */
  lemma {:induction false} FindFinds(t: Tree, k: int)
    requires SearchTree(t)
    ensures Find(t, k).Node? <==> k in Keys(t)
  {
    match t
    case Nil =>
    case Node(l, r, _, key) =>
      if k < key {
        FindFinds(l, k);
      } else if k > key {
        FindFinds(r, k);
      }
  }

  /** The in-order keys of a search tree are strictly ascending and are exactly its keys. */
  lemma {:induction false} InOrderAscending(t: Tree)
    requires SearchTree(t)
    ensures forall i, j :: 0 <= i < j < |InOrder(t)| ==> InOrder(t)[i] < InOrder(t)[j]
    ensures forall j :: j in InOrder(t) <==> j in Keys(t)
  {
    match t
    case Nil =>
    case Node(l, r, _, k) =>
      InOrderAscending(l);
      InOrderAscending(r);
      var s, sl, sr := InOrder(t), InOrder(l), InOrder(r);
      assert s == sl + [k] + sr;
      forall i | 0 <= i < |s|
        ensures i < |sl| ==> s[i] < k
        ensures i > |sl| ==> s[i] > k
      {
        if i < |sl| {
          assert s[i] == sl[i] && s[i] in sl;
        } else if i > |sl| {
          assert s[i] == sr[i - |sl| - 1] && s[i] in sr;
        }
      }
      forall i, j | 0 <= i < j < |s|
        ensures s[i] < s[j]
      {
        if j < |sl| {
          assert s[i] == sl[i] && s[j] == sl[j];
        } else if i > |sl| {
          assert s[i] == sr[i - |sl| - 1] && s[j] == sr[j - |sl| - 1];
        }
      }
  }

  /** A search tree lists each of its keys once. */
  lemma {:induction false} InOrderCount(t: Tree)
    requires SearchTree(t)
    ensures |InOrder(t)| == |Keys(t)|
  {
    match t
    case Nil =>
    case Node(l, r, _, k) =>
      InOrderCount(l);
      InOrderCount(r);
      assert k !in Keys(l) && k !in Keys(r);
      assert Keys(l) !! Keys(r) by {
        forall j | j in Keys(l) ensures j !in Keys(r) {
          assert j < k;
        }
      }
      assert |Keys(l) + {k}| == |Keys(l)| + 1;
  }

  // ---------------------------------------------------------------------
  // Lemmas: balance
  // ---------------------------------------------------------------------

  /**
   * Adjust turns a node whose AVL children differ in height by at most two
   * into an AVL tree as tall as the taller child or one taller; when the
   * children already differ by at most one it only recomputes the height.
   */
  lemma AdjustAvl(t: Tree)
    requires t.Node? && IsAvl(t.left) && IsAvl(t.right)
    requires -2 <= Height(t.left) - Height(t.right) <= 2
    ensures IsAvl(Adjust(t))
    ensures Max(Height(t.left), Height(t.right)) <= Height(Adjust(t)) <= Max(Height(t.left), Height(t.right)) + 1
    ensures -1 <= Height(t.left) - Height(t.right) <= 1 ==>
      Adjust(t) == CalcHeight(t) && Height(Adjust(t)) == Max(Height(t.left), Height(t.right)) + 1
  {
    if Height(t.left) == Height(t.right) + 2 {
      AdjustLeftHeavy(t);
    } else if Height(t.right) == Height(t.left) + 2 {
      AdjustRightHeavy(t);
    }
  }

  lemma AdjustLeftHeavy(t: Tree)
    requires t.Node? && IsAvl(t.left) && IsAvl(t.right)
    requires Height(t.left) == Height(t.right) + 2
    ensures IsAvl(Adjust(t))
    ensures Height(t.left) <= Height(Adjust(t)) <= Height(t.left) + 1
  {
    CachedHeight(t.left.left);
    CachedHeight(t.left.right);
    if GetHeight(t.left.left) < GetHeight(t.left.right) {
      LeftRightRotation(t);
    } else {
      LeftLeftRotation(t);
    }
  }

  /** Left child taller by two, its outer grandchild at least as tall: one right rotation. */
  lemma LeftLeftRotation(t: Tree)
    requires t.Node? && IsAvl(t.left) && IsAvl(t.right)
    requires Height(t.left) == Height(t.right) + 2
    requires Height(t.left.left) >= Height(t.left.right)
    ensures IsAvl(Adjust(t))
    ensures Height(t.left) <= Height(Adjust(t)) <= Height(t.left) + 1
  {
    var l := t.left;
    CachedHeight(t.right);
    CachedHeight(l);
    CachedHeight(l.left);
    CachedHeight(l.right);
    var down := CalcHeight(Node(l.right, t.right, t.height, t.key));
    assert down == Node(l.right, t.right, Height(l.right) + 1, t.key);
    assert Adjust(t) == CalcHeight(Node(l.left, down, l.height, l.key));
  }

  /** Left child taller by two, its inner grandchild taller: a left then a right rotation. */
  lemma LeftRightRotation(t: Tree)
    requires t.Node? && IsAvl(t.left) && IsAvl(t.right)
    requires Height(t.left) == Height(t.right) + 2
    requires Height(t.left.left) < Height(t.left.right)
    ensures IsAvl(Adjust(t)) && Height(Adjust(t)) == Height(t.left)
  {
    var hr := Height(t.right);
    var l := t.left;
    CachedHeight(t.right);
    CachedHeight(l);
    CachedHeight(l.left);
    CachedHeight(l.right);
    var lr := l.right;
    var a, b := lr.left, lr.right;
    CachedHeight(a);
    CachedHeight(b);
    assert Height(l.left) == hr && Height(lr) == hr + 1;
    assert lr.Node? && Balanced(lr) && Height(lr) == 1 + Max(Height(a), Height(b));
    assert hr - 1 <= Height(a) <= hr && hr - 1 <= Height(b) <= hr;
    var down := CalcHeight(Node(l.left, a, l.height, l.key));
    assert down == Node(l.left, a, hr + 1, l.key);
    assert RotateLeft(l) == Node(down, b, hr + 2, lr.key);
    var up := CalcHeight(Node(b, t.right, t.height, t.key));
    assert up == Node(b, t.right, hr + 1, t.key);
    assert Adjust(t) == Node(down, up, hr + 2, lr.key);
    assert Height(down) == hr + 1 && HeightsOk(down) && Balanced(down);
    assert Height(up) == hr + 1 && HeightsOk(up) && Balanced(up);
  }

  lemma AdjustRightHeavy(t: Tree)
    requires t.Node? && IsAvl(t.left) && IsAvl(t.right)
    requires Height(t.right) == Height(t.left) + 2
    ensures IsAvl(Adjust(t))
    ensures Height(t.right) <= Height(Adjust(t)) <= Height(t.right) + 1
  {
    CachedHeight(t.right.left);
    CachedHeight(t.right.right);
    if GetHeight(t.right.left) > GetHeight(t.right.right) {
      RightLeftRotation(t);
    } else {
      RightRightRotation(t);
    }
  }

  /** The mirror image of LeftLeftRotation. */
  lemma RightRightRotation(t: Tree)
    requires t.Node? && IsAvl(t.left) && IsAvl(t.right)
    requires Height(t.right) == Height(t.left) + 2
    requires Height(t.right.right) >= Height(t.right.left)
    ensures IsAvl(Adjust(t))
    ensures Height(t.right) <= Height(Adjust(t)) <= Height(t.right) + 1
  {
    var r := t.right;
    CachedHeight(t.left);
    CachedHeight(r);
    CachedHeight(r.left);
    CachedHeight(r.right);
    var down := CalcHeight(Node(t.left, r.left, t.height, t.key));
    assert down == Node(t.left, r.left, Height(r.left) + 1, t.key);
    assert Adjust(t) == CalcHeight(Node(down, r.right, r.height, r.key));
  }

  /** The mirror image of LeftRightRotation. */
  lemma RightLeftRotation(t: Tree)
    requires t.Node? && IsAvl(t.left) && IsAvl(t.right)
    requires Height(t.right) == Height(t.left) + 2
    requires Height(t.right.right) < Height(t.right.left)
    ensures IsAvl(Adjust(t)) && Height(Adjust(t)) == Height(t.right)
  {
    var hl := Height(t.left);
    var r := t.right;
    CachedHeight(t.left);
    CachedHeight(r);
    CachedHeight(r.left);
    CachedHeight(r.right);
    var rl := r.left;
    var a, b := rl.left, rl.right;
    CachedHeight(a);
    CachedHeight(b);
    assert Height(r.right) == hl && Height(rl) == hl + 1;
    assert rl.Node? && Balanced(rl) && Height(rl) == 1 + Max(Height(a), Height(b));
    assert hl - 1 <= Height(a) <= hl && hl - 1 <= Height(b) <= hl;
    var down := CalcHeight(Node(b, r.right, r.height, r.key));
    assert down == Node(b, r.right, hl + 1, r.key);
    assert RotateRight(r) == Node(a, down, hl + 2, rl.key);
    var up := CalcHeight(Node(t.left, a, t.height, t.key));
    assert up == Node(t.left, a, hl + 1, t.key);
    assert Adjust(t) == Node(up, down, hl + 2, rl.key);
    assert Height(down) == hl + 1 && HeightsOk(down) && Balanced(down);
    assert Height(up) == hl + 1 && HeightsOk(up) && Balanced(up);
  }

  /** Insertion keeps the AVL invariant and grows the height by at most one. */
  lemma {:induction false} InsertAvl(t: Tree, k: int)
    requires IsAvl(t)
    ensures IsAvl(Insert(t, k))
    ensures Height(t) <= Height(Insert(t, k)) <= Height(t) + 1
  {
    match t
    case Nil =>
    case Node(l, r, h, key) =>
      if k < key {
        InsertAvl(l, k);
        AdjustAvl(t.(left := Insert(l, k)));
      } else if k > key {
        InsertAvl(r, k);
        AdjustAvl(t.(right := Insert(r, k)));
      }
  }

  /** An AVL tree is left as it is by Adjust. */
  lemma AdjustAvlTree(t: Tree)
    requires IsAvl(t)
    ensures Adjust(t) == t
  {
    if t.Node? {
      CachedHeight(t.left);
      CachedHeight(t.right);
    }
  }

  /** A correct cached height is the true height, nil included. */
  lemma CachedHeight(t: Tree)
    requires HeightsOk(t)
    ensures GetHeight(t) == Height(t)
  {
  }

  /** Removal keeps the AVL invariant and shrinks the height by at most one. */
  lemma {:induction false} RemoveAvl(t: Tree, k: int)
    requires IsAvl(t)
    ensures IsAvl(Remove(t, k))
    ensures Height(t) - 1 <= Height(Remove(t, k)) <= Height(t)
  {
    match t
    case Nil =>
    case Node(l, r, h, key) =>
      if k < key {
        RemoveAvl(l, k);
        AdjustAvl(t.(left := Remove(l, k)));
      } else if k > key {
        RemoveAvl(r, k);
        AdjustAvl(t.(right := Remove(r, k)));
      } else if l.Nil? {
        AdjustAvlTree(r);
      } else if r.Nil? {
        AdjustAvlTree(l);
      } else {
        var p := FindMax(l).key;
        RemoveAvl(l, p);
        AdjustAvl(t.(left := Remove(l, p), key := p));
      }
  }

  /** Adding a key an AVL search tree already holds gives back the same tree. */
  lemma {:induction false} InsertExisting(t: Tree, k: int)
    requires IsAvl(t) && SearchTree(t) && k in Keys(t)
    ensures Insert(t, k) == t
  {
    match t
    case Node(l, r, _, key) =>
      if k < key {
        assert k !in Keys(r);
        InsertExisting(l, k);
        AdjustAvlTree(t);
      } else if k > key {
        assert k !in Keys(l);
        InsertExisting(r, k);
        AdjustAvlTree(t);
      }
  }

  /**
   * The first root of the set in tree/avl_tree/avl_tree.go is created with
   * cached height 0 rather than 1. Adding a second key repairs it: the
   * result is a proper AVL tree.
   */
  lemma LoneRootInsert(k0: int, k: int)
    requires k != k0
    ensures IsAvl(Insert(Node(Nil, Nil, 0, k0), k))
    ensures Height(Insert(Node(Nil, Nil, 0, k0), k)) == 2
  {
  }
}
