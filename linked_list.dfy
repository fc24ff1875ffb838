/**
 * The circular doubly linked list of list/list.go. A List owns a sentinel
 * element `root`; its elements and the sentinel form one ring through their
 * `prev`/`next` links, and every element of the list carries the list in its
 * `belongsTo` tag, which is how each operation decides membership.
 *
 * The ghost sequence `elems` is the list from front to back; Linked states
 * the ring it stands for.
 */
module LinkedList {
  import opened Optional
  import opened ListOrder

  /**
   * The elements a, front to back, hung on sentinel r and tagged with l: no
   * node appears twice, and each element's `next` and `prev` are its
   * neighbours, with r past either end.
   */
  ghost predicate Links<V(0)>(r: Element<V>, a: seq<Element<V>>, l: List<V>)
    reads a`next, a`prev, a`belongsTo
  {
    && (forall k :: 0 <= k < |a| ==> a[k] != r && a[k].belongsTo == l)
    && Distinct(a)
    && (forall p {:trigger a[p].next} :: 0 <= p < |a| - 1 ==> a[p].next == a[p + 1])
    && (forall q {:trigger a[q].prev} :: 0 < q < |a| ==> a[q].prev == a[q - 1])
    && (a != [] ==> a[|a| - 1].next == r && a[0].prev == r)
  }

  /** The sentinel's `next` is the front element (itself when a is empty). */
  ghost predicate FrontLink<V(0)>(r: Element<V>, a: seq<Element<V>>)
    reads r`next
  {
    r.next == if a == [] then r else a[0]
  }

  /** The sentinel's `prev` is the back element (itself when a is empty). */
  ghost predicate BackLink<V(0)>(r: Element<V>, a: seq<Element<V>>)
    reads r`prev
  {
    r.prev == if a == [] then r else a[|a| - 1]
  }

  /** The ring r, a[0], ..., a[|a| - 1], r, linked both ways, of list l. */
  ghost predicate Linked<V(0)>(r: Element<V>, a: seq<Element<V>>, l: List<V>)
    reads r`next, r`prev, a`next, a`prev, a`belongsTo
  {
    Links(r, a, l) && FrontLink(r, a) && BackLink(r, a)
  }

  /** In the ring of r and a, the element at k is linked to its two neighbours. */
  lemma Neighbours<V(0)>(r: Element<V>, a: seq<Element<V>>, l: List<V>, k: int)
    requires Linked(r, a, l) && 0 <= k < |a|
    ensures a[k].prev == (if k == 0 then r else a[k - 1])
    ensures a[k].next == (if k + 1 == |a| then r else a[k + 1])
  {
  }

  /**
   * Splices e, whose `prev` and `next` already name the nodes around
   * position j of the ring of r and a, in between them (the two pointer
   * writes every insertion ends with).
   */
  method Link<V(0)>(e: Element<V>, r: Element<V>, ghost a: seq<Element<V>>, ghost j: int, ghost l: List<V>)
    requires Linked(r, a, l) && 0 <= j <= |a| && e != r && Excludes(a, e) && e.belongsTo == l
    requires e.prev == (if j == 0 then r else a[j - 1])
    requires e.next == (if j == |a| then r else a[j])
    modifies e.prev`next, e.next`prev
    ensures Linked(r, a[..j] + [e] + a[j..], l)
  {
    e.prev.next := e;
    e.next.prev := e;
    ghost var t := a[..j] + [e] + a[j..];
    PutIndex(a, j, e);
    DistinctPut(a, j, e);
    forall p | 0 <= p < |t| - 1
      ensures t[p].next == t[p + 1]
    {
      if p + 1 < j {
        assert t[p] == a[p] && t[p + 1] == a[p + 1] && At(a, p) != At(a, j - 1);
      } else if p > j {
        assert t[p] == a[p - 1] && t[p + 1] == a[p] && (j == 0 || At(a, p - 1) != At(a, j - 1));
      }
    }
    forall q | 0 < q < |t|
      ensures t[q].prev == t[q - 1]
    {
      if q < j {
        assert t[q] == a[q] && t[q - 1] == a[q - 1] && (j == |a| || At(a, q) != At(a, j));
      } else if q > j + 1 {
        assert t[q] == a[q - 1] && t[q - 1] == a[q - 2] && At(a, q - 1) != At(a, j);
      }
    }
  }

  /**
   * Takes the element at position i out of the ring of r and a by linking
   * its neighbours to each other; the element keeps its own links.
   */
  method Unlink<V(0)>(e: Element<V>, r: Element<V>, ghost a: seq<Element<V>>, ghost i: int, ghost l: List<V>)
    requires Linked(r, a, l) && 0 <= i < |a| && a[i] == e
    modifies e.prev`next, e.next`prev
    ensures Linked(r, a[..i] + a[i + 1..], l)
    ensures Excludes(a[..i] + a[i + 1..], e)
  {
    Neighbours(r, a, l, i);
    e.prev.next := e.next;
    e.next.prev := e.prev;
    ghost var t := a[..i] + a[i + 1..];
    CutIndex(a, i);
    DistinctCut(a, i);
    forall p | 0 <= p < |t| - 1
      ensures t[p].next == t[p + 1]
    {
      if p + 1 < i {
        assert t[p] == a[p] && t[p + 1] == a[p + 1] && At(a, p) != At(a, i - 1);
      } else if p + 1 == i {
        assert t[p] == a[i - 1] && t[p + 1] == a[i + 1];
      } else {
        assert t[p] == a[p + 1] && t[p + 1] == a[p + 2] && (i == 0 || At(a, p + 1) != At(a, i - 1));
      }
    }
    forall q | 0 < q < |t|
      ensures t[q].prev == t[q - 1]
    {
      if q < i {
        assert t[q] == a[q] && t[q - 1] == a[q - 1] && (i + 1 == |a| || At(a, q) != At(a, i + 1));
      } else if q == i {
        assert t[q] == a[i + 1] && t[q - 1] == a[i - 1];
      } else {
        assert t[q] == a[q + 1] && t[q - 1] == a[q] && At(a, q + 1) != At(a, i + 1);
      }
    }
    if t != [] {
      if i + 1 == |a| {
        assert t[|t| - 1] == a[i - 1];
      } else {
        assert t[|t| - 1] == a[|a| - 1] && (i == 0 || At(a, |a| - 1) != At(a, i - 1));
      }
      if i == 0 {
        assert t[0] == a[1];
      } else {
        assert t[0] == a[0] && (i + 1 == |a| || At(a, 0) != At(a, i + 1));
      }
    }
  }

  /**
   * Points e at p and n, the nodes around position j of the ring of r and
   * a, and links it in between them.
   */
  method Place<V(0)>(e: Element<V>, p: Element<V>, n: Element<V>, r: Element<V>, ghost a: seq<Element<V>>, ghost j: int, ghost l: List<V>)
    requires Linked(r, a, l) && 0 <= j <= |a| && e != r && Excludes(a, e) && e.belongsTo == l
    requires p == (if j == 0 then r else a[j - 1])
    requires n == (if j == |a| then r else a[j])
    modifies e`prev, e`next, p`next, n`prev
    ensures Linked(r, a[..j] + [e] + a[j..], l)
  {
    e.prev := p;
    e.next := n;
    Link(e, r, a, j, l);
  }

  /**
   * Takes the element at position i out of the ring of r and a, then
   * clears its links and its tag.
   */
  method Excise<V(0)>(e: Element<V>, r: Element<V>, ghost a: seq<Element<V>>, ghost i: int, ghost l: List<V>)
    requires Linked(r, a, l) && 0 <= i < |a| && a[i] == e
    modifies r`next, r`prev, a`next, a`prev, e`belongsTo
    ensures Linked(r, a[..i] + a[i + 1..], l)
    ensures e.prev == null && e.next == null && e.belongsTo == null
  {
    Unlink(e, r, a, i, l);
    e.Detach();
  }

  /** The elements of c hold, in order, the values held by the elements of d. */
  ghost predicate Copies<V(0)>(c: seq<Element<V>>, d: seq<Element<V>>)
  {
    |c| == |d| && forall k :: 0 <= k < |c| ==> c[k].value == d[k].value
  }

  /** A copy of b[i] put after copies of b[..i] copies b[..i + 1]. */
  lemma CopiesSnoc<V(0)>(c: seq<Element<V>>, e: Element<V>, b: seq<Element<V>>, i: int)
    requires 0 <= i < |b| && Copies(c, b[..i]) && e.value == b[i].value
    ensures Copies(c + [e], b[..i + 1])
  {
    assert b[..i + 1] == b[..i] + [b[i]];
  }

  /** A copy of b[i] put before copies of b[i + 1..] copies b[i..]. */
  lemma CopiesCons<V(0)>(e: Element<V>, c: seq<Element<V>>, b: seq<Element<V>>, i: int)
    requires 0 <= i < |b| && Copies(c, b[i + 1..]) && e.value == b[i].value
    ensures Copies([e] + c, b[i..])
  {
    assert b[i..] == [b[i]] + b[i + 1..];
  }

  /**
   * What the loop of PushBackList reads of the list it copies, the elements
   * b tagged with lb: each `next` but the last names the element after it,
   * and the last names the untagged sentinel rb unless the last is skip (the
   * element the loop writes first, when it copies a list onto itself).
   */
  ghost predicate ChainedForth<V(0)>(rb: Element<V>, b: seq<Element<V>>, lb: List<V>, skip: Element<V>)
    reads rb`belongsTo, b`next, b`belongsTo
  {
    && rb.belongsTo == null
    && (forall k :: 0 <= k < |b| ==> b[k].belongsTo == lb)
    && (forall p {:trigger b[p].next} :: 0 <= p < |b| - 1 ==> b[p].next == b[p + 1])
    && (b != [] && b[|b| - 1] != skip ==> b[|b| - 1].next == rb)
  }

  /** The mirror image of ChainedForth, for the loop of PushFrontList, which walks the `prev` links. */
  ghost predicate ChainedBack<V(0)>(rb: Element<V>, b: seq<Element<V>>, lb: List<V>, skip: Element<V>)
    reads rb`belongsTo, b`prev, b`belongsTo
  {
    && rb.belongsTo == null
    && (forall k :: 0 <= k < |b| ==> b[k].belongsTo == lb)
    && (forall q {:trigger b[q].prev} :: 0 < q < |b| ==> b[q].prev == b[q - 1])
    && (b != [] && b[0] != skip ==> b[0].prev == rb)
  }

  /**
   * One step of PushBackList: a new element holding v, tagged with l, is
   * made with `prev` the back `tail` of the ring of r and s and `next` what
   * follows it (r), and hung after tail. The sentinel's `prev` still names
   * the old back: PushBackList sets it once, after its last copy.
   */
  method AppendCopy<V(0)>(tail: Element<V>, v: V, r: Element<V>, ghost s: seq<Element<V>>, l: List<V>) returns (e: Element<V>)
    requires Links(r, s, l) && FrontLink(r, s)
    requires tail == if s == [] then r else s[|s| - 1]
    modifies tail`next
    ensures fresh(e) && e.value == v && tail.next == e
    ensures Links(r, s + [e], l) && FrontLink(r, s + [e])
  {
    e := new Element(tail, tail.next, l, v);
    tail.next := e;
    PutIndex(s, |s|, e);
    DistinctPut(s, |s|, e);
    assert s[..|s|] + [e] + s[|s|..] == s + [e];
    forall p | 0 <= p < |s| - 1
      ensures s[p].next == s[p + 1]
    {
      assert At(s, p) != At(s, |s| - 1);
    }
  }

  /**
   * The body of the PushBackList loop for e, the element at position k of
   * b: appends a copy of e's value after tail, the back of the ring of r
   * and t, and unless e is stop steps to e's successor in b (null past b's
   * back). tail is stop or a copy made earlier, so what the loop reads of b
   * is not disturbed.
   */
  method CopyAfter<V(0)>(tail: Element<V>, e: Element<V>, r: Element<V>, ghost t: seq<Element<V>>, l: List<V>,
                         ghost rb: Element<V>, ghost b: seq<Element<V>>, ghost lb: List<V>, stop: Element<V>, ghost k: int)
      returns (e2: Element<V>, n: Element?<V>)
    requires Links(r, t, l) && FrontLink(r, t) && tail == (if t == [] then r else t[|t| - 1])
    requires 0 <= k < |b| && e == b[k]
    requires ChainedForth(rb, b, lb, stop) && (tail == stop || Excludes(b, tail))
    requires forall p :: 0 <= p < |b| - 1 ==> b[p] != stop
    modifies tail`next
    ensures fresh(e2) && e2.value == e.value && tail.next == e2
    ensures Links(r, t + [e2], l) && FrontLink(r, t + [e2])
    ensures ChainedForth(rb, b, lb, stop)
    ensures e != stop ==> n == if k + 1 < |b| then b[k + 1] else null
  {
    e2 := AppendCopy(tail, e.value, r, t, l);
    n := null;
    if e != stop {
      n := if e.belongsTo == null || e.next.belongsTo == null then null else e.next;
    }
  }

  /**
   * The loop of PushBackList as written: walks the elements b of a list from
   * first, its front, and appends a copy of each value after the back tail
   * of the ring of r and a, until it meets stop (the back of a when the walk
   * started) or runs off b's end. For another list stop is not among b and
   * every element is copied; for the list itself stop is b's back, which is
   * never copied. Only stop's `next` and the new copies are written; the
   * copies are returned as c.
   */
  method AppendCopies<V(0)>(tail0: Element<V>, stop: Element<V>, first: Element?<V>, r: Element<V>, ghost a: seq<Element<V>>, l: List<V>,
                            ghost rb: Element<V>, ghost b: seq<Element<V>>, ghost lb: List<V>)
      returns (tail: Element<V>, ghost c: seq<Element<V>>)
    requires Links(r, a, l) && FrontLink(r, a)
    requires tail0 == stop && stop == if a == [] then r else a[|a| - 1]
    requires ChainedForth(rb, b, lb, stop) && forall p :: 0 <= p < |b| - 1 ==> b[p] != stop
    requires first == if b == [] then null else b[0]
    modifies stop`next
    ensures Links(r, a + c, l) && FrontLink(r, a + c)
    ensures tail == if a + c == [] then r else (a + c)[|a + c| - 1]
    ensures |c| == if b != [] && b[|b| - 1] == stop then |b| - 1 else |b|
    ensures Copies(c, b[..|c|]) && forall x :: x in c ==> fresh(x)
  {
    tail := tail0;
    c := [];
    ghost var t := a;
    var e := first;
    while e != stop && e != null
      invariant |c| <= |b| && e == (if |c| < |b| then b[|c|] else null)
      invariant b != [] && b[|b| - 1] == stop ==> |c| < |b|
      invariant t == a + c && Links(r, t, l) && FrontLink(r, t)
      invariant tail == if t == [] then r else t[|t| - 1]
      invariant Copies(c, b[..|c|]) && forall x :: x in c ==> fresh(x)
      invariant tail == stop || fresh(tail)
      invariant ChainedForth(rb, b, lb, stop)
      decreases |b| - |c|
    {
      ghost var k := |c|;
      var e2, n := CopyAfter(tail, e, r, t, l, rb, b, lb, stop, k);
      CopiesSnoc(c, e2, b, k);
      tail := tail.next;
      c := c + [e2];
      t := t + [e2];
      if e == stop {
        break;
      }
      e := n;
    }
  }

  /**
   * The loop of PushBackList with the walk ended only by the `break` after
   * stop is copied, or by running off b's end: a copy of every element of b
   * is appended, for the list itself as for another list.
   */
  method AppendAllCopies<V(0)>(tail0: Element<V>, stop: Element<V>, first: Element?<V>, r: Element<V>, ghost a: seq<Element<V>>, l: List<V>,
                               ghost rb: Element<V>, ghost b: seq<Element<V>>, ghost lb: List<V>)
      returns (tail: Element<V>, ghost c: seq<Element<V>>)
    requires Links(r, a, l) && FrontLink(r, a)
    requires tail0 == stop && stop == if a == [] then r else a[|a| - 1]
    requires ChainedForth(rb, b, lb, stop) && forall p :: 0 <= p < |b| - 1 ==> b[p] != stop
    requires first == if b == [] then null else b[0]
    modifies stop`next
    ensures Links(r, a + c, l) && FrontLink(r, a + c)
    ensures tail == if a + c == [] then r else (a + c)[|a + c| - 1]
    ensures Copies(c, b) && forall x :: x in c ==> fresh(x)
  {
    tail := tail0;
    c := [];
    ghost var t := a;
    var e := first;
    while e != null
      invariant |c| <= |b| && e == (if |c| < |b| then b[|c|] else null)
      invariant t == a + c && Links(r, t, l) && FrontLink(r, t)
      invariant tail == if t == [] then r else t[|t| - 1]
      invariant Copies(c, b[..|c|]) && forall x :: x in c ==> fresh(x)
      invariant tail == stop || fresh(tail)
      invariant ChainedForth(rb, b, lb, stop)
      decreases |b| - |c|
    {
      ghost var k := |c|;
      var e2, n := CopyAfter(tail, e, r, t, l, rb, b, lb, stop, k);
      CopiesSnoc(c, e2, b, k);
      tail := tail.next;
      c := c + [e2];
      t := t + [e2];
      if e == stop {
        assert t == a + c;
        break;
      }
      e := n;
    }
    assert b[..|c|] == b;
  }

  /**
   * One step of PushFrontList: a new element holding v, tagged with l, is
   * made with `next` the front `head` of the ring of r and s and `prev` what
   * precedes it (r), and hung before head. The sentinel's `next` still names
   * the old front: PushFrontList sets it once, after its last copy.
   */
  method PrependCopy<V(0)>(head: Element<V>, v: V, r: Element<V>, ghost s: seq<Element<V>>, l: List<V>) returns (e: Element<V>)
    requires Links(r, s, l) && BackLink(r, s)
    requires head == if s == [] then r else s[0]
    modifies head`prev
    ensures fresh(e) && e.value == v && head.prev == e
    ensures Links(r, [e] + s, l) && BackLink(r, [e] + s)
  {
    e := new Element(head.prev, head, l, v);
    head.prev := e;
    PutIndex(s, 0, e);
    DistinctPut(s, 0, e);
    assert s[..0] + [e] + s[0..] == [e] + s;
    forall q | 0 < q < |s|
      ensures s[q].prev == s[q - 1]
    {
      assert At(s, q) != At(s, 0);
    }
  }

  /**
   * The loop of PushFrontList: walks the elements b of a list from last, its
   * back, towards its front, and hangs a copy of each value before the
   * front head of the ring of r and a, until it runs off b's front or has
   * copied stop (the front of a when the walk started; b's front when the
   * list is copied onto itself). Only stop's `prev` and the new copies are
   * written; the copies, in b's order, are returned as c.
   */
  method PrependCopies<V(0)>(head0: Element<V>, stop: Element<V>, last: Element?<V>, r: Element<V>, ghost a: seq<Element<V>>, l: List<V>,
                             ghost rb: Element<V>, ghost b: seq<Element<V>>, ghost lb: List<V>)
      returns (head: Element<V>, ghost c: seq<Element<V>>)
    requires Links(r, a, l) && BackLink(r, a)
    requires head0 == stop && stop == if a == [] then r else a[0]
    requires ChainedBack(rb, b, lb, stop) && forall q :: 0 < q < |b| ==> b[q] != stop
    requires last == if b == [] then null else b[|b| - 1]
    modifies stop`prev
    ensures Links(r, c + a, l) && BackLink(r, c + a)
    ensures head == if c + a == [] then r else (c + a)[0]
    ensures Copies(c, b) && forall x :: x in c ==> fresh(x)
  {
    head := head0;
    c := [];
    assert c + a == a;
    var e := last;
    ghost var i := |b|;
    while e != null
      invariant 0 <= i <= |b| && e == (if 0 < i then b[i - 1] else null)
      invariant Links(r, c + a, l) && BackLink(r, c + a)
      invariant head == if c + a == [] then r else (c + a)[0]
      invariant Copies(c, b[i..]) && fresh(c)
      invariant head == stop || fresh(head)
      invariant ChainedBack(rb, b, lb, stop)
      decreases i
    {
      var n;
      n, c := CopyBefore(head, e, r, c, a, l, rb, b, lb, stop, i - 1);
      head := head.prev;
      i := i - 1;
      if e == stop {
        break;
      }
      e := n;
    }
    assert b[i..] == b;
  }

  /**
   * The body of PrependCopies' loop for the element e at position k of b:
   * hangs a copy of e's value before head, the front of the ring of r, c
   * and a, where c copies b[k + 1..], and unless e is stop steps to e's
   * predecessor in b (null past b's front). head is stop or a copy made
   * earlier, so what the loop reads of b is not disturbed. The copies are
   * returned as c'.
   */
  method CopyBefore<V(0)>(head: Element<V>, e: Element<V>, r: Element<V>, ghost c: seq<Element<V>>, ghost a: seq<Element<V>>,
                          l: List<V>, ghost rb: Element<V>, ghost b: seq<Element<V>>, ghost lb: List<V>, stop: Element<V>, ghost k: int)
      returns (n: Element?<V>, ghost c': seq<Element<V>>)
    requires Links(r, c + a, l) && BackLink(r, c + a) && head == (if c + a == [] then r else (c + a)[0])
    requires 0 <= k < |b| && e == b[k] && Copies(c, b[k + 1..])
    requires ChainedBack(rb, b, lb, stop) && (head == stop || Excludes(b, head))
    requires forall q :: 0 < q < |b| ==> b[q] != stop
    modifies head`prev
    ensures |c'| == |c| + 1 && c'[1..] == c && fresh(c'[0]) && head.prev == c'[0]
    ensures Links(r, c' + a, l) && BackLink(r, c' + a)
    ensures Copies(c', b[k..])
    ensures ChainedBack(rb, b, lb, stop)
    ensures e != stop ==> n == if 0 < k then b[k - 1] else null
  {
    var e2 := PrependCopy(head, e.value, r, c + a, l);
    n := null;
    if e != stop {
      n := if e.belongsTo == null || e.prev.belongsTo == null then null else e.prev;
    }
    ConsJoin(e2, c, a);
    CopiesCons(e2, c, b, k);
    c' := [e2] + c;
  }


  /**
   * PushBackList of a list onto itself, as written: [1, 2] becomes the ring
   * 1, 2, 1 while its length says 4.
   */
  method SelfPushBackList() returns (l: List<int>)
    ensures Linked(l.root, l.elems, l) && |l.elems| == 3 && l.len == 4
    ensures l.elems[0].value == 1 && l.elems[1].value == 2 && l.elems[2].value == 1
  {
    l := new List<int>();
    var one := l.PushBack(1);
    var two := l.PushBack(2);
    l.PushBackList(l);
  }

  /** The same calls on PushBackListCorrected: [1, 2] becomes [1, 2, 1, 2], of length 4. */
  method SelfPushBackListCorrected() returns (l: List<int>)
    ensures l.Valid() && |l.elems| == 4 && l.len == 4
    ensures l.elems[0].value == 1 && l.elems[1].value == 2 && l.elems[2].value == 1 && l.elems[3].value == 2
  {
    l := new List<int>();
    var one := l.PushBack(1);
    var two := l.PushBack(2);
    l.PushBackListCorrected(l);
  }

  class Element<V(0)> {
    var prev: Element?<V>
    var next: Element?<V>
    var belongsTo: List?<V>
    const value: V

    /** An element literal with the given links, tag and value. */
    constructor (prev: Element?<V>, next: Element?<V>, belongsTo: List?<V>, value: V)
      ensures this.prev == prev && this.next == next
      ensures this.belongsTo == belongsTo && this.value == value
    {
      this.prev := prev;
      this.next := next;
      this.belongsTo := belongsTo;
      this.value := value;
    }

    /** A list's sentinel: untagged, and a ring of one. */
    constructor Sentinel()
      ensures prev == this && next == this && belongsTo == null
    {
      belongsTo := null;
      new;
      prev := this;
      next := this;
    }

    /** Clears both links and the tag, as Remove does to the element it takes out. */
    method Detach()
      modifies this`prev, this`next, this`belongsTo
      ensures prev == null && next == null && belongsTo == null
    {
      prev := null;
      next := null;
      belongsTo := null;
    }

    /** The element after this one in its list; nil past the back and for a detached element. */
    method Next() returns (r: Element?<V>)
      requires belongsTo != null ==> belongsTo.Valid() && exists i :: 0 <= i < |belongsTo.elems| && belongsTo.elems[i] == this
      ensures belongsTo == null ==> r == null
      ensures belongsTo != null ==> forall i :: 0 <= i < |belongsTo.elems| && belongsTo.elems[i] == this ==>
        r == if i + 1 < |belongsTo.elems| then belongsTo.elems[i + 1] else null
    {
      if belongsTo != null {
        ghost var l := belongsTo;
        ghost var i :| 0 <= i < |l.elems| && l.elems[i] == this;
        assert next == if i + 1 < |l.elems| then l.elems[i + 1] else l.root;
      }
      if belongsTo == null || next.belongsTo == null {
        return null;
      }
      return next;
    }

    /** The element before this one in its list; nil before the front and for a detached element. */
    method Prev() returns (r: Element?<V>)
      requires belongsTo != null ==> belongsTo.Valid() && exists i :: 0 <= i < |belongsTo.elems| && belongsTo.elems[i] == this
      ensures belongsTo == null ==> r == null
      ensures belongsTo != null ==> forall i :: 0 <= i < |belongsTo.elems| && belongsTo.elems[i] == this ==>
        r == if 0 < i then belongsTo.elems[i - 1] else null
    {
      if belongsTo != null {
        ghost var l := belongsTo;
        ghost var i :| 0 <= i < |l.elems| && l.elems[i] == this;
        assert prev == if 0 < i then l.elems[i - 1] else l.root;
      }
      if belongsTo == null || prev.belongsTo == null {
        return null;
      }
      return prev;
    }
  }

  class List<V(0)> {
    const root: Element<V>
    var len: int
    /** The elements from front to back. */
    ghost var elems: seq<Element<V>>

    /**
     * The ring through the sentinel holds exactly the elements, each once and
     * tagged with this list; the sentinel is untagged; `len` counts them.
     */
    ghost predicate Valid()
      reads this, root, elems
    {
      && Linked(root, elems, this)
      && root.belongsTo == null
      && len == |elems|
    }

    /**
     * The tag of e is this list only if e is one of its elements. Insertions,
     * moves and Remove keep this, but Init does not: it empties the ring and
     * leaves the former elements tagged. Each operation taking an element
     * requires it of that element.
     */
    ghost predicate Tagged(e: Element<V>)
      reads this, e
    {
      e.belongsTo == this ==> exists i :: 0 <= i < |elems| && elems[i] == e
    }

    /** New: an empty list. */
    constructor ()
      ensures Valid() && elems == [] && fresh(root)
    {
      root := new Element.Sentinel();
      len := 0;
      elems := [];
    }

    /**
     * Empties the list: the sentinel points at itself again. The former
     * elements keep their links and their tag.
     */
    method Init() returns (l: List<V>)
      requires Valid()
      modifies this, root`prev, root`next
      ensures Valid() && elems == [] && l == this
      ensures forall k :: 0 <= k < |old(elems)| ==> old(elems)[k].belongsTo == this && !Tagged(old(elems)[k])
    {
      root.prev := root;
      root.next := root;
      len := 0;
      elems := [];
      return this;
    }

    method Len() returns (n: int)
      requires Valid()
      ensures n == |elems|
    {
      return len;
    }

    /** The first element, or nil on an empty list. */
    method Front() returns (r: Element?<V>)
      requires Valid()
      ensures r == if elems == [] then null else elems[0]
    {
      var front := root.next;
      if front == root {
        return null;
      }
      return front;
    }

    /** The last element, or nil on an empty list. */
    method Back() returns (r: Element?<V>)
      requires Valid()
      ensures r == if elems == [] then null else elems[|elems| - 1]
    {
      var back := root.prev;
      if back == root {
        return null;
      }
      return back;
    }

    /**
     * The tail every insertion shares: a new element holding v, tagged with
     * this list and pointing at p and n, the nodes around position j, is
     * linked in between them and counted.
     */
    method Insert(v: V, p: Element<V>, n: Element<V>, ghost a: seq<Element<V>>, ghost j: int) returns (e: Element<V>)
      requires Valid() && a == elems && 0 <= j <= |a|
      requires p == (if j == 0 then root else a[j - 1])
      requires n == (if j == |a| then root else a[j])
      modifies this, p`next, n`prev
      ensures Valid() && fresh(e) && e.value == v
      ensures elems == a[..j] + [e] + a[j..]
    {
      e := new Element(p, n, this, v);
      len, elems := len + 1, a[..j] + [e] + a[j..];
      Link(e, root, a, j, this);
    }

    /** Appends a new element holding v. */
    method PushBack(v: V) returns (e: Element<V>)
      requires Valid()
      modifies this, root`next, root`prev, elems`next
      ensures Valid() && fresh(e) && e.value == v
      ensures elems == old(elems) + [e]
    {
      ghost var a := elems;
      assert a != [] ==> a[|a| - 1] in elems;
      e := Insert(v, root.prev, root, a, |a|);
      assert a[..|a|] + [e] + a[|a|..] == a + [e];
    }

    /** Prepends a new element holding v. */
    method PushFront(v: V) returns (e: Element<V>)
      requires Valid()
      modifies this, root`next, root`prev, elems`prev
      ensures Valid() && fresh(e) && e.value == v
      ensures elems == [e] + old(elems)
    {
      ghost var a := elems;
      assert a != [] ==> a[0] in elems;
      e := Insert(v, root, root.next, a, 0);
      assert a[..0] + [e] + a[0..] == [e] + a;
    }

    /**
     * Inserts a new element holding v right after mark; returns nil and
     * changes nothing when mark is not in this list.
     */
    method InsertAfter(v: V, mark: Element<V>) returns (e: Element?<V>)
      requires Valid() && Tagged(mark)
      modifies this, root`next, root`prev, elems`next, elems`prev
      ensures Valid()
      ensures old(mark.belongsTo) != this ==> e == null && elems == old(elems)
      ensures old(mark.belongsTo) == this ==> e != null && fresh(e) && e.value == v && elems == AfterMark(old(elems), mark, e as Element<V>)
    {
      if mark.belongsTo != this {
        return null;
      }
      ghost var i :| 0 <= i < |elems| && elems[i] == mark;
      e := InsertAfterAt(v, mark, i);
    }

    /** InsertAfter once mark is known to be the element at position i. */
    method InsertAfterAt(v: V, mark: Element<V>, ghost i: int) returns (e: Element<V>)
      requires Valid() && 0 <= i < |elems| && elems[i] == mark
      modifies this, root`next, root`prev, elems`next, elems`prev
      ensures Valid() && fresh(e) && e.value == v
      ensures elems == AfterMark(old(elems), mark, e)
    {
      ghost var a := elems;
      Neighbours(root, a, this, i);
      assert i + 1 < |a| ==> a[i + 1] in elems;
      e := Insert(v, mark, mark.next, a, i + 1);
      InsertSplices(a, i, e);
    }

    /**
     * Inserts a new element holding v right before mark; returns nil and
     * changes nothing when mark is not in this list.
     */
    method InsertBefore(v: V, mark: Element<V>) returns (e: Element?<V>)
      requires Valid() && Tagged(mark)
      modifies this, root`next, root`prev, elems`next, elems`prev
      ensures Valid()
      ensures old(mark.belongsTo) != this ==> e == null && elems == old(elems)
      ensures old(mark.belongsTo) == this ==> e != null && fresh(e) && e.value == v && elems == BeforeMark(old(elems), mark, e as Element<V>)
    {
      if mark.belongsTo != this {
        return null;
      }
      ghost var i :| 0 <= i < |elems| && elems[i] == mark;
      e := InsertBeforeAt(v, mark, i);
    }

    /** InsertBefore once mark is known to be the element at position i. */
    method InsertBeforeAt(v: V, mark: Element<V>, ghost i: int) returns (e: Element<V>)
      requires Valid() && 0 <= i < |elems| && elems[i] == mark
      modifies this, root`next, root`prev, elems`next, elems`prev
      ensures Valid() && fresh(e) && e.value == v
      ensures elems == BeforeMark(old(elems), mark, e)
    {
      ghost var a := elems;
      Neighbours(root, a, this, i);
      assert 0 < i ==> a[i - 1] in elems;
      e := Insert(v, mark.prev, mark, a, i);
      InsertSplices(a, i, e);
    }

    /**
     * The pointer work of Remove once e is known to be the element at
     * position i: unlink e, clear its links and its tag, and count it out.
     */
    method Cut(e: Element<V>, ghost a: seq<Element<V>>, ghost i: int)
      requires Valid() && a == elems && 0 <= i < |a| && a[i] == e
      modifies this, root`next, root`prev, a`next, a`prev, e`belongsTo
      ensures Valid() && elems == a[..i] + a[i + 1..]
      ensures e.prev == null && e.next == null && e.belongsTo == null
    {
      Excise(e, root, a, i, this);
      len, elems := len - 1, a[..i] + a[i + 1..];
    }

    /**
     * The pointer work of MoveToFront once e is known to be the element at
     * position i > 0: unlink e, then link it in between the sentinel and the
     * current front.
     */
    method SpliceToFront(e: Element<V>, ghost a: seq<Element<V>>, ghost i: int)
      requires Valid() && a == elems && 0 < i < |a| && a[i] == e
      modifies this, root`next, root`prev, a`next, a`prev
      ensures Valid()
      ensures var rest := a[..i] + a[i + 1..]; elems == rest[..0] + [e] + rest[0..]
    {
      Unlink(e, root, a, i, this);
      ghost var rest := a[..i] + a[i + 1..];
      assert rest[0] == a[0];
      Place(e, root, root.next, root, rest, 0, this);
      elems := rest[..0] + [e] + rest[0..];
    }

    /**
     * The pointer work of MoveToBack once e is known to be the element at
     * position i < |a| - 1: unlink e, then link it in between the current
     * back and the sentinel.
     */
    method SpliceToBack(e: Element<V>, ghost a: seq<Element<V>>, ghost i: int)
      requires Valid() && a == elems && 0 <= i < |a| - 1 && a[i] == e
      modifies this, root`next, root`prev, a`next, a`prev
      ensures Valid()
      ensures var rest := a[..i] + a[i + 1..]; elems == rest[..|rest|] + [e] + rest[|rest|..]
    {
      Unlink(e, root, a, i, this);
      ghost var rest := a[..i] + a[i + 1..];
      assert rest[|rest| - 1] == a[|a| - 1];
      Place(e, root.prev, root, root, rest, |rest|, this);
      elems := rest[..|rest|] + [e] + rest[|rest|..];
    }

    /**
     * The pointer work of MoveAfter once e is known to be the element at
     * position i, and mark the one at position j once e is taken out: unlink
     * e, then link it in between mark and mark's successor at that point.
     */
    method SpliceAfter(e: Element<V>, mark: Element<V>, ghost a: seq<Element<V>>, ghost i: int, ghost j: int)
      requires Valid() && a == elems && 0 <= i < |a| && a[i] == e
      requires 0 <= j < |a| - 1 && (a[..i] + a[i + 1..])[j] == mark
      modifies this, root`next, root`prev, a`next, a`prev
      ensures Valid()
      ensures var rest := a[..i] + a[i + 1..]; elems == rest[..j + 1] + [e] + rest[j + 1..]
    {
      Unlink(e, root, a, i, this);
      ghost var rest := a[..i] + a[i + 1..];
      Neighbours(root, rest, this, j);
      Place(e, mark, mark.next, root, rest, j + 1, this);
      ghost var t := rest[..j + 1] + [e] + rest[j + 1..];
      elems := t;
    }

    /** MoveAfter once e and mark are known to be the elements at positions i and m. */
    method MoveAfterAt(e: Element<V>, mark: Element<V>, ghost i: int, ghost m: int)
      requires Valid() && 0 <= i < |elems| && elems[i] == e
      requires 0 <= m < |elems| && elems[m] == mark && i != m
      modifies this, root`next, root`prev, elems`next, elems`prev
      ensures Valid()
      ensures elems == MovedAfter(old(elems), e, mark)
    {
      ghost var a := elems;
      ghost var j := if m < i then m else m - 1;
      MarkSplices(a, i, m);
      ghost var moved := MovedAfter(a, e, mark);
      SpliceAfter(e, mark, a, i, j);
      assert elems == moved;
    }

    /**
     * The pointer work of MoveBefore once e is known to be the element at
     * position i, and mark the one at position j once e is taken out: unlink
     * e, then link it in between mark's predecessor at that point and mark.
     */
    method SpliceBefore(e: Element<V>, mark: Element<V>, ghost a: seq<Element<V>>, ghost i: int, ghost j: int)
      requires Valid() && a == elems && 0 <= i < |a| && a[i] == e
      requires 0 <= j < |a| - 1 && (a[..i] + a[i + 1..])[j] == mark
      modifies this, root`next, root`prev, a`next, a`prev
      ensures Valid()
      ensures var rest := a[..i] + a[i + 1..]; elems == rest[..j] + [e] + rest[j..]
    {
      Unlink(e, root, a, i, this);
      ghost var rest := a[..i] + a[i + 1..];
      Neighbours(root, rest, this, j);
      Place(e, mark.prev, mark, root, rest, j, this);
      ghost var t := rest[..j] + [e] + rest[j..];
      elems := t;
    }

    /** MoveBefore once e and mark are known to be the elements at positions i and m. */
    method MoveBeforeAt(e: Element<V>, mark: Element<V>, ghost i: int, ghost m: int)
      requires Valid() && 0 <= i < |elems| && elems[i] == e
      requires 0 <= m < |elems| && elems[m] == mark && i != m
      modifies this, root`next, root`prev, elems`next, elems`prev
      ensures Valid()
      ensures elems == MovedBefore(old(elems), e, mark)
    {
      ghost var a := elems;
      ghost var j := if m < i then m else m - 1;
      MarkSplices(a, i, m);
      ghost var moved := MovedBefore(a, e, mark);
      SpliceBefore(e, mark, a, i, j);
      assert elems == moved;
    }

    /**
     * Appends copies of the values of other, front to back: each copy is
     * hung after the current tail, the sentinel's `prev` is set to the last
     * one, and the length grows by other's length. When other is this list
     * the walk stops at the old back before copying it, so one element
     * fewer is linked than is counted.
     */
    method PushBackList(other: List<V>)
      requires Valid() && other.Valid()
      modifies this, root`next, root`prev, elems`next
      ensures Linked(root, elems, this) && root.belongsTo == null
      ensures len == old(len) + old(other.len)
      ensures |old(elems)| <= |elems| && elems[..|old(elems)|] == old(elems)
      ensures forall x :: x in elems[|old(elems)|..] ==> fresh(x)
      ensures other != this || old(elems) == [] ==> Valid() && Copies(elems[|old(elems)|..], old(other.elems))
      ensures other == this && old(elems) != [] ==>
        len == |elems| + 1 && Copies(elems[|old(elems)|..], old(elems)[..|old(elems)| - 1])
    {
      if other.len == 0 {
        return;
      }
      ghost var a := elems;
      ghost var b := other.elems;
      var tail := root.prev;
      var stop := tail;
      StopOutsideForth(other, stop);
      var first := other.Front();
      ghost var c := AppendAndClose(tail, stop, first, other, b);
    }

    /**
     * The loop and the end of PushBackList, given what they read of other:
     * its front first and its elements b, whose `next` chain ends at stop
     * (the old back) or at other's sentinel. The length grows by other's
     * length whether or not the walk reached b's back.
     */
    method AppendAndClose(tail0: Element<V>, stop: Element<V>, first: Element?<V>, other: List<V>, ghost b: seq<Element<V>>)
        returns (ghost c: seq<Element<V>>)
      requires Valid() && tail0 == stop && stop == (if elems == [] then root else elems[|elems| - 1])
      requires ChainedForth(other.root, b, other, stop) && forall p :: 0 <= p < |b| - 1 ==> b[p] != stop
      requires first == (if b == [] then null else b[0]) && other.len == |b|
      modifies this, root`prev, stop`next
      ensures Linked(root, elems, this) && root.belongsTo == null
      ensures elems == old(elems) + c && len == old(len) + |b|
      ensures |c| == if b != [] && b[|b| - 1] == stop then |b| - 1 else |b|
      ensures Copies(c, b[..|c|]) && forall x :: x in c ==> fresh(x)
    {
      ghost var a := elems;
      var tail;
      tail, c := AppendCopies(tail0, stop, first, root, a, this, other.root, b, other);
      CloseBack(tail, other.len, a, c);
    }

    /**
     * PushBackList with the loop ended only by the `break` after stop is
     * copied or by the end of other: the old elements stay in front,
     * followed by fresh copies of every value of other, for this list
     * itself as for another list.
     */
    method PushBackListCorrected(other: List<V>)
      requires Valid() && other.Valid()
      modifies this, root`next, root`prev, elems`next
      ensures Valid()
      ensures |elems| == |old(elems)| + |old(other.elems)| && elems[..|old(elems)|] == old(elems)
      ensures Copies(elems[|old(elems)|..], old(other.elems))
      ensures forall x :: x in elems[|old(elems)|..] ==> fresh(x)
    {
      if other.len == 0 {
        return;
      }
      ghost var a := elems;
      ghost var b := other.elems;
      var tail := root.prev;
      var stop := tail;
      StopOutsideForth(other, stop);
      var first := other.Front();
      ghost var c := AppendAllAndClose(tail, stop, first, other, b);
    }

    /**
     * The loop and the end of PushBackListCorrected, given what they read of
     * other: its front first and its elements b, whose `next` chain ends at
     * stop (the old back) or at other's sentinel.
     */
    method AppendAllAndClose(tail0: Element<V>, stop: Element<V>, first: Element?<V>, other: List<V>, ghost b: seq<Element<V>>)
        returns (ghost c: seq<Element<V>>)
      requires Valid() && tail0 == stop && stop == (if elems == [] then root else elems[|elems| - 1])
      requires ChainedForth(other.root, b, other, stop) && forall p :: 0 <= p < |b| - 1 ==> b[p] != stop
      requires first == (if b == [] then null else b[0]) && other.len == |b|
      modifies this, root`prev, stop`next
      ensures Valid() && elems == old(elems) + c
      ensures Copies(c, b) && forall x :: x in c ==> fresh(x)
    {
      ghost var a := elems;
      var tail;
      tail, c := AppendAllCopies(tail0, stop, first, root, a, this, other.root, b, other);
      CloseBack(tail, other.len, a, c);
    }

    /**
     * What the PushBackList loop needs of other when stop is the back of
     * this non-empty other list: other's `next` chain is intact and stop
     * is at most its back (its back exactly when other is this list).
     */
    lemma StopOutsideForth(other: List<V>, stop: Element<V>)
      requires Valid() && other.Valid() && other.elems != []
      requires stop == if elems == [] then root else elems[|elems| - 1]
      ensures ChainedForth(other.root, other.elems, other, stop)
      ensures forall p :: 0 <= p < |other.elems| - 1 ==> other.elems[p] != stop
      ensures other == this <==> other.elems[|other.elems| - 1] == stop
    {
      var b := other.elems;
      if other != this {
        assert stop.belongsTo != other by {
          if elems != [] {
            assert elems[|elems| - 1].belongsTo == this;
          }
        }
        assert b[|b| - 1].belongsTo == other;
      } else {
        forall p | 0 <= p < |b| - 1
          ensures b[p] != stop
        {
          assert At(b, p) != At(b, |b| - 1);
        }
      }
    }

    /**
     * The end of PushBackList: the sentinel's `prev` is set to the last copy
     * and the length grows by n, the length of the list copied; the list is
     * valid when n is the number of copies.
     */
    method CloseBack(tail: Element<V>, n: int, ghost a: seq<Element<V>>, ghost c: seq<Element<V>>)
      requires Links(root, a + c, this) && FrontLink(root, a + c)
      requires root.belongsTo == null && len == |a|
      requires tail == if a + c == [] then root else (a + c)[|a + c| - 1]
      modifies this, root`prev
      ensures Linked(root, elems, this) && root.belongsTo == null && len == |a| + n
      ensures elems == a + c && elems[..|a|] == a && elems[|a|..] == c
      ensures n == |c| ==> Valid()
    {
      root.prev := tail;
      len := len + n;
      elems := a + c;
    }

    /**
     * Prepends copies of the values of other, keeping their order: each
     * copy, from other's back to its front, is hung before the current head,
     * the sentinel's `next` is set to the last one, and the length grows by
     * other's length. When other is this list the walk ends with the `break`
     * after the old front is copied.
     */
    method PushFrontList(other: List<V>)
      requires Valid() && other.Valid()
      modifies this, root`next, root`prev, elems`prev
      ensures Valid()
      ensures |elems| == |old(elems)| + |old(other.elems)| && elems[|old(other.elems)|..] == old(elems)
      ensures Copies(elems[..|old(other.elems)|], old(other.elems))
      ensures forall x :: x in elems[..|old(other.elems)|] ==> fresh(x)
    {
      if other.len == 0 {
        return;
      }
      ghost var a := elems;
      ghost var b := other.elems;
      var head := root.next;
      var stop := head;
      StopOutsideBack(other, stop);
      var last := other.Back();
      ghost var c := PrependAndClose(head, stop, last, other, b);
    }

    /**
     * The loop and the end of PushFrontList, given what they read of other:
     * its back last and its elements b, whose `prev` chain ends at stop
     * (the old front) or at other's sentinel.
     */
    method PrependAndClose(head0: Element<V>, stop: Element<V>, last: Element?<V>, other: List<V>, ghost b: seq<Element<V>>)
        returns (ghost c: seq<Element<V>>)
      requires Valid() && head0 == stop && stop == (if elems == [] then root else elems[0])
      requires ChainedBack(other.root, b, other, stop) && forall q :: 0 < q < |b| ==> b[q] != stop
      requires last == (if b == [] then null else b[|b| - 1]) && other.len == |b|
      modifies this, root`next, stop`prev
      ensures Valid() && elems == c + old(elems)
      ensures Copies(c, b) && forall x :: x in c ==> fresh(x)
    {
      ghost var a := elems;
      var head;
      head, c := PrependCopies(head0, stop, last, root, a, this, other.root, b, other);
      CloseFront(head, other.len, a, c);
    }

    /**
     * What the PushFrontList loop needs of other when stop is the front of
     * this list: other's `prev` chain is intact and stop is at most its
     * front (its front exactly when other is this list).
     */
    lemma StopOutsideBack(other: List<V>, stop: Element<V>)
      requires Valid() && other.Valid() && other.elems != []
      requires stop == if elems == [] then root else elems[0]
      ensures ChainedBack(other.root, other.elems, other, stop)
      ensures forall q :: 0 < q < |other.elems| ==> other.elems[q] != stop
      ensures other == this <==> other.elems[0] == stop
    {
      var b := other.elems;
      if other != this {
        assert stop.belongsTo != other by {
          if elems != [] {
            assert elems[0].belongsTo == this;
          }
        }
        assert b[0].belongsTo == other;
      } else {
        forall q | 0 < q < |b|
          ensures b[q] != stop
        {
          assert At(b, q) != At(b, 0);
        }
      }
    }

    /**
     * The end of PushFrontList: the sentinel's `next` is set to the last
     * copy made, the new front, and the length grows by n, the number of
     * copies.
     */
    method CloseFront(head: Element<V>, n: int, ghost a: seq<Element<V>>, ghost c: seq<Element<V>>)
      requires Links(root, c + a, this) && BackLink(root, c + a)
      requires root.belongsTo == null && len == |a| && n == |c|
      requires head == if c + a == [] then root else (c + a)[0]
      modifies this, root`next
      ensures Valid() && elems == c + a && elems[..|c|] == c && elems[|c|..] == a
    {
      root.next := head;
      len := len + n;
      elems := c + a;
    }

    /**
     * Unlinks e and returns its value, leaving e detached (no links, no tag);
     * returns None and changes nothing when e is not in this list.
     */
    method Remove(e: Element<V>) returns (r: Option<V>)
      requires Valid() && Tagged(e)
      modifies this, root`next, root`prev, elems`next, elems`prev, e`prev, e`next, e`belongsTo
      ensures Valid()
      ensures old(e.belongsTo) != this ==> r == None && elems == old(elems) && e.belongsTo == old(e.belongsTo)
      ensures old(e.belongsTo) == this ==> r == Some(e.value) && elems == Without(old(elems), e)
      ensures old(e.belongsTo) == this ==> e.belongsTo == null && e.prev == null && e.next == null
    {
      if e.belongsTo != this {
        return None;
      }
      ghost var i :| 0 <= i < |elems| && elems[i] == e;
      var value := e.value;
      WithoutAt(elems, i);
      Cut(e, elems, i);
      return Some(value);
    }

    /**
     * Makes e the first element, the others keeping their order; a no-op
     * for an element of another list.
     */
    method MoveToFront(e: Element<V>)
      requires Valid() && Tagged(e)
      modifies this, root`next, root`prev, elems`next, elems`prev
      ensures Valid()
      ensures old(e.belongsTo) != this ==> elems == old(elems)
      ensures old(e.belongsTo) == this ==> elems == MovedToFront(old(elems), e)
    {
      if e.belongsTo != this || e == root.next {
        if e.belongsTo == this {
          FrontStays(elems);
        }
        return;
      }
      ghost var i :| 0 <= i < |elems| && elems[i] == e;
      FrontSplices(elems, i);
      SpliceToFront(e, elems, i);
    }

    /**
     * Makes e the last element, the others keeping their order; a no-op
     * for an element of another list.
     */
    method MoveToBack(e: Element<V>)
      requires Valid() && Tagged(e)
      modifies this, root`next, root`prev, elems`next, elems`prev
      ensures Valid()
      ensures old(e.belongsTo) != this ==> elems == old(elems)
      ensures old(e.belongsTo) == this ==> elems == MovedToBack(old(elems), e)
    {
      if e.belongsTo != this || e == root.prev {
        if e.belongsTo == this {
          BackStays(elems);
        }
        return;
      }
      ghost var i :| 0 <= i < |elems| && elems[i] == e;
      BackSplices(elems, i);
      SpliceToBack(e, elems, i);
    }

    /**
     * Moves e to just after mark, the others keeping their order; a no-op
     * when e is mark or either is not in this list.
     */
    method MoveAfter(e: Element<V>, mark: Element<V>)
      requires Valid() && Tagged(e) && Tagged(mark)
      modifies this, root`next, root`prev, elems`next, elems`prev
      ensures Valid()
      ensures old(e.belongsTo) != this || old(mark.belongsTo) != this || e == mark ==> elems == old(elems)
      ensures old(e.belongsTo) == this && old(mark.belongsTo) == this && e != mark ==> elems == MovedAfter(old(elems), e, mark)
    {
      if e.belongsTo != this || mark.belongsTo != this || e == mark {
        return;
      }
      ghost var i :| 0 <= i < |elems| && elems[i] == e;
      ghost var m :| 0 <= m < |elems| && elems[m] == mark;
      MoveAfterAt(e, mark, i, m);
    }

    /**
     * Moves e to just before mark, the others keeping their order; a no-op
     * when e is mark or either is not in this list.
     */
    method MoveBefore(e: Element<V>, mark: Element<V>)
      requires Valid() && Tagged(e) && Tagged(mark)
      modifies this, root`next, root`prev, elems`next, elems`prev
      ensures Valid()
      ensures old(e.belongsTo) != this || old(mark.belongsTo) != this || e == mark ==> elems == old(elems)
      ensures old(e.belongsTo) == this && old(mark.belongsTo) == this && e != mark ==> elems == MovedBefore(old(elems), e, mark)
    {
      if e.belongsTo != this || mark.belongsTo != this || e == mark {
        return;
      }
      ghost var i :| 0 <= i < |elems| && elems[i] == e;
      ghost var m :| 0 <= m < |elems| && elems[m] == mark;
      MoveBeforeAt(e, mark, i, m);
    }
  }
}
