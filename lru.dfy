/**
 * The LRUCache of lru/lru.go: a map from keys to the elements of a list
 * kept in order of use, most recent first. Get and Put move the entry they
 * touch to the front; a Put that takes the cache over its capacity evicts
 * the back entry, the least recently used.
 *
 * The list is Go's container/list, library code this model does not
 * contain: it stands here as the sequence of its element objects, front
 * first, and Go's map as a Dafny map. The list of list/list.go is the
 * LinkedList module, which this one does not use.
 */
module Lru {
  import opened Optional
  import opened ListOrder

  /** What each list element holds: the key, so that eviction can find it in the map, and the value. */
  datatype Entry<V> = Entry(key: int, value: V)

  /** A container/list element; Put overwrites its Value. */
  class Element<V> {
    var value: Entry<V>

    constructor (v: Entry<V>)
      ensures value == v
    {
      value := v;
    }
  }

  /** The keys held by the elements of s, in order. */
  ghost function KeysOf<V>(s: seq<Element<V>>): seq<int>
    reads s
  {
    seq(|s|, i requires 0 <= i < |s| reads s => s[i].value.key)
  }

  /**
   * Moving the element at i to the front of s moves its key to the front
   * of the keys, when no key occurs twice.
   */
  lemma KeysMove<V>(s: seq<Element<V>>, i: int)
    requires Distinct(s) && Distinct(KeysOf(s)) && 0 <= i < |s|
    ensures KeysOf(MovedToFront(s, s[i])) == MovedToFront(KeysOf(s), s[i].value.key)
  {
    var ks := KeysOf(s);
    FrontSplices(s, i);
    FrontSplices(ks, i);
    var rest := s[..i] + s[i + 1..];
    var krest := ks[..i] + ks[i + 1..];
    assert rest[..0] + [s[i]] + rest[0..] == [s[i]] + rest;
    assert krest[..0] + [ks[i]] + krest[0..] == [ks[i]] + krest;
    assert KeysOf([s[i]] + rest) == [ks[i]] + krest;
  }

  /**
   * Moving an element of a sequence without repeats to the front keeps it
   * without repeats, keeps its length and its members, and puts the element
   * first.
   */
  lemma MoveToFrontKeeps<T>(s: seq<T>, i: int)
    requires Distinct(s) && 0 <= i < |s|
    ensures var t := MovedToFront(s, s[i]);
      && Distinct(t) && |t| == |s| && t[0] == s[i]
      && forall y :: y in t <==> y in s
  {
    var rest := s[..i] + s[i + 1..];
    FrontSplices(s, i);
    DistinctCut(s, i);
    DistinctPut(rest, 0, s[i]);
    assert rest[..0] + [s[i]] + rest[0..] == [s[i]] + rest;
    assert s == s[..i] + [s[i]] + s[i + 1..];
  }

  class LruCache<V> {
    var cap: nat
    var dict: map<int, Element<V>>
    var list: seq<Element<V>>

    /**
     * The map and the list agree: each element of the list is what the map
     * gives for its key, each element the map gives is in the list and
     * carries the key it is found under, and no element is listed twice.
     */
    ghost predicate Agrees()
      reads this, list
    {
      && Distinct(list)
      && (forall i :: 0 <= i < |list| ==> list[i].value.key in dict && dict[list[i].value.key] == list[i])
      && (forall k :: k in dict ==> dict[k] in list && dict[k].value.key == k)
    }

    /** Between operations the map and the list agree and there are at most cap entries. */
    ghost predicate Valid()
      reads this, list
    {
      Agrees() && |list| <= cap
    }

    /** The cached keys, most recently used first. */
    ghost function Keys(): seq<int>
      reads this, list
    {
      KeysOf(list)
    }

    /** What the cache maps each of its keys to. */
    ghost function Content(): map<int, V>
      requires Agrees()
      reads this, list
    {
      map k | k in dict :: dict[k].value.value
    }

    /** Keys are never listed twice, and the map's keys are the listed keys. */
    lemma KeysDistinct()
      requires Agrees()
      ensures Distinct(Keys())
      ensures forall k :: k in dict <==> k in Keys()
    {
      var ks := Keys();
      forall p, q | 0 <= p < q < |ks|
        ensures At(ks, p) != At(ks, q)
      {
        assert At(list, p) != At(list, q);
      }
      forall k | k in dict
        ensures k in ks
      {
        var i :| 0 <= i < |list| && list[i] == dict[k];
        assert ks[i] == k;
      }
    }

    /** New: an empty cache of capacity cap. */
    constructor (cap: nat)
      ensures Valid() && this.cap == cap && list == [] && dict == map[]
      ensures Keys() == [] && Content() == map[]
    {
      this.cap := cap;
      dict := map[];
      list := [];
    }

    /** Empties the cache; the capacity stays. */
    method Clear()
      modifies this
      ensures Valid() && cap == old(cap) && list == [] && dict == map[]
      ensures Keys() == [] && Content() == map[]
    {
      dict := map[];
      list := [];
    }

    /**
     * container/list's MoveToFront on the list: elem, an element of the
     * list, becomes its first, the others keeping their order.
     */
    method MoveToFront(elem: Element<V>)
      requires Agrees() && elem in list
      modifies this
      ensures Agrees() && cap == old(cap) && dict == old(dict) && |list| == |old(list)|
      ensures list == MovedToFront(old(list), elem) && forall y :: y in list <==> y in old(list)
      ensures Keys() == MovedToFront(old(Keys()), elem.value.key)
      ensures Content() == old(Content())
    {
      KeysDistinct();
      ghost var s := list;
      ghost var i :| 0 <= i < |s| && s[i] == elem;
      MoveToFrontKeeps(s, i);
      KeysMove(s, i);
      list := MovedToFront(list, elem);
      forall p | 0 <= p < |list|
        ensures list[p].value.key in dict && dict[list[p].value.key] == list[p]
      {
        assert list[p] in s;
      }
    }

    /**
     * On a hit, returns the value cached for key and moves its entry to
     * the front; on a miss returns None and changes nothing.
     */
    method Get(key: int) returns (result: Option<V>, hit: bool)
      requires Valid()
      modifies this
      ensures Valid() && cap == old(cap) && dict == old(dict) && |list| == |old(list)|
      ensures hit <==> key in old(dict)
      ensures !hit ==> result == None && list == old(list)
      ensures hit ==> result == Some(old(Content())[key]) && list == MovedToFront(old(list), old(dict[key]))
      ensures hit ==> Keys() == MovedToFront(old(Keys()), key)
      ensures Content() == old(Content())
    {
      var elem: Element?<V> := null;
      hit := key in dict;
      if hit {
        elem := dict[key];
      }
      result := None;
      if hit {
        result := Some(elem.value.value);
        MoveToFront(elem);
      }
    }

    /** Overwrites the entry of elem, the element of key, with key and value. */
    method Overwrite(elem: Element<V>, key: int, value: V)
      requires Agrees() && key in dict && dict[key] == elem
      modifies elem`value
      ensures Agrees() && Keys() == old(Keys())
      ensures Content() == old(Content())[key := value]
    {
      ghost var i :| 0 <= i < |list| && list[i] == elem;
      forall j | 0 <= j < |list| && j != i
        ensures list[j] != elem
      {
        if i < j {
          assert At(list, i) != At(list, j);
        } else {
          assert At(list, j) != At(list, i);
        }
      }
      assert forall k :: k in dict && k != key ==> dict[k] != elem;
      elem.value := Entry(key, value);
      assert Keys() == old(Keys());
    }

    /**
     * container/list's PushFront of a new entry for key, followed by the
     * map update that indexes it; the count may now exceed cap.
     */
    method PushFront(key: int, value: V) returns (elem: Element<V>)
      requires Agrees() && key !in dict
      modifies this
      ensures Agrees() && cap == old(cap) && fresh(elem)
      ensures list == [elem] + old(list) && dict == old(dict)[key := elem]
      ensures Keys() == [key] + old(Keys())
      ensures Content() == old(Content())[key := value]
    {
      elem := new Element(Entry(key, value));
      DistinctPut(list, 0, elem);
      assert list[..0] + [elem] + list[0..] == [elem] + list;
      list := [elem] + list;
      dict := dict[key := elem];
    }

    /**
     * Evicts the back entry: its key leaves the map and its element the
     * list (container/list's Back and Remove, and Go's delete).
     */
    method EvictBack()
      requires Agrees() && list != []
      modifies this
      ensures Agrees() && cap == old(cap) && |list| == |old(list)| - 1
      ensures list == old(list)[..|old(list)| - 1]
      ensures Keys() == old(Keys())[..|old(list)| - 1]
      ensures Content() == old(Content()) - {old(Keys())[|old(list)| - 1]}
    {
      var back := list[|list| - 1];
      WithoutAt(list, |list| - 1);
      DistinctCut(list, |list| - 1);
      dict := dict - {back.value.key};
      list := Without(list, back);
    }

    /**
     * Caches value under key at the front. A key already cached keeps its
     * element, which takes the new value; a new key gets a new element,
     * and when that takes the cache over cap the back entry is evicted.
     */
    method Put(key: int, value: V)
      requires Valid()
      modifies this, list
      ensures Valid() && cap == old(cap)
      ensures forall x :: x in list ==> x in old(list) || fresh(x)
      ensures key in old(dict) ==> Keys() == MovedToFront(old(Keys()), key)
      ensures key in old(dict) ==> Content() == old(Content())[key := value]
      ensures key !in old(dict) && |old(list)| < cap ==>
        Keys() == [key] + old(Keys()) && Content() == old(Content())[key := value]
      ensures key !in old(dict) && |old(list)| == cap ==>
        var evicted := ([key] + old(Keys()))[cap];
        Keys() == ([key] + old(Keys()))[..cap] && Content() == old(Content())[key := value] - {evicted}
    {
      if key in dict {
        var elem := dict[key];
        Overwrite(elem, key, value);
        MoveToFront(elem);
      } else {
        var elem := PushFront(key, value);
        if |list| > cap {
          EvictBack();
        }
      }
    }
  }

  /**
   * Puts the keys 1, 2, ..., n, each as its own value, into a new cache of
   * capacity cap: the last min(n, cap) of them stay, the latest first.
   */
  method PutOneTo(n: nat, cap: nat) returns (c: LruCache<int>)
    ensures c.Valid() && c.cap == cap && fresh(c)
    ensures c.Keys() == Countdown(n, Kept(n, cap))
    ensures c.Content() == Identity(n, Kept(n, cap))
  {
    c := new LruCache<int>(cap);
    var i := 1;
    while i <= n
      invariant 1 <= i <= n + 1 && c.Valid() && c.cap == cap
      invariant c.Keys() == Countdown(i - 1, Kept(i - 1, cap))
      invariant c.Content() == Identity(i - 1, Kept(i - 1, cap))
      invariant fresh(c) && forall x :: x in c.list ==> fresh(x)
    {
      PutNext(c, i);
      i := i + 1;
    }
  }

  /** One turn of PutOneTo's loop: Put(i, i) into a cache holding the last keys up to i - 1. */
  method PutNext(c: LruCache<int>, i: nat)
    requires 1 <= i && c.Valid()
    requires c.Keys() == Countdown(i - 1, Kept(i - 1, c.cap))
    requires c.Content() == Identity(i - 1, Kept(i - 1, c.cap))
    modifies c, c.list
    ensures c.Valid() && c.cap == old(c.cap)
    ensures c.Keys() == Countdown(i, Kept(i, c.cap))
    ensures c.Content() == Identity(i, Kept(i, c.cap))
    ensures forall x :: x in c.list ==> x in old(c.list) || fresh(x)
  {
    c.KeysDistinct();
    PutStep(i - 1, c.cap);
    assert i !in c.dict && |c.list| == Kept(i - 1, c.cap);
    c.Put(i, i);
  }

  /** Putting 1, 2, ..., 10 into a cache of capacity 5 leaves keys 10, 9, 8, 7, 6, front to back. */
  method PutTenIntoFive() returns (c: LruCache<int>)
    ensures c.Valid() && c.Keys() == [10, 9, 8, 7, 6] && |c.list| == 5
  {
    c := PutOneTo(10, 5);
    assert Countdown(10, 5) == [10, 9, 8, 7, 6];
  }

  /**
   * With 1, 2, ..., 10 put into a cache of capacity 10, Get(3) and then
   * Get(8) hit, return 3 and 8, and each moves its key to the front.
   */
  method GetMovesToFront() returns (x: Option<int>, hit: bool, y: Option<int>, hit2: bool, c: LruCache<int>)
    ensures hit && x == Some(3) && hit2 && y == Some(8)
    ensures c.Valid() && |c.Keys()| == 10 && c.Keys()[0] == 8 && c.Keys()[1] == 3
  {
    c := PutOneTo(10, 10);
    assert 3 in c.Content() && 8 in c.Content();
    x, hit := c.Get(3);
    ghost var k1 := c.Keys();
    y, hit2 := c.Get(8);
    assert k1[0] == 3;
  }

  /** n, n - 1, ..., n - m + 1. */
  ghost function Countdown(n: int, m: nat): seq<int>
  {
    seq(m, j => n - j)
  }

  /** k is one of n, n - 1, ..., n - m + 1. */
  ghost predicate Among(k: int, n: int, m: nat)
  {
    n - m < k <= n
  }

  /** Each of n, n - 1, ..., n - m + 1 mapped to itself. */
  ghost function Identity(n: int, m: nat): map<int, int>
  {
    map k | n - m < k <= n && Among(k, n, m) :: k
  }

  /** How many of the keys 1, ..., n a cache of capacity cap keeps. */
  ghost function Kept(n: nat, cap: nat): nat
  {
    if n <= cap then n else cap
  }

  /**
   * Putting the new key n + 1 into a cache holding the last keys up to n:
   * below capacity it joins them; at capacity the oldest drops out.
   */
  lemma PutStep(n: nat, cap: nat)
    ensures n + 1 !in Countdown(n, Kept(n, cap))
    ensures Kept(n, cap) < cap ==>
      && [n + 1] + Countdown(n, Kept(n, cap)) == Countdown(n + 1, Kept(n + 1, cap))
      && Identity(n, Kept(n, cap))[n + 1 := n + 1] == Identity(n + 1, Kept(n + 1, cap))
    ensures Kept(n, cap) == cap ==>
      var ks := [n + 1] + Countdown(n, cap);
      && ks[..cap] == Countdown(n + 1, Kept(n + 1, cap))
      && Identity(n, cap)[n + 1 := n + 1] - {ks[cap]} == Identity(n + 1, Kept(n + 1, cap))
  {
  }
}
