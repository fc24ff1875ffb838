/**
 * The order of a list's elements as a sequence, and what each list
 * operation does to it: take an element out, put one in after or before
 * another, move one to an end or next to another.
 */
module ListOrder {

  /**
   * The element of s at p. Distinct is stated on these terms rather than on
   * s[p], so that its quantifier is only instantiated where a proof names
   * the two positions it compares.
   */
  ghost function At<T>(s: seq<T>, p: int): T
    requires 0 <= p < |s|
  {
    s[p]
  }

  /** No element of s occurs twice. */
  ghost predicate Distinct<T>(s: seq<T>)
  {
    forall p, q {:trigger At(s, p), At(s, q)} :: 0 <= p < q < |s| ==> At(s, p) != At(s, q)
  }

  /** x is none of the elements of s. */
  ghost predicate Excludes<T>(s: seq<T>, x: T)
  {
    forall k :: 0 <= k < |s| ==> s[k] != x
  }

  /** s with every occurrence of x taken out, the rest in order. */
  function Without<T(==)>(s: seq<T>, x: T): (r: seq<T>)
    ensures |r| <= |s|
  {
    if s == [] then []
    else if s[0] == x then Without(s[1..], x)
    else [s[0]] + Without(s[1..], x)
  }

  /** The position of the first x in s, or |s| when there is none. */
  ghost function IndexOf<T>(s: seq<T>, x: T): (k: nat)
    ensures k <= |s|
    ensures k < |s| ==> s[k] == x
  {
    if s == [] || s[0] == x then 0 else 1 + IndexOf(s[1..], x)
  }

  /** Nothing taken out is left: x is none of the elements of Without(s, x). */
  lemma {:induction false} WithoutExcludes<T>(s: seq<T>, x: T)
    ensures Excludes(Without(s, x), x)
  {
    if s != [] {
      WithoutExcludes(s[1..], x);
      if s[0] != x {
        var r := Without(s, x);
        forall k | 0 <= k < |r|
          ensures r[k] != x
        {
          assert k > 0 ==> r[k] == Without(s[1..], x)[k - 1];
        }
      }
    }
  }

  /** No position before IndexOf(s, x) holds x. */
  lemma {:induction false} IndexOfFirst<T>(s: seq<T>, x: T, j: int)
    requires 0 <= j < IndexOf(s, x)
    ensures s[j] != x
  {
    if j > 0 {
      IndexOfFirst(s[1..], x, j - 1);
    }
  }

  /** x put in right after the first m; s itself when m is absent. */
  ghost function AfterMark<T>(s: seq<T>, m: T, x: T): seq<T>
  {
    var j := IndexOf(s, m);
    if j < |s| then s[..j + 1] + [x] + s[j + 1..] else s
  }

  /** x put in right before the first m; s itself when m is absent. */
  ghost function BeforeMark<T>(s: seq<T>, m: T, x: T): seq<T>
  {
    var j := IndexOf(s, m);
    if j < |s| then s[..j] + [x] + s[j..] else s
  }

  function MovedToFront<T(==)>(s: seq<T>, x: T): seq<T>
  {
    [x] + Without(s, x)
  }

  ghost function MovedToBack<T>(s: seq<T>, x: T): seq<T>
  {
    Without(s, x) + [x]
  }

  ghost function MovedAfter<T>(s: seq<T>, x: T, m: T): seq<T>
  {
    AfterMark(Without(s, x), m, x)
  }

  ghost function MovedBefore<T>(s: seq<T>, x: T, m: T): seq<T>
  {
    BeforeMark(Without(s, x), m, x)
  }

  /** Taking out an absent element changes nothing. */
  lemma {:induction false} WithoutAbsent<T>(s: seq<T>, x: T)
    requires Excludes(s, x)
    ensures Without(s, x) == s
  {
    if s != [] {
      assert Excludes(s[1..], x) by {
        forall k | 0 <= k < |s[1..]|
          ensures s[1..][k] != x
        {
          assert s[1..][k] == s[k + 1];
        }
      }
      WithoutAbsent(s[1..], x);
    }
  }

  /** The tail of a sequence without repeats has no repeats and lacks the head. */
  lemma DistinctTail<T>(s: seq<T>)
    requires Distinct(s) && s != []
    ensures Distinct(s[1..]) && Excludes(s[1..], s[0])
  {
    forall p, q | 0 <= p < q < |s[1..]|
      ensures At(s[1..], p) != At(s[1..], q)
    {
      assert s[1..][p] == s[p + 1] && s[1..][q] == s[q + 1];
      assert At(s, p + 1) != At(s, q + 1);
    }
    forall k | 0 <= k < |s[1..]|
      ensures s[1..][k] != s[0]
    {
      assert s[1..][k] == s[k + 1];
      assert At(s, 0) != At(s, k + 1);
    }
  }

  /** Cutting position i out of s is keeping the head and cutting position i - 1 out of the tail. */
  lemma CutTail<T>(s: seq<T>, i: int)
    requires 0 < i < |s|
    ensures s[..i] + s[i + 1..] == [s[0]] + (s[1..][..i - 1] + s[1..][i..])
  {
    assert s[1..][..i - 1] == s[1..i] && s[1..][i..] == s[i + 1..];
    assert s[..i] == [s[0]] + s[1..i];
  }

  /** Cutting position i out of a sequence without repeats leaves one without repeats and without s[i]. */
  lemma DistinctCut<T>(s: seq<T>, i: int)
    requires Distinct(s) && 0 <= i < |s|
    ensures Distinct(s[..i] + s[i + 1..]) && Excludes(s[..i] + s[i + 1..], s[i])
  {
    var t := s[..i] + s[i + 1..];
    CutIndex(s, i);
    forall p, q | 0 <= p < q < |t|
      ensures At(t, p) != At(t, q)
    {
      if q < i {
        assert At(s, p) != At(s, q);
      } else if p < i {
        assert At(s, p) != At(s, q + 1);
      } else {
        assert At(s, p + 1) != At(s, q + 1);
      }
    }
    forall k | 0 <= k < |t|
      ensures t[k] != s[i]
    {
      if k < i {
        assert At(s, k) != At(s, i);
      } else {
        assert At(s, i) != At(s, k + 1);
      }
    }
  }

  /** Putting an absent x into a sequence without repeats leaves one without repeats. */
  lemma DistinctPut<T>(s: seq<T>, j: int, x: T)
    requires Distinct(s) && Excludes(s, x) && 0 <= j <= |s|
    ensures Distinct(s[..j] + [x] + s[j..])
  {
    var t := s[..j] + [x] + s[j..];
    PutIndex(s, j, x);
    forall p, q | 0 <= p < q < |t|
      ensures At(t, p) != At(t, q)
    {
      if q < j {
        assert At(s, p) != At(s, q);
      } else if p > j {
        assert At(s, p - 1) != At(s, q - 1);
      } else if p < j < q {
        assert At(s, p) != At(s, q - 1);
      }
    }
  }

  /** In a sequence without repeats, taking out the element at i splices its neighbours together. */
  lemma {:induction false} WithoutAt<T>(s: seq<T>, i: int)
    requires Distinct(s) && 0 <= i < |s|
    ensures Without(s, s[i]) == s[..i] + s[i + 1..]
  {
    DistinctTail(s);
    if i == 0 {
      WithoutAbsent(s[1..], s[0]);
      assert s[..0] + s[1..] == s[1..];
    } else {
      assert s[1..][i - 1] == s[i] && At(s, 0) != At(s, i);
      WithoutAt(s[1..], i - 1);
      CutTail(s, i);
    }
  }

  /** Taking out x distributes over concatenation. */
  lemma {:induction false} WithoutAppend<T>(p: seq<T>, q: seq<T>, x: T)
    ensures Without(p + q, x) == Without(p, x) + Without(q, x)
  {
    if p == [] {
      assert p + q == q;
    } else {
      assert (p + q)[1..] == p[1..] + q;
      WithoutAppend(p[1..], q, x);
    }
  }

  /** In a sequence without repeats, the first occurrence of s[j] is at j. */
  lemma IndexOfAt<T>(s: seq<T>, j: int)
    requires Distinct(s) && 0 <= j < |s|
    ensures IndexOf(s, s[j]) == j
  {
    var k := IndexOf(s, s[j]);
    assert k < j ==> At(s, k) != At(s, j);
    if j < k {
      IndexOfFirst(s, s[j], j);
    }
  }

  /** Where the elements of s[..i] + s[i + 1..] sit in s. */
  lemma CutIndex<T>(s: seq<T>, i: int)
    requires 0 <= i < |s|
    ensures var t := s[..i] + s[i + 1..];
      && |t| == |s| - 1
      && (forall k :: 0 <= k < i ==> t[k] == s[k])
      && (forall k :: i <= k < |t| ==> t[k] == s[k + 1])
  {
  }

  /** Prepending x to c + a is prepending x to c. */
  lemma ConsJoin<T>(x: T, c: seq<T>, a: seq<T>)
    ensures [x] + (c + a) == ([x] + c) + a
  {
  }

  /** Where the elements of s[..j] + [x] + s[j..] sit in s. */
  lemma PutIndex<T>(s: seq<T>, j: int, x: T)
    requires 0 <= j <= |s|
    ensures var t := s[..j] + [x] + s[j..];
      && |t| == |s| + 1 && t[j] == x
      && (forall k :: 0 <= k < j ==> t[k] == s[k])
      && (forall k :: j < k < |t| ==> t[k] == s[k - 1])
  {
  }

  /** In a sequence without repeats, inserting next to the element at i splices x in beside position i. */
  lemma InsertSplices<T>(s: seq<T>, i: int, x: T)
    requires Distinct(s) && 0 <= i < |s|
    ensures AfterMark(s, s[i], x) == s[..i + 1] + [x] + s[i + 1..]
    ensures BeforeMark(s, s[i], x) == s[..i] + [x] + s[i..]
  {
    IndexOfAt(s, i);
  }

  /** An element pushed at either end and then removed leaves the list it was pushed on. */
  lemma RemoveUndoesPush<T>(s: seq<T>, x: T)
    requires Excludes(s, x)
    ensures Without(s + [x], x) == s
    ensures Without([x] + s, x) == s
  {
    WithoutAppend(s, [x], x);
    WithoutAppend([x], s, x);
    WithoutAbsent(s, x);
    assert Without([x], x) == [];
  }

  /** An element inserted after or before a mark and then removed leaves the list as it was. */
  lemma RemoveUndoesInsert<T>(s: seq<T>, m: T, x: T)
    requires Excludes(s, x)
    ensures Without(AfterMark(s, m, x), x) == s
    ensures Without(BeforeMark(s, m, x), x) == s
  {
    var j := IndexOf(s, m);
    WithoutAbsent(s, x);
    if j < |s| {
      SpliceRemoved(s, j + 1, x);
      SpliceRemoved(s, j, x);
    }
  }

  /** Taking x back out of s[..j] + [x] + s[j..], when s has no x, gives s. */
  lemma SpliceRemoved<T>(s: seq<T>, j: int, x: T)
    requires Excludes(s, x) && 0 <= j <= |s|
    ensures Without(s[..j] + [x] + s[j..], x) == s
  {
    assert Excludes(s[..j], x) by {
      forall k | 0 <= k < j
        ensures s[..j][k] != x
      {
        assert s[..j][k] == s[k];
      }
    }
    assert Excludes(s[j..], x) by {
      forall k | 0 <= k < |s| - j
        ensures s[j..][k] != x
      {
        assert s[j..][k] == s[j + k];
      }
    }
    WithoutAppend(s[..j] + [x], s[j..], x);
    WithoutAppend(s[..j], [x], x);
    WithoutAbsent(s[..j], x);
    WithoutAbsent(s[j..], x);
    assert Without([x], x) == [];
    assert s[..j] + s[j..] == s;
  }

  /**
   * Every move keeps the other elements in their order: taking the moved
   * element out of the result gives what taking it out of the original
   * gives.
   */
  lemma MovesKeepOrder<T>(s: seq<T>, x: T, m: T)
    ensures Without(MovedToFront(s, x), x) == Without(s, x)
    ensures Without(MovedToBack(s, x), x) == Without(s, x)
    ensures Without(MovedAfter(s, x, m), x) == Without(s, x)
    ensures Without(MovedBefore(s, x, m), x) == Without(s, x)
  {
    var t := Without(s, x);
    WithoutExcludes(s, x);
    RemoveUndoesPush(t, x);
    RemoveUndoesInsert(t, m, x);
  }

  /**
   * In a sequence without repeats, moving one of its elements to an end, or
   * next to another of its elements, only reorders it.
   */
  lemma MovesPermute<T>(s: seq<T>, i: int, k: int)
    requires Distinct(s) && 0 <= i < |s| && 0 <= k < |s| && k != i
    ensures multiset(MovedToFront(s, s[i])) == multiset(s)
    ensures multiset(MovedToBack(s, s[i])) == multiset(s)
    ensures multiset(MovedAfter(s, s[i], s[k])) == multiset(s)
    ensures multiset(MovedBefore(s, s[i], s[k])) == multiset(s)
  {
    var x := s[i];
    var t := Without(s, x);
    WithoutCount(s, i);
    assert k < i ==> At(s, k) != At(s, i);
    assert i < k ==> At(s, i) != At(s, k);
    assert multiset(MovedToFront(s, x)) == multiset{x} + multiset(t);
    assert multiset(MovedToBack(s, x)) == multiset(t) + multiset{x};
    InWithout(s, k, x);
    var j := IndexOf(t, s[k]);
    assert MovedAfter(s, x, s[k]) == t[..j + 1] + [x] + t[j + 1..];
    SpliceCount(t, j + 1, x);
    assert MovedBefore(s, x, s[k]) == t[..j] + [x] + t[j..];
    SpliceCount(t, j, x);
  }

  /** Taking out the element at i, in a sequence without repeats, takes one copy of it out of the multiset. */
  lemma WithoutCount<T>(s: seq<T>, i: int)
    requires Distinct(s) && 0 <= i < |s|
    ensures multiset(Without(s, s[i])) + multiset{s[i]} == multiset(s)
  {
    WithoutAt(s, i);
    CutCount(s, i);
  }

  /** Cutting position i out of s takes one copy of s[i] out of the multiset. */
  lemma CutCount<T>(s: seq<T>, i: int)
    requires 0 <= i < |s|
    ensures multiset(s[..i] + s[i + 1..]) + multiset{s[i]} == multiset(s)
  {
    assert s == s[..i] + [s[i]] + s[i + 1..];
  }

  /** Putting x in at j adds one copy of x to the multiset. */
  lemma SpliceCount<T>(t: seq<T>, j: int, x: T)
    requires 0 <= j <= |t|
    ensures multiset(t[..j] + [x] + t[j..]) == multiset(t) + multiset{x}
  {
    assert t == t[..j] + t[j..];
  }

  /**
   * Moving x after (before) an element m that stays in the list leaves x
   * right after (before) m.
   */
  lemma MovesPlace<T>(s: seq<T>, x: T, m: T)
    requires x != m && exists k :: 0 <= k < |s| && s[k] == m
    ensures var r := MovedAfter(s, x, m); exists j :: 0 <= j < |r| - 1 && r[j] == m && r[j + 1] == x
    ensures var r := MovedBefore(s, x, m); exists j :: 0 <= j < |r| - 1 && r[j] == x && r[j + 1] == m
  {
    var t := Without(s, x);
    var k :| 0 <= k < |s| && s[k] == m;
    InWithout(s, k, x);
    var j := IndexOf(t, m);
    var a := t[..j + 1] + [x] + t[j + 1..];
    assert MovedAfter(s, x, m) == a;
    assert 0 <= j < |a| - 1 && a[j] == m && a[j + 1] == x;
    var b := t[..j] + [x] + t[j..];
    assert MovedBefore(s, x, m) == b;
    assert 0 <= j < |b| - 1 && b[j] == x && b[j + 1] == m;
  }

  /** An element other than x survives taking x out. */
  lemma {:induction false} InWithout<T>(s: seq<T>, k: int, x: T)
    requires 0 <= k < |s| && s[k] != x
    ensures IndexOf(Without(s, x), s[k]) < |Without(s, x)|
  {
    if k == 0 {
      assert Without(s, x)[0] == s[0];
    } else {
      assert s[1..][k - 1] == s[k];
      InWithout(s[1..], k - 1, x);
      var t := Without(s[1..], x);
      var j := IndexOf(t, s[k]);
      if s[0] != x {
        assert Without(s, x)[j + 1] == t[j];
      }
    }
  }

  /** Moving the element already at the front to the front changes nothing. */
  lemma FrontStays<T>(s: seq<T>)
    requires Distinct(s) && s != []
    ensures MovedToFront(s, s[0]) == s
  {
    DistinctTail(s);
    WithoutAbsent(s[1..], s[0]);
    assert [s[0]] + s[1..] == s;
  }

  /** Moving the element already at the back to the back changes nothing. */
  lemma BackStays<T>(s: seq<T>)
    requires Distinct(s) && s != []
    ensures MovedToBack(s, s[|s| - 1]) == s
  {
    var n := |s| - 1;
    WithoutAt(s, n);
    assert s[n + 1..] == [] && s[n..] == [s[n]];
    assert s[..n] + s[n..] == s;
  }

  /** Moving the element at i to the front is taking it out and splicing it back in at position 0. */
  lemma FrontSplices<T>(s: seq<T>, i: int)
    requires Distinct(s) && 0 <= i < |s|
    ensures var rest := s[..i] + s[i + 1..];
      MovedToFront(s, s[i]) == rest[..0] + [s[i]] + rest[0..]
  {
    var rest := s[..i] + s[i + 1..];
    WithoutAt(s, i);
    assert rest[..0] + [s[i]] + rest[0..] == [s[i]] + rest;
  }

  /** Moving the element at i to the back is taking it out and splicing it back in after the last of the others. */
  lemma BackSplices<T>(s: seq<T>, i: int)
    requires Distinct(s) && 0 <= i < |s|
    ensures var rest := s[..i] + s[i + 1..];
      MovedToBack(s, s[i]) == rest[..|rest|] + [s[i]] + rest[|rest|..]
  {
    var rest := s[..i] + s[i + 1..];
    WithoutAt(s, i);
    assert rest[..|rest|] + [s[i]] + rest[|rest|..] == rest + [s[i]];
  }

  /**
   * Moving the element at i next to the one at m is taking it out and
   * splicing it back in after (before) m's position among the others.
   */
  lemma MarkSplices<T>(s: seq<T>, i: int, m: int)
    requires Distinct(s) && 0 <= i < |s| && 0 <= m < |s| && i != m
    ensures var rest := s[..i] + s[i + 1..];
      var j := if m < i then m else m - 1;
      && 0 <= j < |rest| && rest[j] == s[m]
      && MovedAfter(s, s[i], s[m]) == rest[..j + 1] + [s[i]] + rest[j + 1..]
      && MovedBefore(s, s[i], s[m]) == rest[..j] + [s[i]] + rest[j..]
  {
    var rest := s[..i] + s[i + 1..];
    var j := if m < i then m else m - 1;
    WithoutAt(s, i);
    CutIndex(s, i);
    DistinctCut(s, i);
    InsertSplices(rest, j, s[i]);
  }
}
