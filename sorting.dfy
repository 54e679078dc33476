/**
  * LINQ's `OrderBy(key)`, as the writers use it to order names, tables and
  * transitions before emitting them. The string comparer it uses depends on
  * the culture, so the order is a parameter `le` ("sorts no later than"),
  * of which only what every comparer provides is assumed: it is total and
  * transitive. OrderBy is stable; so is this insertion sort.
  */
module Sorting {

  /** `le` compares any two keys, and transitively. */
  ghost predicate TotalPreorder<K(!new)>(le: (K, K) -> bool)
  {
    && (forall a, b :: le(a, b) || le(b, a))
    && (forall a, b, c :: le(a, b) && le(b, c) ==> le(a, c))
  }

  /** No two different keys sort together (ordinal string comparison is such an order). */
  ghost predicate Antisymmetric<K(!new)>(le: (K, K) -> bool)
  {
    forall a, b :: le(a, b) && le(b, a) ==> a == b
  }

  ghost predicate SortedBy<T, K>(s: seq<T>, key: T -> K, le: (K, K) -> bool)
  {
    forall i, j :: 0 <= i < j < |s| ==> le(key(s[i]), key(s[j]))
  }

  /** `x` placed into `s` after every element whose key sorts no later than its own, scanning from the back. */
  function Insert<T, K>(s: seq<T>, x: T, key: T -> K, le: (K, K) -> bool): (r: seq<T>)
    ensures |r| == |s| + 1
  {
    if |s| == 0 then [x]
    else if le(key(s[|s| - 1]), key(x)) then s + [x]
    else Insert(s[..|s| - 1], x, key, le) + [s[|s| - 1]]
  }

  /** `s.OrderBy(key).ToList()`. */
  function SortBy<T, K>(s: seq<T>, key: T -> K, le: (K, K) -> bool): (r: seq<T>)
    ensures |r| == |s|
  {
    if |s| == 0 then [] else Insert(SortBy(s[..|s| - 1], key, le), s[|s| - 1], key, le)
  }

  lemma {:induction false} InsertPermutes<T, K>(s: seq<T>, x: T, key: T -> K, le: (K, K) -> bool)
    ensures multiset(Insert(s, x, key, le)) == multiset(s) + multiset{x}
    decreases |s|
  {
    if |s| == 0 {
    } else if le(key(s[|s| - 1]), key(x)) {
    } else {
      var p, last := s[..|s| - 1], s[|s| - 1];
      InsertPermutes(p, x, key, le);
      assert s == p + [last];
    }
  }

  /** Inserting into a sorted sequence keeps it sorted. */
  lemma {:induction false} InsertSorted<T, K(!new)>(s: seq<T>, x: T, key: T -> K, le: (K, K) -> bool)
    requires TotalPreorder(le)
    requires SortedBy(s, key, le)
    ensures SortedBy(Insert(s, x, key, le), key, le)
    decreases |s|
  {
    if |s| == 0 {
    } else if le(key(s[|s| - 1]), key(x)) {
      var r := s + [x];
      forall i, j | 0 <= i < j < |r|
        ensures le(key(r[i]), key(r[j]))
      {
        if j == |s| && i < |s| - 1 {
          assert le(key(s[i]), key(s[|s| - 1]));
        }
      }
    } else {
      var p, last := s[..|s| - 1], s[|s| - 1];
      assert le(key(x), key(last));
      assert SortedBy(p, key, le) by {
        forall i, j | 0 <= i < j < |p| ensures le(key(p[i]), key(p[j])) {
          assert p[i] == s[i] && p[j] == s[j];
        }
      }
      InsertSorted(p, x, key, le);
      InsertPermutes(p, x, key, le);
      var q := Insert(p, x, key, le);
      var r := q + [last];
      forall i, j | 0 <= i < j < |r|
        ensures le(key(r[i]), key(r[j]))
      {
        if j == |q| {
          assert r[i] == q[i] && q[i] in multiset(p) + multiset{x};
          if q[i] != x {
            var k :| 0 <= k < |p| && p[k] == q[i];
            assert s[k] == p[k];
          }
        } else {
          assert r[i] == q[i] && r[j] == q[j];
        }
      }
    }
  }

  /** OrderBy reorders and does not add or drop anything. */
  lemma {:induction false} SortByPermutes<T, K>(s: seq<T>, key: T -> K, le: (K, K) -> bool)
    ensures multiset(SortBy(s, key, le)) == multiset(s)
    decreases |s|
  {
    if |s| > 0 {
      var p := s[..|s| - 1];
      SortByPermutes(p, key, le);
      InsertPermutes(SortBy(p, key, le), s[|s| - 1], key, le);
      assert s == p + [s[|s| - 1]];
    }
  }

  /** OrderBy's result is in order. */
  lemma {:induction false} SortBySorted<T, K(!new)>(s: seq<T>, key: T -> K, le: (K, K) -> bool)
    requires TotalPreorder(le)
    ensures SortedBy(SortBy(s, key, le), key, le)
    decreases |s|
  {
    if |s| > 0 {
      SortBySorted(s[..|s| - 1], key, le);
      InsertSorted(SortBy(s[..|s| - 1], key, le), s[|s| - 1], key, le);
    }
  }

  /** Within `s`, only equal elements have keys that sort together. */
  ghost predicate Separates<T, K>(s: seq<T>, key: T -> K, le: (K, K) -> bool)
  {
    forall i, j :: 0 <= i < |s| && 0 <= j < |s| && le(key(s[i]), key(s[j])) && le(key(s[j]), key(s[i])) ==> s[i] == s[j]
  }

  /** OrderBy leaves an ordered sequence as it is. */
  lemma {:induction false} SortByKeepsSorted<T, K>(s: seq<T>, key: T -> K, le: (K, K) -> bool)
    requires SortedBy(s, key, le)
    ensures SortBy(s, key, le) == s
    decreases |s|
  {
    if |s| > 0 {
      var p := s[..|s| - 1];
      assert SortedBy(p, key, le) by {
        forall i, j | 0 <= i < j < |p| ensures le(key(p[i]), key(p[j])) {
          assert p[i] == s[i] && p[j] == s[j];
        }
      }
      SortByKeepsSorted(p, key, le);
      if |p| > 0 {
        assert le(key(s[|s| - 2]), key(s[|s| - 1]));
      }
      assert s == p + [s[|s| - 1]];
    }
  }

  /**
    * When only equal elements of a multiset sort together, it has one
    * sorted arrangement: two sorted permutations agree.
    */
  lemma {:induction false} SortedUnique<T, K>(a: seq<T>, b: seq<T>, key: T -> K, le: (K, K) -> bool)
    requires Separates(a, key, le)
    requires SortedBy(a, key, le) && SortedBy(b, key, le)
    requires multiset(a) == multiset(b)
    ensures a == b
    decreases |a|
  {
    assert |b| == |a| by {
      assert |multiset(a)| == |a| && |multiset(b)| == |b|;
    }
    if |a| > 0 {
      SameHead(a, b, key, le);
      SortedTail(a, key, le);
      SortedTail(b, key, le);
      assert Separates(a[1..], key, le) by {
        forall i, j | 0 <= i < |a| - 1 && 0 <= j < |a| - 1
          ensures le(key(a[1..][i]), key(a[1..][j])) && le(key(a[1..][j]), key(a[1..][i])) ==> a[1..][i] == a[1..][j]
        {
          assert a[1..][i] == a[i + 1] && a[1..][j] == a[j + 1];
        }
      }
      SortedUnique(a[1..], b[1..], key, le);
      assert a == [a[0]] + a[1..] && b == [b[0]] + b[1..];
    }
  }

  /** Two sorted permutations start with the same element, and what follows is again a permutation. */
  lemma SameHead<T, K>(a: seq<T>, b: seq<T>, key: T -> K, le: (K, K) -> bool)
    requires Separates(a, key, le)
    requires SortedBy(a, key, le) && SortedBy(b, key, le)
    requires multiset(a) == multiset(b) && |a| > 0
    ensures |b| > 0 && a[0] == b[0] && multiset(a[1..]) == multiset(b[1..])
  {
    assert a[0] in multiset(b);
    var i :| 0 <= i < |b| && b[i] == a[0];
    assert b[0] in multiset(a);
    var j :| 0 <= j < |a| && a[j] == b[0];
    if i > 0 && j > 0 {
      assert le(key(b[0]), key(b[i])) && le(key(a[0]), key(a[j]));
      assert a[0] == a[j];
    }
    assert multiset(a[1..]) == multiset(a) - multiset{a[0]} by {
      assert a == [a[0]] + a[1..];
    }
    assert multiset(b[1..]) == multiset(b) - multiset{b[0]} by {
      assert b == [b[0]] + b[1..];
    }
  }

  lemma SortedTail<T, K>(s: seq<T>, key: T -> K, le: (K, K) -> bool)
    requires SortedBy(s, key, le) && |s| > 0
    ensures SortedBy(s[1..], key, le)
  {
    forall i, j | 0 <= i < j < |s| - 1
      ensures le(key(s[1..][i]), key(s[1..][j]))
    {
      assert s[1..][i] == s[i + 1] && s[1..][j] == s[j + 1];
    }
  }

  /**
    * Sorting a sequence in which only equal elements sort together
    * forgets the order it was given: its permutations sort alike.
    */
  lemma SortByIgnoresOrder<T, K(!new)>(a: seq<T>, b: seq<T>, key: T -> K, le: (K, K) -> bool)
    requires TotalPreorder(le)
    requires Separates(a, key, le)
    requires multiset(a) == multiset(b)
    ensures SortBy(a, key, le) == SortBy(b, key, le)
  {
    SortByPermutes(a, key, le);
    SortByPermutes(b, key, le);
    SortBySorted(a, key, le);
    SortBySorted(b, key, le);
    var sa := SortBy(a, key, le);
    assert Separates(sa, key, le) by {
      forall i, j | 0 <= i < |sa| && 0 <= j < |sa|
        ensures le(key(sa[i]), key(sa[j])) && le(key(sa[j]), key(sa[i])) ==> sa[i] == sa[j]
      {
        assert sa[i] in multiset(a) && sa[j] in multiset(a);
        var x :| 0 <= x < |a| && a[x] == sa[i];
        var y :| 0 <= y < |a| && a[y] == sa[j];
      }
    }
    SortedUnique(sa, SortBy(b, key, le), key, le);
  }
}
