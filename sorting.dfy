/**
 * Kotlin's `sortedBy` (a stable sort by an integer key) and the two ways the
 * service cuts a sorted list: `takeLast(n)` after an ascending sort, and a
 * `DESC LIMIT n` query, which is `take(n)` after a descending sort.
 */
module Sorting {

  /** `s` is in ascending order of `key`. */
  predicate SortedBy<T>(s: seq<T>, key: T -> int)
  {
    forall i, j :: 0 <= i < j < |s| ==> key(s[i]) <= key(s[j])
  }

  /** No element occurs twice: the sequence enumerates a set. */
  predicate Distinct<T(==)>(s: seq<T>)
  {
    forall i, j :: 0 <= i < j < |s| ==> s[i] != s[j]
  }

  /** Puts `x` before the first element of `s` whose key is not smaller. */
  function Insert<T>(x: T, s: seq<T>, key: T -> int): seq<T>
  {
    if |s| == 0 then [x]
    else if key(x) <= key(s[0]) then [x] + s
    else [s[0]] + Insert(x, s[1..], key)
  }

  /** An element no larger than every element of a sorted sequence can go in front of it. */
  lemma ConsSorted<T>(y: T, t: seq<T>, key: T -> int)
    requires SortedBy(t, key)
    requires forall j :: 0 <= j < |t| ==> key(y) <= key(t[j])
    ensures SortedBy([y] + t, key)
  {
    var r := [y] + t;
    forall i, j | 0 <= i < j < |r| ensures key(r[i]) <= key(r[j]) {
      assert r[j] == t[j - 1];
      if i > 0 {
        assert r[i] == t[i - 1];
      }
    }
  }

  /** Inserting into a sorted sequence keeps it sorted and adds exactly `x`. */
  lemma {:induction false} InsertSpec<T>(x: T, s: seq<T>, key: T -> int)
    requires SortedBy(s, key)
    ensures SortedBy(Insert(x, s, key), key)
    ensures multiset(Insert(x, s, key)) == multiset(s) + multiset{x}
  {
    if |s| == 0 {
      assert Insert(x, s, key) == [x];
    } else if key(x) <= key(s[0]) {
      assert Insert(x, s, key) == [x] + s;
      ConsSorted(x, s, key);
    } else {
      var rest := s[1..];
      var tail := Insert(x, rest, key);
      assert Insert(x, s, key) == [s[0]] + tail;
      assert SortedBy(rest, key);
      InsertSpec(x, rest, key);
      forall j | 0 <= j < |tail| ensures key(s[0]) <= key(tail[j]) {
        assert tail[j] in multiset(tail);
        if tail[j] != x {
          assert tail[j] in rest;
        }
      }
      ConsSorted(s[0], tail, key);
      assert s == [s[0]] + rest;
    }
  }

  /**
   * `s.sortedBy(key)`: an insertion sort, stable because each element is put
   * before the elements of equal key that followed it.
   */
  function SortBy<T>(s: seq<T>, key: T -> int): seq<T>
  {
    if |s| == 0 then [] else Insert(s[0], SortBy(s[1..], key), key)
  }

  /** The sort yields the same elements in ascending order of `key`. */
  lemma {:induction false} SortBySpec<T>(s: seq<T>, key: T -> int)
    ensures SortedBy(SortBy(s, key), key)
    ensures multiset(SortBy(s, key)) == multiset(s)
  {
    if |s| > 0 {
      SortBySpec(s[1..], key);
      InsertSpec(s[0], SortBy(s[1..], key), key);
      assert s == [s[0]] + s[1..];
    }
  }

  /** Splitting a sequence splits its multiset. */
  lemma MultisetSplit<T>(s: seq<T>, m: nat)
    requires m <= |s|
    ensures multiset(s) == multiset(s[..m]) + multiset(s[m..])
  {
    assert s == s[..m] + s[m..];
  }

  /** In a sorted sequence, nothing before a cut has a larger key than anything after it. */
  lemma SortedSplitBound<T>(t: seq<T>, key: T -> int, m: nat)
    requires SortedBy(t, key) && m <= |t|
    ensures forall e, k :: e in t[..m] && k in t[m..] ==> key(e) <= key(k)
  {
    forall e, k | e in t[..m] && k in t[m..] ensures key(e) <= key(k) {
      var i :| 0 <= i < m && t[..m][i] == e;
      var j :| 0 <= j < |t| - m && t[m..][j] == k;
      assert t[i] == e && t[m + j] == k;
    }
  }

  /** `s.sortedBy(key).takeLast(n)`. */
  function LargestBy<T>(s: seq<T>, key: T -> int, n: nat): seq<T>
  {
    var t := SortBy(s, key);
    t[(if |t| <= n then 0 else |t| - n)..]
  }

  /**
   * The `n` elements of largest key, in ascending order; every element left
   * out has a key no larger than any element kept.
   */
  lemma LargestBySpec<T>(s: seq<T>, key: T -> int, n: nat)
    ensures |LargestBy(s, key, n)| == if |s| <= n then |s| else n
    ensures SortedBy(LargestBy(s, key, n), key)
    ensures multiset(LargestBy(s, key, n)) <= multiset(s)
    ensures forall e, k :: e in multiset(s) - multiset(LargestBy(s, key, n)) && k in LargestBy(s, key, n) ==>
              key(e) <= key(k)
  {
    var t := SortBy(s, key);
    SortBySpec(s, key);
    assert |t| == |multiset(t)| == |s|;
    var m := if |t| <= n then 0 else |t| - n;
    MultisetSplit(t, m);
    var r := t[m..];
    assert r == LargestBy(s, key, n);
    SortedSplitBound(t, key, m);
    forall e, k | e in multiset(s) - multiset(r) && k in r ensures key(e) <= key(k) {
      assert e in t[..m];
    }
  }

  /** `s.sortedBy(key).take(n)`. */
  function SmallestBy<T>(s: seq<T>, key: T -> int, n: nat): seq<T>
  {
    var t := SortBy(s, key);
    t[..(if |t| <= n then |t| else n)]
  }

  /**
   * The `n` elements of smallest key, in ascending order; every element left
   * out has a key no smaller than any element kept.
   */
  lemma SmallestBySpec<T>(s: seq<T>, key: T -> int, n: nat)
    ensures |SmallestBy(s, key, n)| == if |s| <= n then |s| else n
    ensures SortedBy(SmallestBy(s, key, n), key)
    ensures multiset(SmallestBy(s, key, n)) <= multiset(s)
    ensures forall e, k :: e in multiset(s) - multiset(SmallestBy(s, key, n)) && k in SmallestBy(s, key, n) ==>
              key(k) <= key(e)
  {
    var t := SortBy(s, key);
    SortBySpec(s, key);
    assert |t| == |multiset(t)| == |s|;
    var m := if |t| <= n then |t| else n;
    MultisetSplit(t, m);
    var r := t[..m];
    assert r == SmallestBy(s, key, n);
    SortedSplitBound(t, key, m);
    forall e, k | e in multiset(s) - multiset(r) && k in r ensures key(k) <= key(e) {
      assert e in t[m..];
    }
  }

  lemma {:induction false} DistinctCounts<T>(s: seq<T>, x: T)
    requires Distinct(s)
    ensures multiset(s)[x] <= 1
  {
    if |s| > 0 {
      assert s == [s[0]] + s[1..];
      DistinctCounts(s[1..], x);
      if x == s[0] {
        assert x !in s[1..];
      }
    }
  }

  /** A rearrangement of a duplicate-free sequence is duplicate-free. */
  lemma DistinctPermutation<T>(s: seq<T>, t: seq<T>)
    requires multiset(t) <= multiset(s)
    ensures Distinct(s) ==> Distinct(t)
  {
    if Distinct(s) {
      DistinctSubPermutation(s, t);
    }
  }

  lemma DistinctSubPermutation<T>(s: seq<T>, t: seq<T>)
    requires multiset(t) <= multiset(s)
    requires Distinct(s)
    ensures Distinct(t)
  {
    forall i, j | 0 <= i < j < |t| ensures t[i] != t[j] {
      if t[i] == t[j] {
        MultisetSplit(t, j);
        assert t[i] in t[..j];
        assert t[j] in t[j..];
        assert multiset(t)[t[i]] >= 2;
        DistinctCounts(s, t[i]);
        assert false;
      }
    }
  }

  /** A duplicate-free sequence has as many elements as the set it enumerates. */
  lemma {:induction false} DistinctCardinality<T>(s: seq<T>)
    requires Distinct(s)
    ensures |set x | x in s| == |s|
  {
    if |s| > 0 {
      DistinctCardinality(s[1..]);
      assert (set x | x in s) == (set x | x in s[1..]) + {s[0]};
      assert s[0] !in s[1..];
    }
  }
}
