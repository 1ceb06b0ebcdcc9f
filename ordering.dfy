/**
  Three-way comparators as taken by libc's qsort and bsearch, the order they
  induce on a sequence, a reference sort, and binary search.
  Nothing here reproduces libc's algorithms: SortSeq and Search are reference
  definitions whose results satisfy what bunarr_qsort and bunarr_bsearch promise.
*/
module Ordering {
  import opened Wrappers

  /** cmp is a consistent three-way comparison: swapping its arguments flips
      the sign of the result, and "cmp(a, b) <= 0" is transitive. Together these
      make "cmp(a, b) <= 0" a total preorder (see PreorderFacts). */
  ghost predicate ThreeWay<T(!new)>(cmp: (T, T) -> int) {
    && (forall a, b :: cmp(a, b) < 0 <==> cmp(b, a) > 0)
    && (forall a, b, c :: cmp(a, b) <= 0 && cmp(b, c) <= 0 ==> cmp(a, c) <= 0)
  }

  /** Every item compares at most equal to every later item. */
  ghost predicate SortedBy<T>(cmp: (T, T) -> int, s: seq<T>) {
    forall i, j :: 0 <= i < j < |s| ==> cmp(s[i], s[j]) <= 0
  }

  /** A consistent comparator is reflexive (every item compares equal to
      itself) and total (of two items one is at most the other). */
  lemma PreorderFacts<T(!new)>(cmp: (T, T) -> int, a: T, b: T)
    requires ThreeWay(cmp)
    ensures cmp(a, a) == 0
    ensures cmp(a, b) <= 0 || cmp(b, a) <= 0
    ensures cmp(a, b) == 0 <==> cmp(b, a) == 0
  {
  }

  /** Inserts x before the first item it compares at most equal to. */
  function Insert<T>(cmp: (T, T) -> int, x: T, s: seq<T>): (r: seq<T>)
    ensures multiset(r) == multiset(s) + multiset{x}
  {
    if s == [] then [x]
    else if cmp(x, s[0]) <= 0 then [x] + s
    else
      assert s == [s[0]] + s[1..];
      [s[0]] + Insert(cmp, x, s[1..])
  }

  /** Reference sort (insertion sort) of a whole sequence. */
  function SortSeq<T>(cmp: (T, T) -> int, s: seq<T>): (r: seq<T>)
  {
    if s == [] then [] else Insert(cmp, s[0], SortSeq(cmp, s[1..]))
  }

  /** If b is at most x and at most every item of s, it is at most every
      item after inserting x. */
  lemma InsertLowerBound<T>(cmp: (T, T) -> int, b: T, x: T, s: seq<T>)
    requires cmp(b, x) <= 0
    requires forall k :: 0 <= k < |s| ==> cmp(b, s[k]) <= 0
    ensures forall k :: 0 <= k < |Insert(cmp, x, s)| ==> cmp(b, Insert(cmp, x, s)[k]) <= 0
  {
    var r := Insert(cmp, x, s);
    forall k | 0 <= k < |r| ensures cmp(b, r[k]) <= 0 {
      assert r[k] in multiset(r);
      if r[k] != x {
        assert r[k] in multiset(s);
        var j :| 0 <= j < |s| && s[j] == r[k];
      }
    }
  }

  /** A sequence headed by h is sorted when its tail is and h is at most
      every item of the tail. */
  lemma SortedCons<T>(cmp: (T, T) -> int, h: T, t: seq<T>)
    requires SortedBy(cmp, t)
    requires forall k :: 0 <= k < |t| ==> cmp(h, t[k]) <= 0
    ensures SortedBy(cmp, [h] + t)
  {
    var r := [h] + t;
    forall i, j | 0 <= i < j < |r| ensures cmp(r[i], r[j]) <= 0 {
      assert r[j] == t[j - 1];
      if i > 0 {
        assert r[i] == t[i - 1];
      }
    }
  }

  /** Inserting into a sorted sequence keeps it sorted. */
  lemma {:induction false} InsertSorted<T(!new)>(cmp: (T, T) -> int, x: T, s: seq<T>)
    requires ThreeWay(cmp) && SortedBy(cmp, s)
    ensures SortedBy(cmp, Insert(cmp, x, s))
  {
    if s == [] {
    } else if cmp(x, s[0]) <= 0 {
      forall k | 0 <= k < |s| ensures cmp(x, s[k]) <= 0 {
        if k > 0 {
          assert cmp(s[0], s[k]) <= 0;
        }
      }
      SortedCons(cmp, x, s);
    } else {
      assert cmp(s[0], x) <= 0;
      assert SortedBy(cmp, s[1..]);
      InsertSorted(cmp, x, s[1..]);
      InsertLowerBound(cmp, s[0], x, s[1..]);
      SortedCons(cmp, s[0], Insert(cmp, x, s[1..]));
    }
  }

  /** The reference sort orders its result by cmp. */
  lemma {:induction false} SortSeqSorted<T(!new)>(cmp: (T, T) -> int, s: seq<T>)
    requires ThreeWay(cmp)
    ensures SortedBy(cmp, SortSeq(cmp, s))
  {
    if s != [] {
      SortSeqSorted(cmp, s[1..]);
      InsertSorted(cmp, s[0], SortSeq(cmp, s[1..]));
    }
  }

  /** The reference sort returns a permutation of its input. */
  lemma {:induction false} SortSeqPermutes<T>(cmp: (T, T) -> int, s: seq<T>)
    ensures |SortSeq(cmp, s)| == |s|
    ensures multiset(SortSeq(cmp, s)) == multiset(s)
  {
    if s != [] {
      SortSeqPermutes(cmp, s[1..]);
      assert s == [s[0]] + s[1..];
      assert |multiset(SortSeq(cmp, s))| == |SortSeq(cmp, s)|;
    }
  }

  /** Two sequences with the same items either both hold an item that
      compares equal to key, or neither does. */
  lemma SameItemsSameMatches<T>(cmp: (T, T) -> int, key: T, a: seq<T>, b: seq<T>)
    requires multiset(a) == multiset(b)
    ensures (exists k :: 0 <= k < |a| && cmp(key, a[k]) == 0)
        <==> (exists k :: 0 <= k < |b| && cmp(key, b[k]) == 0)
  {
    if k :| 0 <= k < |a| && cmp(key, a[k]) == 0 {
      assert a[k] in multiset(b);
      var j :| 0 <= j < |b| && b[j] == a[k];
    }
    if k :| 0 <= k < |b| && cmp(key, b[k]) == 0 {
      assert b[k] in multiset(a);
      var j :| 0 <= j < |a| && a[j] == b[k];
    }
  }

  /** Binary search of s[lo..hi) for an item that compares equal to key.
      The items before lo compare below key and those from hi on above it. */
  function Search<T(!new)>(cmp: (T, T) -> int, s: seq<T>, key: T, lo: nat, hi: nat): (r: Option<nat>)
    requires ThreeWay(cmp) && SortedBy(cmp, s)
    requires lo <= hi <= |s|
    requires forall k :: 0 <= k < lo ==> cmp(key, s[k]) > 0
    requires forall k :: hi <= k < |s| ==> cmp(key, s[k]) < 0
    ensures r.Some? ==> lo <= r.value < hi && cmp(key, s[r.value]) == 0
    ensures r.None? ==> forall k :: 0 <= k < |s| ==> cmp(key, s[k]) != 0
    decreases hi - lo
  {
    if lo == hi then None
    else
      var mid := lo + (hi - lo) / 2;
      var c := cmp(key, s[mid]);
      if c < 0 then
        assert forall k :: mid <= k < |s| ==> cmp(s[mid], s[k]) <= 0;
        Search(cmp, s, key, lo, mid)
      else if c > 0 then
        assert forall k :: 0 <= k <= mid ==> cmp(s[k], s[mid]) <= 0;
        Search(cmp, s, key, mid + 1, hi)
      else Some(mid)
  }

  /** Searching the sorted copy of s finds a match exactly when s holds one. */
  lemma SearchAfterSort<T(!new)>(cmp: (T, T) -> int, s: seq<T>, key: T)
    requires ThreeWay(cmp)
    ensures SortedBy(cmp, SortSeq(cmp, s)) && |SortSeq(cmp, s)| == |s|
    ensures Search(cmp, SortSeq(cmp, s), key, 0, |s|).Some?
        <==> exists k :: 0 <= k < |s| && cmp(key, s[k]) == 0
  {
    SortSeqSorted(cmp, s);
    SortSeqPermutes(cmp, s);
    SameItemsSameMatches(cmp, key, s, SortSeq(cmp, s));
  }
}
