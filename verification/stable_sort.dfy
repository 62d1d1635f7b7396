/** `Array.prototype.sort(cmp)` followed by `[0]`, the way the extraction
    callback picks its winners. Since ECMAScript 2019 the sort is stable:
    elements the comparator does not separate keep their input order. With
    a comparator that is a strict weak order, the stable result is unique, so
    a stable insertion sort computes exactly what the engine computes. */
module StableSort {
  import opened Seqs

  /** A JavaScript comparator: a negative result puts `a` before `b`. */
  predicate Before<T>(cmp: (T, T) -> int, a: T, b: T) {
    cmp(a, b) < 0
  }

  /** "Goes before" is irreflexive and transitive, and so is "neither goes
      before the other": the condition under which sorting is well defined. */
  ghost predicate StrictWeakOrder<T(!new)>(cmp: (T, T) -> int) {
    && (forall a :: !Before(cmp, a, a))
    && (forall a, b, c :: Before(cmp, a, b) && Before(cmp, b, c) ==> Before(cmp, a, c))
    && (forall a, b, c :: Before(cmp, a, c) ==> Before(cmp, a, b) || Before(cmp, b, c))
  }

  /** No element of `s` goes before an element to its left. */
  predicate Sorted<T>(s: seq<T>, cmp: (T, T) -> int) {
    forall i, j :: 0 <= i < j < |s| ==> !Before(cmp, s[j], s[i])
  }

  /** `s[k]` is what a stable sort puts first: nothing goes before it, and it
      goes before everything to its left. */
  predicate FirstBest<T>(s: seq<T>, cmp: (T, T) -> int, k: nat) {
    && k < |s|
    && (forall j :: 0 <= j < |s| ==> !Before(cmp, s[j], s[k]))
    && (forall j :: 0 <= j < k ==> Before(cmp, s[k], s[j]))
  }

  /** Puts `x` after the leading elements that go before it and ahead of the rest. */
  function Insert<T>(x: T, s: seq<T>, cmp: (T, T) -> int): (r: seq<T>)
    ensures multiset(r) == multiset(s) + multiset{x}
  {
    if |s| == 0 || !Before(cmp, s[0], x) then [x] + s
    else
      assert s == [s[0]] + s[1..];
      [s[0]] + Insert(x, s[1..], cmp)
  }

  /** Stable insertion sort: the first element goes ahead of every later
      element that does not go before it. */
  function SortBy<T>(s: seq<T>, cmp: (T, T) -> int): (r: seq<T>)
    ensures multiset(r) == multiset(s)
  {
    if |s| == 0 then []
    else
      assert s == [s[0]] + s[1..];
      Insert(s[0], SortBy(s[1..], cmp), cmp)
  }

  lemma {:induction false} InsertSorted<T(!new)>(x: T, s: seq<T>, cmp: (T, T) -> int)
    requires StrictWeakOrder(cmp) && Sorted(s, cmp)
    ensures Sorted(Insert(x, s, cmp), cmp)
  {
    if |s| > 0 && Before(cmp, s[0], x) {
      var t := Insert(x, s[1..], cmp);
      InsertSorted(x, s[1..], cmp);
      assert multiset(t) == multiset(s[1..]) + multiset{x};
      forall k | 0 <= k < |t| ensures !Before(cmp, t[k], s[0]) {
        assert t[k] in multiset(t);
        if t[k] != x {
          assert t[k] in multiset(s[1..]);
          var m :| 0 <= m < |s[1..]| && s[1..][m] == t[k];
          assert s[m + 1] == t[k];
        }
      }
      var r := [s[0]] + t;
      forall i, j | 0 <= i < j < |r| ensures !Before(cmp, r[j], r[i]) {
        assert r[j] == t[j - 1];
        if i > 0 {
          assert r[i] == t[i - 1];
        }
      }
    } else if |s| > 0 {
      var r := [x] + s;
      forall i, j | 0 <= i < j < |r| ensures !Before(cmp, r[j], r[i]) {
        assert r[j] == s[j - 1];
        if i > 0 {
          assert r[i] == s[i - 1];
        }
      }
    }
  }

  /** The result of the sort is ordered by `cmp`. */
  lemma {:induction false} SortSorted<T(!new)>(s: seq<T>, cmp: (T, T) -> int)
    requires StrictWeakOrder(cmp)
    ensures Sorted(SortBy(s, cmp), cmp)
  {
    if |s| > 0 {
      SortSorted(s[1..], cmp);
      InsertSorted(s[0], SortBy(s[1..], cmp), cmp);
    }
  }

  /** What a stable sort puts first: the first element, unless the first best
      element of the rest goes before it. */
  lemma {:induction false} SortHead<T(!new)>(s: seq<T>, cmp: (T, T) -> int)
    requires StrictWeakOrder(cmp) && |s| > 0
    ensures exists k: nat :: FirstBest(s, cmp, k) && SortBy(s, cmp)[0] == s[k]
  {
    var rest := s[1..];
    if |rest| == 0 {
      assert FirstBest(s, cmp, 0);
    } else {
      SortHead(rest, cmp);
      var k: nat :| FirstBest(rest, cmp, k) && SortBy(rest, cmp)[0] == rest[k];
      FirstBestCons(s, cmp, k);
      if Before(cmp, rest[k], s[0]) {
        assert SortBy(s, cmp)[0] == s[k + 1];
      } else {
        assert SortBy(s, cmp)[0] == s[0];
      }
    }
  }

  /** The first best element of `s`, from the first best element of its tail. */
  lemma FirstBestCons<T(!new)>(s: seq<T>, cmp: (T, T) -> int, k: nat)
    requires StrictWeakOrder(cmp) && |s| > 1 && FirstBest(s[1..], cmp, k)
    ensures Before(cmp, s[k + 1], s[0]) ==> FirstBest(s, cmp, k + 1)
    ensures !Before(cmp, s[k + 1], s[0]) ==> FirstBest(s, cmp, 0)
  {
    var rest := s[1..];
    assert s[k + 1] == rest[k];
    if Before(cmp, rest[k], s[0]) {
      forall j | 0 <= j < |s| ensures !Before(cmp, s[j], s[k + 1]) {
        if j > 0 {
          assert s[j] == rest[j - 1];
        }
      }
      forall j | 0 <= j < k + 1 ensures Before(cmp, s[k + 1], s[j]) {
        if j > 0 {
          assert s[j] == rest[j - 1];
        }
      }
    } else {
      forall j | 0 <= j < |s| ensures !Before(cmp, s[j], s[0]) {
        if j > 0 {
          assert s[j] == rest[j - 1];
          assert !Before(cmp, rest[j - 1], rest[k]);
        }
      }
    }
  }

  /** At most one position is the first best one. */
  lemma FirstBestUnique<T>(s: seq<T>, cmp: (T, T) -> int, k1: nat, k2: nat)
    requires FirstBest(s, cmp, k1) && FirstBest(s, cmp, k2)
    ensures k1 == k2
  {
    var lo, hi := if k1 < k2 then k1 else k2, if k1 < k2 then k2 else k1;
    assert FirstBest(s, cmp, lo) && FirstBest(s, cmp, hi);
    assert !Before(cmp, s[hi], s[lo]);
  }

  /** Dropping elements from a sorted sequence does not disturb where `x` is inserted. */
  lemma {:induction false} FilterInsert<T(!new)>(x: T, s: seq<T>, cmp: (T, T) -> int, p: T -> bool)
    requires StrictWeakOrder(cmp) && Sorted(s, cmp)
    ensures Filter(Insert(x, s, cmp), p) == if p(x) then Insert(x, Filter(s, p), cmp) else Filter(s, p)
  {
    if |s| == 0 {
    } else if !Before(cmp, s[0], x) {
      assert Insert(x, s, cmp) == [x] + s;
      var f := Filter(s, p);
      if p(x) && |f| > 0 {
        assert f[0] in s;
        var m :| 0 <= m < |s| && s[m] == f[0];
        assert m == 0 || !Before(cmp, s[m], s[0]);
        assert !Before(cmp, f[0], x);
      }
    } else {
      assert Insert(x, s, cmp) == [s[0]] + Insert(x, s[1..], cmp);
      FilterInsert(x, s[1..], cmp, p);
    }
  }

  /** Filtering commutes with a stable sort. */
  lemma {:induction false} FilterSort<T(!new)>(s: seq<T>, cmp: (T, T) -> int, p: T -> bool)
    requires StrictWeakOrder(cmp)
    ensures Filter(SortBy(s, cmp), p) == SortBy(Filter(s, p), cmp)
  {
    if |s| > 0 {
      FilterSort(s[1..], cmp, p);
      SortSorted(s[1..], cmp);
      FilterInsert(s[0], SortBy(s[1..], cmp), cmp, p);
    }
  }
}
