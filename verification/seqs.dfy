/** The array combinators the extraction code chains together: `filter`,
    `map`, `slice(0, n)`, and the notions of order they keep. */
module Seqs {

  /** `arr.filter(p)`: the elements satisfying `p`, in their original order,
      each as often as it occurs. */
  function Filter<T(==)>(s: seq<T>, p: T -> bool): (r: seq<T>)
    ensures |r| <= |s|
    ensures forall i :: 0 <= i < |r| ==> r[i] in s && p(r[i])
    ensures forall i :: 0 <= i < |s| && p(s[i]) ==> s[i] in r
    ensures IsSubseq(r, s)
  {
    if |s| == 0 then []
    else if p(s[0]) then [s[0]] + Filter(s[1..], p)
    else Filter(s[1..], p)
  }

  /** `filter` keeps every passing element as often as it occurs, and drops
      every other one: with the membership clause of `Filter`, this fixes the
      multiset of the result. */
  lemma {:induction false} FilterCount<T>(s: seq<T>, p: T -> bool)
    ensures forall i :: 0 <= i < |s| ==> multiset(Filter(s, p))[s[i]] == if p(s[i]) then multiset(s)[s[i]] else 0
  {
    if |s| > 0 {
      FilterCount(s[1..], p);
      forall i | 0 <= i < |s|
        ensures multiset(Filter(s, p))[s[i]] == if p(s[i]) then multiset(s)[s[i]] else 0
      {
        FilterCountStep(s, p, s[i]);
      }
    }
  }

  /** One step of `FilterCount`: the count of `x` after putting back the first element. */
  lemma FilterCountStep<T>(s: seq<T>, p: T -> bool, x: T)
    requires |s| > 0 && x in s
    requires forall i :: 0 <= i < |s[1..]| ==> multiset(Filter(s[1..], p))[s[1..][i]] == if p(s[1..][i]) then multiset(s[1..])[s[1..][i]] else 0
    ensures multiset(Filter(s, p))[x] == if p(x) then multiset(s)[x] else 0
  {
    var t := s[1..];
    var r' := Filter(t, p);
    assert s == [s[0]] + t;
    assert multiset(s) == multiset{s[0]} + multiset(t);
    assert multiset(Filter(s, p)) == if p(s[0]) then multiset{s[0]} + multiset(r') else multiset(r');
    if x in t {
      var m :| 0 <= m < |t| && t[m] == x;
    } else {
      assert multiset(r')[x] == 0;
    }
  }

  /** `arr.map(f)`. */
  function Map<T, U>(s: seq<T>, f: T -> U): (r: seq<U>)
    ensures |r| == |s|
    ensures forall i :: 0 <= i < |s| ==> r[i] == f(s[i])
  {
    seq(|s|, i requires 0 <= i < |s| => f(s[i]))
  }

  /** `arr.slice(0, n)` for a non-negative `n`. */
  function Take<T>(s: seq<T>, n: nat): (r: seq<T>)
    ensures |r| <= n && |r| <= |s|
    ensures |r| == n || r == s
    ensures r == s[..|r|]
  {
    if n <= |s| then s[..n] else s
  }

  /** `a` can be obtained from `b` by deleting elements: its order is `b`'s order. */
  predicate IsSubseq<T(==)>(a: seq<T>, b: seq<T>)
    decreases |b|
  {
    |a| == 0 || (|b| > 0 && ((a[0] == b[0] && IsSubseq(a[1..], b[1..])) || IsSubseq(a, b[1..])))
  }

  /** No element occurs twice. */
  predicate Distinct<T(==)>(s: seq<T>) {
    forall i, j :: 0 <= i < j < |s| ==> s[i] != s[j]
  }

  /** Position of the first occurrence of `x` in `s`. */
  function IndexOf<T(==)>(s: seq<T>, x: T): (i: nat)
    requires x in s
    ensures i < |s| && s[i] == x && x !in s[..i]
  {
    if s[0] == x then 0
    else
      var k := IndexOf(s[1..], x);
      assert s[..k + 1] == [s[0]] + s[1..][..k];
      k + 1
  }

  /** The elements of `r` occur in `s`, and `r` lists them in the order of their first occurrence there. */
  predicate InFirstOccurrenceOrder<T(==)>(r: seq<T>, s: seq<T>) {
    && (forall i :: 0 <= i < |r| ==> r[i] in s)
    && (forall i, j :: 0 <= i < j < |r| ==> IndexOf(s, r[i]) < IndexOf(s, r[j]))
  }

  /** Every element of `s` passes `p`. */
  predicate All<T>(s: seq<T>, p: T -> bool) {
    forall i :: 0 <= i < |s| ==> p(s[i])
  }

  /** Filtering with a predicate every element already passes changes nothing. */
  lemma {:induction false} FilterAll<T>(s: seq<T>, p: T -> bool)
    requires All(s, p)
    ensures Filter(s, p) == s
  {
    if |s| > 0 {
      FilterAll(s[1..], p);
    }
  }

  /** A prefix of a subsequence is a subsequence. */
  lemma {:induction false} SubseqOfPrefix<T>(a: seq<T>, b: seq<T>, n: nat)
    requires IsSubseq(a, b) && n <= |a|
    ensures IsSubseq(a[..n], b)
    decreases |b|
  {
    if n > 0 {
      if a[0] == b[0] && IsSubseq(a[1..], b[1..]) {
        SubseqOfPrefix(a[1..], b[1..], n - 1);
        assert a[..n][1..] == a[1..][..n - 1];
      } else {
        SubseqOfPrefix(a, b[1..], n);
      }
    }
  }

  /** Deleting elements twice is deleting elements once. */
  lemma {:induction false} SubseqTrans<T>(a: seq<T>, b: seq<T>, c: seq<T>)
    requires IsSubseq(a, b) && IsSubseq(b, c)
    ensures IsSubseq(a, c)
    decreases |c|
  {
    if |a| > 0 {
      if b[0] == c[0] && IsSubseq(b[1..], c[1..]) {
        if a[0] == b[0] && IsSubseq(a[1..], b[1..]) {
          SubseqTrans(a[1..], b[1..], c[1..]);
        } else {
          SubseqTrans(a, b[1..], c[1..]);
        }
      } else {
        SubseqTrans(a, b, c[1..]);
      }
    }
  }

  /** Every element of a subsequence occurs in the sequence it was taken from. */
  lemma {:induction false} SubseqMembers<T>(a: seq<T>, b: seq<T>)
    requires IsSubseq(a, b)
    ensures forall i :: 0 <= i < |a| ==> a[i] in b
    decreases |b|
  {
    if |a| > 0 {
      if a[0] == b[0] && IsSubseq(a[1..], b[1..]) {
        SubseqMembers(a[1..], b[1..]);
        assert forall i :: 1 <= i < |a| ==> a[i] == a[1..][i - 1];
      } else {
        SubseqMembers(a, b[1..]);
      }
    }
  }
}
