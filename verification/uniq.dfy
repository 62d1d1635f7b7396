/** The `uniq` helper of the extraction callback: trim every string, drop
    the empty ones, and keep each remaining value once, in the order a
    JavaScript `Set` remembers insertions. */
module Unique {
  import opened Text
  import opened Seqs

  /** `[...new Set(s)]`: walks `s` left to right and appends a value the
      set (`seen`) does not hold yet. */
  function DedupeFrom<T(==)>(s: seq<T>, seen: set<T>): (r: seq<T>)
    ensures Distinct(r)
    ensures forall i :: 0 <= i < |r| ==> r[i] in s && r[i] !in seen
    ensures forall i :: 0 <= i < |s| && s[i] !in seen ==> s[i] in r
    ensures IsSubseq(r, s)
  {
    if |s| == 0 then []
    else if s[0] in seen then DedupeFrom(s[1..], seen)
    else [s[0]] + DedupeFrom(s[1..], seen + {s[0]})
  }

  function Dedupe<T(==)>(s: seq<T>): seq<T> {
    DedupeFrom(s, {})
  }

  /** Past a different first element, first occurrences shift by one. */
  lemma IndexOfTail<T>(s: seq<T>, x: T)
    requires |s| > 0 && x in s[1..] && x != s[0]
    ensures IndexOf(s, x) == 1 + IndexOf(s[1..], x)
  {
  }

  /** First-occurrence order survives putting back a first element that the rest avoids. */
  lemma ConsFirstOccurrence<T>(s: seq<T>, t: seq<T>)
    requires |s| > 0
    requires InFirstOccurrenceOrder(t, s[1..])
    requires forall k :: 0 <= k < |t| ==> t[k] != s[0]
    ensures InFirstOccurrenceOrder(t, s)
    ensures InFirstOccurrenceOrder([s[0]] + t, s)
  {
    forall k | 0 <= k < |t| ensures IndexOf(s, t[k]) == 1 + IndexOf(s[1..], t[k]) {
      IndexOfTail(s, t[k]);
    }
    var r := [s[0]] + t;
    forall i, j | 0 <= i < j < |r| ensures IndexOf(s, r[i]) < IndexOf(s, r[j]) {
      assert r[j] == t[j - 1];
      if i > 0 {
        assert r[i] == t[i - 1];
      }
    }
  }

  /** Values leave the set in the order of their first occurrence in the input. */
  lemma {:induction false} DedupeFromFirstOccurrence<T>(s: seq<T>, seen: set<T>)
    ensures InFirstOccurrenceOrder(DedupeFrom(s, seen), s)
  {
    if |s| > 0 {
      var seen' := if s[0] in seen then seen else seen + {s[0]};
      var t := DedupeFrom(s[1..], seen');
      DedupeFromFirstOccurrence(s[1..], seen');
      ConsFirstOccurrence(s, t);
    }
  }

  /** The set never skips a value: every input ahead of the first occurrence
      of a kept value was seen already or was kept before it. */
  lemma {:induction false} DedupeFromNoSkip<T>(s: seq<T>, seen: set<T>, k: nat, j: nat)
    requires k < |DedupeFrom(s, seen)| && j < IndexOf(s, DedupeFrom(s, seen)[k])
    ensures s[j] in seen || s[j] in DedupeFrom(s, seen)[..k]
    decreases |s|, 1
  {
    if s[0] in seen {
      if j > 0 {
        NoSkipPastSeen(s, seen, k, j);
      }
    } else {
      NoSkipPastKept(s, seen, k, j);
    }
  }

  /** The first input is in the set: it is dropped, and the rest decides. */
  lemma {:induction false} NoSkipPastSeen<T>(s: seq<T>, seen: set<T>, k: nat, j: nat)
    requires |s| > 0 && s[0] in seen && j > 0
    requires k < |DedupeFrom(s, seen)| && j < IndexOf(s, DedupeFrom(s, seen)[k])
    ensures s[j] in seen || s[j] in DedupeFrom(s, seen)[..k]
    decreases |s|, 0
  {
    var r := DedupeFrom(s, seen);
    assert r == DedupeFrom(s[1..], seen);
    IndexOfTail(s, r[k]);
    DedupeFromNoSkip(s[1..], seen, k, j - 1);
  }

  /** The first input is new: it is kept first, and the rest decides with it in the set. */
  lemma {:induction false} NoSkipPastKept<T>(s: seq<T>, seen: set<T>, k: nat, j: nat)
    requires |s| > 0 && s[0] !in seen
    requires k < |DedupeFrom(s, seen)| && j < IndexOf(s, DedupeFrom(s, seen)[k])
    ensures s[j] in seen || s[j] in DedupeFrom(s, seen)[..k]
    decreases |s|, 0
  {
    var r := DedupeFrom(s, seen);
    var r' := DedupeFrom(s[1..], seen + {s[0]});
    assert r == [s[0]] + r';
    if k > 0 {
      var x := r'[k - 1];
      assert r[k] == x && r[..k] == [s[0]] + r'[..k - 1];
      assert x in s[1..] && x != s[0];
      IndexOfTail(s, x);
      if j == 0 {
        assert r[..k][0] == s[0];
      } else {
        DedupeFromNoSkip(s[1..], seen + {s[0]}, k - 1, j - 1);
        assert s[j] == s[1..][j - 1];
      }
    }
  }

  /** A sequence without repetitions, none of whose values is in the set yet, passes unchanged. */
  lemma {:induction false} DedupeFromDistinct<T>(s: seq<T>, seen: set<T>)
    requires Distinct(s)
    requires forall i :: 0 <= i < |s| ==> s[i] !in seen
    ensures DedupeFrom(s, seen) == s
  {
    if |s| > 0 {
      assert forall i :: 1 <= i < |s| ==> s[i] != s[0];
      DedupeFromDistinct(s[1..], seen + {s[0]});
    }
  }

  predicate NonEmpty(s: string) {
    s != ""
  }

  /** `arr.map((s) => s.trim()).filter(Boolean)`. */
  function TrimmedNonEmpty(arr: seq<string>): seq<string> {
    Filter(Map(arr, Trim), NonEmpty)
  }

  /** `uniq(arr)` of the extraction callback. */
  function Uniq(arr: seq<string>): (r: seq<string>)
    ensures Distinct(r)
    ensures forall i :: 0 <= i < |r| ==> r[i] in TrimmedNonEmpty(arr)
  {
    Dedupe(TrimmedNonEmpty(arr))
  }

  /** `uniq` keeps exactly the trimmed, non-empty values: each of its values is
      some input trimmed, and each input that trims to a non-empty string is there. */
  lemma UniqMembers(arr: seq<string>)
    ensures forall i :: 0 <= i < |Uniq(arr)| ==> IsTrimmed(Uniq(arr)[i]) && Uniq(arr)[i] != ""
    ensures forall i :: 0 <= i < |Uniq(arr)| ==> exists j :: 0 <= j < |arr| && Trim(arr[j]) == Uniq(arr)[i]
    ensures forall j :: 0 <= j < |arr| && Trim(arr[j]) != "" ==> Trim(arr[j]) in Uniq(arr)
  {
    UniqKeepsTrimmedInputs(arr);
    var t := TrimmedNonEmpty(arr);
    var m := Map(arr, Trim);
    var r := Uniq(arr);
    assert forall i :: 0 <= i < |r| ==> r[i] in t && r[i] in m;
  }

  lemma UniqKeepsTrimmedInputs(arr: seq<string>)
    ensures forall j :: 0 <= j < |arr| && Trim(arr[j]) != "" ==> Trim(arr[j]) in Uniq(arr)
  {
    var t := TrimmedNonEmpty(arr);
    var m := Map(arr, Trim);
    assert forall j :: 0 <= j < |arr| && Trim(arr[j]) != "" ==> m[j] in t;
  }

  /** The values `uniq` returns follow the first occurrence of each among the trimmed, non-empty inputs. */
  lemma UniqFirstOccurrence(arr: seq<string>)
    ensures InFirstOccurrenceOrder(Uniq(arr), TrimmedNonEmpty(arr))
  {
    var t := TrimmedNonEmpty(arr);
    assert Uniq(arr) == DedupeFrom(t, {});
    DedupeFromFirstOccurrence(t, {});
  }

  /** On strings that are already trimmed and non-empty, `uniq` only removes
      repetitions, so its result keeps their order. */
  lemma UniqOfTrimmed(arr: seq<string>)
    requires forall i :: 0 <= i < |arr| ==> IsTrimmed(arr[i]) && arr[i] != ""
    ensures Uniq(arr) == Dedupe(arr)
    ensures IsSubseq(Uniq(arr), arr)
  {
    forall i | 0 <= i < |arr| ensures Trim(arr[i]) == arr[i] {
      TrimFixedPoint(arr[i]);
    }
    assert Map(arr, Trim) == arr;
    FilterAll(arr, NonEmpty);
  }

  /** Applying `uniq` twice is the same as applying it once. */
  lemma UniqIdempotent(arr: seq<string>)
    ensures Uniq(Uniq(arr)) == Uniq(arr)
  {
    var u := Uniq(arr);
    UniqOfTrimmed(u);
    DedupeFromDistinct(u, {});
  }
  /** On trimmed, non-empty strings, `map(trim).filter(Boolean)` changes nothing. */
  lemma TrimmedNonEmptyOfTrimmed(arr: seq<string>)
    requires forall i :: 0 <= i < |arr| ==> IsTrimmed(arr[i]) && arr[i] != ""
    ensures TrimmedNonEmpty(arr) == arr
  {
    UniqOfTrimmed(arr);
    forall i | 0 <= i < |arr| ensures Trim(arr[i]) == arr[i] {
      TrimFixedPoint(arr[i]);
    }
    assert Map(arr, Trim) == arr;
    FilterAll(arr, NonEmpty);
  }

  /** A prefix keeps first-occurrence order. */
  lemma FirstOccurrencePrefix<T>(r: seq<T>, s: seq<T>, n: nat)
    requires InFirstOccurrenceOrder(r, s) && n <= |r|
    ensures InFirstOccurrenceOrder(r[..n], s)
  {
    assert forall i :: 0 <= i < n ==> r[..n][i] == r[i];
  }

  /** `uniq(arr).slice(0, n)` on trimmed, non-empty strings keeps at most `n`
      distinct values, all taken from `arr`. */
  lemma UniqPrefixMembers(arr: seq<string>, n: nat)
    requires forall i :: 0 <= i < |arr| ==> IsTrimmed(arr[i]) && arr[i] != ""
    ensures |Take(Uniq(arr), n)| <= n && Distinct(Take(Uniq(arr), n))
    ensures forall i :: 0 <= i < |Take(Uniq(arr), n)| ==> Take(Uniq(arr), n)[i] in arr
  {
    UniqOfTrimmed(arr);
    SubseqOfPrefix(Uniq(arr), arr, |Take(Uniq(arr), n)|);
    SubseqMembers(Take(Uniq(arr), n), arr);
  }

  /** `uniq(arr).slice(0, n)` on trimmed, non-empty strings: the distinct
      values in order of first appearance, and all of them when fewer than `n`
      are kept. */
  lemma UniqPrefixFirstDistinct(arr: seq<string>, n: nat)
    requires forall i :: 0 <= i < |arr| ==> IsTrimmed(arr[i]) && arr[i] != ""
    ensures IsSubseq(Take(Uniq(arr), n), arr)
    ensures InFirstOccurrenceOrder(Take(Uniq(arr), n), arr)
    ensures |Take(Uniq(arr), n)| < n ==> forall j :: 0 <= j < |arr| ==> arr[j] in Take(Uniq(arr), n)
  {
    var u := Uniq(arr);
    var r := Take(u, n);
    UniqOfTrimmed(arr);
    SubseqOfPrefix(u, arr, |r|);
    UniqFirstOccurrence(arr);
    TrimmedNonEmptyOfTrimmed(arr);
    FirstOccurrencePrefix(u, arr, |r|);
    forall j | 0 <= j < |arr| ensures Trim(arr[j]) == arr[j] {
      TrimFixedPoint(arr[j]);
    }
  }

  /** A prefix of `[...new Set(s)]` skips nothing: every input ahead of the
      first occurrence of a kept value is kept too. */
  lemma DedupePrefixNoSkip<T>(s: seq<T>, n: nat)
    ensures forall k :: 0 <= k < |Take(Dedupe(s), n)| ==> Take(Dedupe(s), n)[k] in s
    ensures forall k, j :: 0 <= k < |Take(Dedupe(s), n)| && 0 <= j < IndexOf(s, Take(Dedupe(s), n)[k]) ==>
      s[j] in Take(Dedupe(s), n)
  {
    var u := Dedupe(s);
    var r := Take(u, n);
    forall k, j | 0 <= k < |r| && 0 <= j < IndexOf(s, r[k]) ensures s[j] in r {
      DedupeFromNoSkip(s, {}, k, j);
      assert u[..k] == r[..k];
    }
  }

  /** `uniq(arr).slice(0, n)` on trimmed, non-empty strings skips nothing:
      every string ahead of the first occurrence of a kept value is kept too,
      so the kept values are the first `n` distinct ones. */
  lemma UniqPrefixNoSkip(arr: seq<string>, n: nat)
    requires forall i :: 0 <= i < |arr| ==> IsTrimmed(arr[i]) && arr[i] != ""
    ensures forall k :: 0 <= k < |Take(Uniq(arr), n)| ==> Take(Uniq(arr), n)[k] in arr
    ensures forall k, j :: 0 <= k < |Take(Uniq(arr), n)| && 0 <= j < IndexOf(arr, Take(Uniq(arr), n)[k]) ==>
      arr[j] in Take(Uniq(arr), n)
  {
    UniqOfTrimmed(arr);
    DedupePrefixNoSkip(arr, n);
  }
}
