/** Step 2 of the extraction callback: from the sponsor link, walk up at most
    twelve elements, keep those that hold an image and more than thirty
    characters of text, score them by text length plus a bonus for the word
    "광고" ("ad"), and take the highest score; without a candidate, fall
    back to the link's parent. */
module Container {
  import opened Wrappers
  import opened Text
  import opened Seqs
  import opened StableSort
  import opened Dom

  /** How many elements the walk visits, the link itself included. */
  const MaxSteps: nat := 12
  /** A candidate needs strictly more characters of text than this. */
  const MinTextLength: nat := 30
  /** The sponsor label whose presence earns the bonus. */
  const AdMark: string := "광고"
  const AdMarkBonus: nat := 500

  /** The elements `cur` runs through: the link, then its ancestors, at most `MaxSteps` of them. */
  function Walk(a: Link): (r: seq<Node>)
    ensures |r| == if 1 + |a.ancestors| < MaxSteps then 1 + |a.ancestors| else MaxSteps
    ensures r[0] == a.node
    ensures forall d :: 1 <= d < |r| ==> r[d] == a.ancestors[d - 1]
  {
    Take([a.node] + a.ancestors, MaxSteps)
  }

  predicate IsCandidate(n: Node) {
    HasImg(n) && |PickText(n.elem)| > MinTextLength
  }

  /** `textLen + (hasAdMark ? 500 : 0)` */
  function Score(n: Node): int {
    var t := PickText(n.elem);
    |t| + if Contains(t, AdMark) then AdMarkBonus else 0
  }

  /** An entry of the `candidates` array, with the number of steps from the link. */
  datatype Candidate = Candidate(depth: nat, node: Node, score: int)

  /** `c` records step `c.depth` of the walk `w`, a candidate, with its score. */
  predicate ValidEntry(w: seq<Node>, c: Candidate) {
    c.depth < |w| && c.node == w[c.depth] && IsCandidate(c.node) && c.score == Score(c.node)
  }

  /** Some entry of `cands` records step `d`. */
  predicate Records(cands: seq<Candidate>, d: nat) {
    exists k :: 0 <= k < |cands| && cands[k].depth == d
  }

  /** `cands` holds exactly the candidate elements of the walk, nearest first,
      each with its score. */
  predicate CandidatesOf(w: seq<Node>, cands: seq<Candidate>) {
    && (forall k :: 0 <= k < |cands| ==> ValidEntry(w, cands[k]))
    && (forall k, l :: 0 <= k < l < |cands| ==> cands[k].depth < cands[l].depth)
    && (forall d :: 0 <= d < |w| && IsCandidate(w[d]) ==> Records(cands, d))
  }

  /** The loop `for (let i = 0; i < 12 && cur; i++) { … cur = cur.parentElement; }`. */
  method CollectCandidates(w: seq<Node>) returns (cands: seq<Candidate>)
    ensures CandidatesOf(w, cands)
  {
    cands := [];
    var i := 0;
    while i < |w|
      invariant 0 <= i <= |w|
      invariant CollectedUpTo(w, cands, i)
    {
      if IsCandidate(w[i]) {
        CollectStep(w, cands, i);
        cands := cands + [Candidate(i, w[i], Score(w[i]))];
      }
      i := i + 1;
    }
  }

  /** The loop invariant: `cands` is what the first `i` steps collected. */
  predicate CollectedUpTo(w: seq<Node>, cands: seq<Candidate>, i: nat) {
    && (forall k :: 0 <= k < |cands| ==> ValidEntry(w, cands[k]) && cands[k].depth < i)
    && (forall k, l :: 0 <= k < l < |cands| ==> cands[k].depth < cands[l].depth)
    && (forall d :: 0 <= d < i && d < |w| && IsCandidate(w[d]) ==> Records(cands, d))
  }

  /** A step that finds a candidate appends it and keeps the invariant. */
  lemma CollectStep(w: seq<Node>, cands: seq<Candidate>, i: nat)
    requires i < |w| && CollectedUpTo(w, cands, i) && IsCandidate(w[i])
    ensures CollectedUpTo(w, cands + [Candidate(i, w[i], Score(w[i]))], i + 1)
  {
    var c := Candidate(i, w[i], Score(w[i]));
    CollectStepEntries(w, cands, c, i);
    CollectStepRecords(w, cands, c, i);
  }

  lemma CollectStepEntries(w: seq<Node>, cands: seq<Candidate>, c: Candidate, i: nat)
    requires forall k :: 0 <= k < |cands| ==> ValidEntry(w, cands[k]) && cands[k].depth < i
    requires forall k, l :: 0 <= k < l < |cands| ==> cands[k].depth < cands[l].depth
    requires ValidEntry(w, c) && c.depth == i
    ensures forall k :: 0 <= k < |cands + [c]| ==> ValidEntry(w, (cands + [c])[k]) && (cands + [c])[k].depth < i + 1
    ensures forall k, l :: 0 <= k < l < |cands + [c]| ==> (cands + [c])[k].depth < (cands + [c])[l].depth
  {
    var cands' := cands + [c];
    forall k | 0 <= k < |cands'| ensures ValidEntry(w, cands'[k]) && cands'[k].depth < i + 1 {
      if k < |cands| {
        assert cands'[k] == cands[k];
      }
    }
    forall k, l | 0 <= k < l < |cands'| ensures cands'[k].depth < cands'[l].depth {
      assert cands'[k] == cands[k];
    }
  }

  lemma CollectStepRecords(w: seq<Node>, cands: seq<Candidate>, c: Candidate, i: nat)
    requires forall d :: 0 <= d < i && d < |w| && IsCandidate(w[d]) ==> Records(cands, d)
    requires c.depth == i
    ensures forall d :: 0 <= d < i + 1 && d < |w| && IsCandidate(w[d]) ==> Records(cands + [c], d)
  {
    var cands' := cands + [c];
    forall d | 0 <= d < i + 1 && d < |w| && IsCandidate(w[d]) ensures Records(cands', d) {
      if d == i {
        assert cands'[|cands|].depth == d;
      } else {
        var k :| 0 <= k < |cands| && cands[k].depth == d;
        assert cands'[k].depth == d;
      }
    }
  }

  /** The comparator `(a, b) => b.score - a.score`. */
  function ByScoreDesc(x: Candidate, y: Candidate): int {
    y.score - x.score
  }

  lemma ByScoreDescIsStrictWeakOrder()
    ensures StrictWeakOrder(ByScoreDesc)
  {
  }

  /** `cands[k]` has the highest score, and every earlier entry scores strictly less. */
  predicate TopAt(cands: seq<Candidate>, k: nat) {
    && k < |cands|
    && (forall j :: 0 <= j < |cands| ==> cands[j].score <= cands[k].score)
    && (forall j :: 0 <= j < k ==> cands[j].score < cands[k].score)
  }

  /** `candidates.sort(byScoreDesc)[0]`: the highest score, and among equal
      scores the candidate that was pushed first. */
  function Best(cands: seq<Candidate>): (r: Option<Candidate>)
    ensures r.None? <==> |cands| == 0
    ensures r.Some? ==> exists k: nat :: TopAt(cands, k) && cands[k] == r.value
  {
    var sorted := SortBy(cands, ByScoreDesc);
    if |cands| == 0 then None
    else
      ByScoreDescIsStrictWeakOrder();
      SortHead(cands, ByScoreDesc);
      var k: nat :| FirstBest(cands, ByScoreDesc, k) && sorted[0] == cands[k];
      assert forall j :: 0 <= j < |cands| ==> !Before(ByScoreDesc, cands[j], cands[k]);
      assert TopAt(cands, k);
      Some(sorted[0])
  }

  /** Step `d` of the walk `w` is the candidate the callback keeps: its score
      is the highest, and every nearer candidate scores strictly less. */
  predicate IsBestStep(w: seq<Node>, d: nat) {
    && d < |w| && IsCandidate(w[d])
    && (forall e :: 0 <= e < |w| && IsCandidate(w[e]) ==> Score(w[e]) <= Score(w[d]))
    && (forall e :: 0 <= e < d && IsCandidate(w[e]) ==> Score(w[e]) < Score(w[d]))
  }

  /** No step of the walk `w` is a candidate. */
  predicate NoCandidate(w: seq<Node>) {
    forall d :: 0 <= d < |w| ==> !IsCandidate(w[d])
  }

  /** The entry `Best` picks names the best step of the walk. */
  lemma BestStep(w: seq<Node>, cands: seq<Candidate>, k: nat)
    requires CandidatesOf(w, cands) && TopAt(cands, k)
    ensures IsBestStep(w, cands[k].depth) && cands[k].node == w[cands[k].depth]
  {
    assert ValidEntry(w, cands[k]);
    BestStepAtLeast(w, cands, k);
    BestStepNearer(w, cands, k);
  }

  lemma BestStepAtLeast(w: seq<Node>, cands: seq<Candidate>, k: nat)
    requires CandidatesOf(w, cands) && TopAt(cands, k)
    ensures forall e :: 0 <= e < |w| && IsCandidate(w[e]) ==> Score(w[e]) <= cands[k].score
  {
    forall e | 0 <= e < |w| && IsCandidate(w[e]) ensures Score(w[e]) <= cands[k].score {
      var j :| 0 <= j < |cands| && cands[j].depth == e;
      assert ValidEntry(w, cands[j]);
    }
  }

  lemma BestStepNearer(w: seq<Node>, cands: seq<Candidate>, k: nat)
    requires CandidatesOf(w, cands) && TopAt(cands, k)
    ensures forall e :: 0 <= e < cands[k].depth && IsCandidate(w[e]) ==> Score(w[e]) < cands[k].score
  {
    forall e | 0 <= e < cands[k].depth && IsCandidate(w[e]) ensures Score(w[e]) < cands[k].score {
      var j :| 0 <= j < |cands| && cands[j].depth == e;
      assert ValidEntry(w, cands[j]);
      assert ValidEntry(w, cands[k]);
      assert j < k;
    }
  }

  /** What `Best` returns from the collected candidates is the best step of the walk. */
  lemma BestIsBestStep(w: seq<Node>, cands: seq<Candidate>)
    requires CandidatesOf(w, cands) && Best(cands).Some?
    ensures IsBestStep(w, Best(cands).value.depth) && Best(cands).value.node == w[Best(cands).value.depth]
  {
    var b := Best(cands).value;
    var k: nat :| TopAt(cands, k) && cands[k] == b;
    BestStep(w, cands, k);
  }

  /** At most one step is the best one: the choice does not depend on how ties are broken elsewhere. */
  lemma BestStepUnique(w: seq<Node>, d1: nat, d2: nat)
    requires IsBestStep(w, d1) && IsBestStep(w, d2)
    ensures d1 == d2
  {
  }

  /** Without a candidate, `cur.parentElement` of the link, or nothing. */
  function Parent(a: Link): (r: Option<Node>)
    ensures r.None? <==> |a.ancestors| == 0
    ensures r.Some? ==> r.value == a.ancestors[0]
  {
    if |a.ancestors| > 0 then Some(a.ancestors[0]) else None
  }

  /** The card container: the best candidate step of the walk; otherwise the
      link's parent; `None` when the link has neither (the callback then
      returns `null`). */
  method SelectContainer(a: Link) returns (c: Option<Node>)
    ensures NoCandidate(Walk(a)) ==> c == Parent(a)
    ensures !NoCandidate(Walk(a)) ==> exists d: nat :: IsBestStep(Walk(a), d) && c == Some(Walk(a)[d])
    ensures c.None? <==> NoCandidate(Walk(a)) && |a.ancestors| == 0
  {
    var w := Walk(a);
    var cands := CollectCandidates(w);
    var best := Best(cands);
    if best.Some? {
      BestIsBestStep(w, cands);
      c := Some(best.value.node);
      assert !NoCandidate(w);
    } else {
      assert NoCandidate(w);
      c := Parent(a);
    }
  }
}
