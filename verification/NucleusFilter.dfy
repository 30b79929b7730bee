/** `apply_top_p` of `sampling.rs`: the nucleus filter that compares every probability with the
    smallest one kept by a descending cumulative sum. The softmax probabilities of the logits and the
    result of `argsort` are inputs. */
module NucleusFilter {
  import opened Sequences
  import opened SparseSampling
  import opened SparseRows
  import opened SpeculativeExactness

  datatype Filter = Unchanged | Invalid | Mask(keep: seq<bool>)

  const EPSILON: real := 0.0000000001

  /** What `argsort` of the negated log-probabilities may return: any permutation of the tokens that
      lists their probabilities in descending order. */
  ghost predicate DescendingOrder(probs: seq<real>, order: seq<int>) {
    && |order| == |probs|
    && Distinct(order)
    && (forall k :: 0 <= k < |order| ==> 0 <= order[k] < |probs|)
    && (forall i :: 0 <= i < |probs| ==> i in order)
    && (forall j, k :: 0 <= j < k < |order| ==> probs[order[j]] >= probs[order[k]])
  }

  ghost predicate Distribution(probs: seq<real>) {
    && |probs| > 0
    && (forall i :: 0 <= i < |probs| ==> 0.0 <= probs[i] <= 1.0)
    && Mass(probs, |probs|) == 1.0
  }

  function Gather(probs: seq<real>, order: seq<int>): (s: seq<real>)
    requires forall k :: 0 <= k < |order| ==> 0 <= order[k] < |probs|
    ensures |s| == |order|
  {
    seq(|order|, k requires 0 <= k < |order| => probs[order[k]])
  }

  function MinOf(s: seq<real>): (m: real)
    requires |s| > 0
    ensures m in s && forall k :: 0 <= k < |s| ==> m <= s[k]
  {
    if |s| == 1 then s[0] else Min(s[0], MinOf(s[1..]))
  }

  /** The smallest probability kept by the cumulative sum; dropped entries count as 2. */
  function MinKept(sorted: seq<real>, p: real): real
    requires |sorted| > 0
  {
    MinOf(seq(|sorted|, k requires 0 <= k < |sorted| => if Mass(sorted, k) < p then sorted[k] else 2.0))
  }

  function ApplyTopP(probs: seq<real>, order: seq<int>, p: real): Filter
    requires |probs| > 0 && |order| == |probs|
    requires forall k :: 0 <= k < |order| ==> 0 <= order[k] < |probs|
  {
    if p >= 1.0 then Unchanged
    else if p <= 0.0 then Invalid
    else
      var least := MinKept(Gather(probs, order), p);
      Mask(seq(|probs|, i requires 0 <= i < |probs| => probs[i] >= least - EPSILON))
  }

  /** The smallest kept probability is the last one of the shortest descending prefix reaching `p`. */
  lemma MinKeptIsLast(sorted: seq<real>, p: real, n: nat)
    requires 0.0 < p && ShortestReaching(sorted, p, n)
    requires forall k :: 0 <= k < |sorted| ==> 0.0 <= sorted[k] <= 1.0
    requires forall j, k :: 0 <= j < k < |sorted| ==> sorted[j] >= sorted[k]
    ensures MinKept(sorted, p) == sorted[n - 1]
  {
    var kept := seq(|sorted|, k requires 0 <= k < |sorted| => if Mass(sorted, k) < p then sorted[k] else 2.0);
    assert kept[n - 1] == sorted[n - 1];
    forall k | 0 <= k < |kept| ensures sorted[n - 1] <= kept[k] {
      if n <= k { MassMonotone(sorted, n, k); }
    }
  }

  /** The length of the nucleus: the shortest descending prefix whose mass reaches `p`. */
  ghost function NucleusSize(b: seq<real>, p: real, n: nat): (r: nat)
    requires 1 <= n <= |b| && forall m :: 1 <= m < n ==> Mass(b, m) < p
    ensures ShortestReaching(b, p, r)
    decreases |b| - n
  {
    if n == |b| || Mass(b, n) >= p then n else NucleusSize(b, p, n + 1)
  }

  /** The filter keeps the nucleus, whose mass reaches `p`, and beyond it only tokens within the
      tolerance of the nucleus's smallest probability. */
  lemma KeepsTheNucleus(probs: seq<real>, order: seq<int>, p: real)
    requires Distribution(probs) && DescendingOrder(probs, order) && 0.0 < p < 1.0
    ensures var keep := ApplyTopP(probs, order, p).keep;
            var sorted := Gather(probs, order);
            var n := NucleusSize(sorted, p, 1);
            && |keep| == |probs|
            && (forall k :: 0 <= k < n ==> keep[order[k]])
            && (forall i :: 0 <= i < |probs| ==> (keep[i] <==> probs[i] >= sorted[n - 1] - 0.0000000001))
            && (forall k :: n <= k < |order| ==> probs[order[k]] <= sorted[n - 1])
            && Mass(sorted, n) >= p
  {
    hide MinKept, Mass, NucleusSize;
    var sorted := Gather(probs, order);
    var n := NucleusSize(sorted, p, 1);
    MinKeptIsLast(sorted, p, n);
    SortedMass(probs, order);
  }

  /** A `p` of one or more filters nothing, and one that is not positive is refused. */
  lemma FiltersExactlyWhen(probs: seq<real>, order: seq<int>, p: real)
    requires |probs| > 0 && DescendingOrder(probs, order)
    ensures ApplyTopP(probs, order, p) == Unchanged <==> p >= 1.0
    ensures ApplyTopP(probs, order, p) == Invalid <==> p <= 0.0
  {
    hide MinKept;
  }

  /** The law of a filtered token: its probability if it is kept. */
  ghost function KeptLaw(probs: seq<real>, keep: seq<bool>): int -> real
    requires |keep| == |probs|
  {
    x => if 0 <= x < |probs| && keep[x] then probs[x] else 0.0
  }

  lemma SumInOrder(probs: seq<real>, keep: seq<bool>, order: seq<int>)
    requires |keep| == |probs| && DescendingOrder(probs, order)
    ensures SupportSum(order, |order|, KeptLaw(probs, keep)) == VocabSum(|probs|, KeptLaw(probs, keep))
  {
    assert order[..|order|] == order;
    SupportIsVocab(order, |order|, KeptLaw(probs, keep), |probs|);
  }

  lemma {:induction false} VocabSumIsMass(probs: seq<real>, g: int -> real, n: nat)
    requires n <= |probs| && forall i :: 0 <= i < n ==> g(i) == Positive(probs[i])
    ensures VocabSum(n, g) == Mass(probs, n)
  {
    if n > 0 { VocabSumIsMass(probs, g, n - 1); }
  }

  /** Sorting moves no mass. */
  lemma SortedMass(probs: seq<real>, order: seq<int>)
    requires Distribution(probs) && DescendingOrder(probs, order)
    ensures Mass(Gather(probs, order), |order|) == 1.0
  {
    var all := seq(|probs|, i => true);
    SumInOrder(probs, all, order);
    VocabSumIsMass(probs, KeptLaw(probs, all), |probs|);
    SupportSumIsMass(order, |order|, KeptLaw(probs, all), Gather(probs, order));
  }

  /** The tokens that survive the filter carry at least mass `p`. */
  lemma KeptMassReachesP(probs: seq<real>, order: seq<int>, p: real)
    requires Distribution(probs) && DescendingOrder(probs, order) && 0.0 < p < 1.0
    ensures |ApplyTopP(probs, order, p).keep| == |probs|
    ensures VocabSum(|probs|, KeptLaw(probs, ApplyTopP(probs, order, p).keep)) >= p
  {
    KeepsTheNucleus(probs, order, p);
    var keep, sorted := ApplyTopP(probs, order, p).keep, Gather(probs, order);
    var n := NucleusSize(sorted, p, 1);
    SumInOrder(probs, keep, order);
    SupportSumIsMass(order, n, KeptLaw(probs, keep), sorted);
    SupportSumGrows(order, KeptLaw(probs, keep), n, |order|);
  }

  lemma SupportSumGrows(ids: seq<int>, g: int -> real, m: nat, n: nat)
    requires m <= n <= |ids| && forall k :: 0 <= k < n ==> 0.0 <= g(ids[k])
    ensures SupportSum(ids, m, g) <= SupportSum(ids, n, g)
    decreases n
  {
    if m < n { SupportSumGrows(ids, g, m, n - 1); }
  }

  // ---------------------------------------------------------------- ties do not matter

  ghost function Elements(ids: seq<int>): set<int> {
    set x | x in ids
  }

  lemma {:induction false} DistinctSize(ids: seq<int>)
    ensures |Elements(ids)| <= |ids|
    ensures Distinct(ids) ==> |Elements(ids)| == |ids|
  {
    if ids != [] {
      var init, last := ids[..|ids| - 1], ids[|ids| - 1];
      DistinctSize(init);
      assert ids == init + [last];
      assert Elements(ids) == Elements(init) + {last};
    }
  }

  /** Position `k` of one descending order cannot hold more than position `k` of another. */
  lemma NoHigher(probs: seq<real>, order: seq<int>, other: seq<int>, k: nat)
    requires DescendingOrder(probs, order) && DescendingOrder(probs, other) && k < |probs|
    ensures probs[order[k]] <= probs[other[k]]
  {
    if probs[order[k]] > probs[other[k]] {
      var a, b := Elements(order[..k + 1]), Elements(other[..k]);
      forall x | x in a ensures x in b {
        var i :| 0 <= i <= k && order[i] == x;
        assert x in other;
        var j :| 0 <= j < |other| && other[j] == x;
        assert probs[order[i]] >= probs[order[k]];
        assert j < k;
        assert other[..k][j] == x;
      }
      DistinctSize(order[..k + 1]);
      DistinctSize(other[..k]);
      SubsetSize(a, b);
    }
  }

  lemma SubsetSize(a: set<int>, b: set<int>)
    requires a <= b
    ensures |a| <= |b|
  {
    assert b == a + (b - a);
  }

  /** The filter does not depend on how the sort breaks ties. */
  lemma TiesDoNotMatter(probs: seq<real>, order: seq<int>, other: seq<int>, p: real)
    requires |probs| > 0 && DescendingOrder(probs, order) && DescendingOrder(probs, other)
    ensures ApplyTopP(probs, order, p) == ApplyTopP(probs, other, p)
  {
    forall k | 0 <= k < |probs| ensures Gather(probs, order)[k] == Gather(probs, other)[k] {
      NoHigher(probs, order, other, k);
      NoHigher(probs, other, order, k);
    }
    assert Gather(probs, order) == Gather(probs, other);
  }
}
