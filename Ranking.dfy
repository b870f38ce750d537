/**
 * The selection rule of `VectorDB.search`, over abstract similarity scores:
 * `np.argsort(similarities)[-top_k:][::-1]`, then only the indices whose score
 * exceeds 0.1, in that order.
 */
module Ranking {

  /**
   * Scores at or below this are never returned. Scores are the similarities
   * (doubles) under an order-preserving map that sends the double `0.1` here.
   */
  const Threshold: real := 0.1

  /** Every entry of `s` is an index below `n`. */
  predicate InRange(s: seq<nat>, n: nat)
  {
    forall p :: 0 <= p < |s| ==> s[p] < n
  }

  /** No index occurs twice in `s`. */
  predicate Distinct(s: seq<nat>)
  {
    forall p, q :: 0 <= p < q < |s| ==> s[p] != s[q]
  }

  /** The indices of `s` come in non-increasing score order. */
  predicate BestFirst(scores: seq<real>, s: seq<nat>)
    requires InRange(s, |scores|)
  {
    forall p, q :: 0 <= p < q < |s| ==> scores[s[p]] >= scores[s[q]]
  }

  /** Every index of `s` scores above the threshold. */
  predicate AllAbove(scores: seq<real>, s: seq<nat>)
    requires InRange(s, |scores|)
  {
    forall p :: 0 <= p < |s| ==> scores[s[p]] > Threshold
  }

  /** No index outside `s` scores strictly higher than an index in `s`. */
  predicate NoneBetterLeftOut(scores: seq<real>, s: seq<nat>)
    requires InRange(s, |scores|)
  {
    forall j, p :: 0 <= j < |scores| && j !in s && 0 <= p < |s| ==> scores[j] <= scores[s[p]]
  }

  /**
   * What `np.argsort(scores)` returns: a permutation of the score indices that
   * orders the scores ascending. The sort is not stable, so tied scores may come in
   * any order; every such order is allowed here.
   */
  predicate IsArgsort(scores: seq<real>, order: seq<nat>)
  {
    && |order| == |scores|
    && InRange(order, |scores|)
    && Distinct(order)
    && (forall j :: 0 <= j < |scores| ==> j in order)
    && (forall p, q :: 0 <= p < q < |order| ==> scores[order[p]] <= scores[order[q]])
  }

  /**
   * Where Python's slice `s[-k:]` starts in a list of length `n`: `n - k` (at least 0)
   * for `k > 0`, but `min(-k, n)` otherwise, so `k == 0` keeps the whole list.
   */
  function SuffixStart(n: nat, k: int): (start: nat)
    ensures start <= n
  {
    if k > 0 then (if k >= n then 0 else n - k)
    else (if -k >= n then n else -k)
  }

  /** How many indices `[-k:]` keeps out of `n`. */
  function SelectedCount(n: nat, k: int): (count: nat)
    ensures count <= n
    ensures k >= 1 ==> count == if k < n then k else n
    ensures k == 0 ==> count == n
  {
    n - SuffixStart(n, k)
  }

  /** `s[::-1]`. */
  function Reverse(s: seq<nat>): (r: seq<nat>)
    ensures |r| == |s|
    ensures forall p :: 0 <= p < |s| ==> r[p] == s[|s| - 1 - p]
  {
    if s == [] then [] else Reverse(s[1..]) + [s[0]]
  }

  /** `np.argsort(scores)[-top_k:][::-1]`: the candidate indices, best first. */
  function TopIndices(order: seq<nat>, topK: int): (top: seq<nat>)
    ensures |top| == SelectedCount(|order|, topK)
    ensures forall p :: 0 <= p < |top| ==> top[p] == order[|order| - 1 - p]
  {
    Reverse(order[SuffixStart(|order|, topK)..])
  }

  /** The indices of `idx` whose score exceeds the threshold, in their order in `idx`. */
  function AboveThreshold(scores: seq<real>, idx: seq<nat>): (r: seq<nat>)
    requires InRange(idx, |scores|)
    ensures |r| <= |idx|
    ensures InRange(r, |scores|)
    ensures forall x :: x in r <==> x in idx && scores[x] > Threshold
  {
    if idx == [] then []
    else
      var last := idx[|idx| - 1];
      AboveThreshold(scores, idx[..|idx| - 1]) + if scores[last] > Threshold then [last] else []
  }

  /** Filtering one more index at the end. */
  lemma AboveThresholdSnoc(scores: seq<real>, idx: seq<nat>, x: nat)
    requires InRange(idx, |scores|) && x < |scores|
    ensures InRange(idx + [x], |scores|)
    ensures AboveThreshold(scores, idx + [x]) == AboveThreshold(scores, idx) + if scores[x] > Threshold then [x] else []
  {
    assert (idx + [x])[..|idx|] == idx;
  }

  /** The store indices `search` returns, in the order it returns them. */
  function Selected(scores: seq<real>, order: seq<nat>, topK: int): (sel: seq<nat>)
    requires IsArgsort(scores, order)
    ensures InRange(sel, |scores|)
  {
    AboveThreshold(scores, TopIndices(order, topK))
  }

  /** Filtering keeps distinct indices distinct. */
  lemma {:induction false} AboveThresholdDistinct(scores: seq<real>, idx: seq<nat>)
    requires InRange(idx, |scores|) && Distinct(idx)
    ensures Distinct(AboveThreshold(scores, idx))
  {
    if idx != [] {
      var init, last := idx[..|idx| - 1], idx[|idx| - 1];
      AboveThresholdDistinct(scores, init);
      assert last !in AboveThreshold(scores, init) by {
        forall p | 0 <= p < |init| ensures init[p] != last {
          assert init[p] == idx[p];
        }
      }
    }
  }

  /** In a best-first list, everything before the last index scores at least as high as it. */
  lemma BestFirstLast(scores: seq<real>, idx: seq<nat>)
    requires idx != [] && InRange(idx, |scores|) && BestFirst(scores, idx)
    ensures forall x :: x in idx[..|idx| - 1] ==> scores[x] >= scores[idx[|idx| - 1]]
  {
    forall x | x in idx[..|idx| - 1] ensures scores[x] >= scores[idx[|idx| - 1]] {
      var k :| 0 <= k < |idx| - 1 && idx[..|idx| - 1][k] == x;
      assert idx[k] == x;
    }
  }

  /** Filtering a best-first list leaves it best first. */
  lemma {:induction false} AboveThresholdBestFirst(scores: seq<real>, idx: seq<nat>)
    requires InRange(idx, |scores|) && BestFirst(scores, idx)
    ensures BestFirst(scores, AboveThreshold(scores, idx))
  {
    if idx != [] {
      var init, last := idx[..|idx| - 1], idx[|idx| - 1];
      AboveThresholdBestFirst(scores, init);
      BestFirstLast(scores, idx);
      var r0 := AboveThreshold(scores, init);
      if scores[last] > Threshold {
        var r := r0 + [last];
        forall p, q | 0 <= p < q < |r| ensures scores[r[p]] >= scores[r[q]] {
          assert r[p] == r0[p];
          if q == |r0| {
            assert r0[p] in init;
          } else {
            assert r[q] == r0[q];
          }
        }
      }
    }
  }

  /** A list whose every score exceeds the threshold passes the filter whole. */
  lemma {:induction false} AboveThresholdAll(scores: seq<real>, idx: seq<nat>)
    requires InRange(idx, |scores|) && AllAbove(scores, idx)
    ensures AboveThreshold(scores, idx) == idx
  {
    if idx != [] {
      AboveThresholdAll(scores, idx[..|idx| - 1]);
      assert idx == idx[..|idx| - 1] + [idx[|idx| - 1]];
    }
  }

  /** The candidates are in range, distinct and best first. */
  lemma TopIndicesBestFirst(scores: seq<real>, order: seq<nat>, topK: int)
    requires IsArgsort(scores, order)
    ensures InRange(TopIndices(order, topK), |scores|)
    ensures Distinct(TopIndices(order, topK))
    ensures BestFirst(scores, TopIndices(order, topK))
  {
    var n, top := |order|, TopIndices(order, topK);
    forall p, q | 0 <= p < q < |top| ensures top[p] != top[q] && scores[top[p]] >= scores[top[q]] {
      assert top[p] == order[n - 1 - p] && top[q] == order[n - 1 - q];
    }
  }

  /** Every index at or after the slice start is a candidate. */
  lemma TopIndicesMembers(order: seq<nat>, topK: int)
    ensures forall q :: SuffixStart(|order|, topK) <= q < |order| ==> order[q] in TopIndices(order, topK)
  {
    var n, top := |order|, TopIndices(order, topK);
    forall q | SuffixStart(n, topK) <= q < n ensures order[q] in top {
      assert top[n - 1 - q] == order[q];
    }
  }

  /** Every index that is not a candidate scores no higher than every candidate. */
  lemma TopIndicesDominate(scores: seq<real>, order: seq<nat>, topK: int)
    requires IsArgsort(scores, order)
    ensures InRange(TopIndices(order, topK), |scores|)
    ensures NoneBetterLeftOut(scores, TopIndices(order, topK))
  {
    var n, top := |order|, TopIndices(order, topK);
    var start := SuffixStart(n, topK);
    TopIndicesBestFirst(scores, order, topK);
    TopIndicesMembers(order, topK);
    forall j, p | 0 <= j < |scores| && j !in top && 0 <= p < |top|
      ensures scores[j] <= scores[top[p]]
    {
      assert j in order;
      var q :| 0 <= q < n && order[q] == j;
      assert q < start;
      assert top[p] == order[n - 1 - p];
    }
  }

  /** With `top_k == 0` the slice `[-0:]` keeps every index. */
  lemma TopIndicesZero(scores: seq<real>, order: seq<nat>)
    requires IsArgsort(scores, order)
    ensures forall j :: 0 <= j < |scores| ==> j in TopIndices(order, 0)
  {
    TopIndicesMembers(order, 0);
    forall j | 0 <= j < |scores| ensures j in TopIndices(order, 0) {
      assert j in order;
    }
  }

  /** `search` returns at most `top_k` indices, and none from an empty store. */
  lemma SelectedSize(scores: seq<real>, order: seq<nat>, topK: int)
    requires IsArgsort(scores, order)
    ensures |scores| == 0 ==> Selected(scores, order, topK) == []
    ensures |Selected(scores, order, topK)| <= SelectedCount(|scores|, topK)
    ensures topK >= 1 ==> |Selected(scores, order, topK)| <= topK
  {
  }

  /** The indices `search` returns are above the threshold, distinct and best first. */
  lemma SelectedBestFirst(scores: seq<real>, order: seq<nat>, topK: int)
    requires IsArgsort(scores, order)
    ensures AllAbove(scores, Selected(scores, order, topK))
    ensures Distinct(Selected(scores, order, topK))
    ensures BestFirst(scores, Selected(scores, order, topK))
  {
    var top := TopIndices(order, topK);
    TopIndicesBestFirst(scores, order, topK);
    AboveThresholdDistinct(scores, top);
    AboveThresholdBestFirst(scores, top);
    var sel := Selected(scores, order, topK);
    forall p | 0 <= p < |sel| ensures scores[sel[p]] > Threshold {
      assert sel[p] in sel;
    }
  }

  /**
   * What `search` leaves out: an index it does not return scores no higher than
   * any it returns, and one above the threshold is left out only when the top-k
   * was full; with `top_k == 0` every index above the threshold is returned.
   */
  lemma SelectedLeavesOutOnlyWorse(scores: seq<real>, order: seq<nat>, topK: int)
    requires IsArgsort(scores, order)
    ensures NoneBetterLeftOut(scores, Selected(scores, order, topK))
    ensures forall j :: 0 <= j < |scores| && scores[j] > Threshold && j !in Selected(scores, order, topK) ==>
      |Selected(scores, order, topK)| == SelectedCount(|scores|, topK)
    ensures topK == 0 ==> forall j :: 0 <= j < |scores| && scores[j] > Threshold ==> j in Selected(scores, order, topK)
  {
    var top := TopIndices(order, topK);
    var sel := Selected(scores, order, topK);
    TopIndicesDominate(scores, order, topK);
    if topK == 0 {
      TopIndicesZero(scores, order);
    }
    forall j, p | 0 <= j < |scores| && j !in sel && 0 <= p < |sel|
      ensures scores[j] <= scores[sel[p]]
    {
      assert sel[p] in sel;
      var q :| 0 <= q < |top| && top[q] == sel[p];
    }
    forall j | 0 <= j < |scores| && scores[j] > Threshold && j !in sel
      ensures |sel| == SelectedCount(|scores|, topK)
    {
      assert j !in top;
      forall p | 0 <= p < |top| ensures scores[top[p]] > Threshold {
        assert scores[j] <= scores[top[p]];
      }
      AboveThresholdAll(scores, top);
    }
  }
}
