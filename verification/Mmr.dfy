/** Maximal-marginal-relevance selection: greedy choice of relevant and mutually dissimilar results. */
module Mmr {

  /** Similarity of two candidate positions: token overlap, or cosine of their embeddings with
      missing embeddings counting as dissimilar. */
  type Similarity = (nat, nat) -> real

  /** The greatest similarity to a selected candidate, at least zero. */
  function MaxSim(sim: Similarity, i: nat, selected: seq<nat>): real {
    if selected == [] then 0.0
    else
      var front, s := MaxSim(sim, i, selected[..|selected| - 1]), sim(i, selected[|selected| - 1]);
      if front < s then s else front
  }

  function Score(scores: seq<real>, sim: Similarity, balance: real, selected: seq<nat>, i: nat): real
    requires i < |scores|
  {
    balance * scores[i] - (1.0 - balance) * MaxSim(sim, i, selected)
  }

  /** `best` is the first position not yet selected whose score no other such position exceeds. */
  ghost predicate IsFirstBest(scores: seq<real>, sim: Similarity, balance: real, selected: seq<nat>, best: nat) {
    && best < |scores| && best !in selected
    && forall i: nat :: i < |scores| && i !in selected ==>
         var a, b := Score(scores, sim, balance, selected, i), Score(scores, sim, balance, selected, best);
         a <= b && (i < best ==> a < b)
  }

  /** A greedy selection: it starts at position 0, the highest-scored candidate, and each later
      pick is the first best among those left. */
  ghost predicate IsGreedy(scores: seq<real>, sim: Similarity, balance: real, selected: seq<nat>) {
    && |selected| > 0 && selected[0] == 0
    && forall k :: 0 < k < |selected| ==> IsFirstBest(scores, sim, balance, selected[..k], selected[k])
  }

  ghost predicate AreDistinct(s: seq<nat>) {
    forall i, j :: 0 <= i < j < |s| ==> s[i] != s[j]
  }

  /** The positions below `n` not selected, in increasing order. */
  function Remaining(n: nat, selected: seq<nat>): seq<nat> {
    if n == 0 then []
    else Remaining(n - 1, selected) + (if n - 1 in selected then [] else [n - 1])
  }

  function Without(s: seq<nat>, x: nat): seq<nat> {
    if s == [] then [] else Without(s[..|s| - 1], x) + (if s[|s| - 1] == x then [] else [s[|s| - 1]])
  }

  lemma {:induction false} WithoutConcat(s: seq<nat>, y: nat, x: nat)
    ensures Without(s + [y], x) == Without(s, x) + (if y == x then [] else [y])
  {
    assert (s + [y])[..|s|] == s;
  }

  lemma {:induction false} RemainingShrinks(n: nat, selected: seq<nat>, x: nat)
    ensures Without(Remaining(n, selected), x) == Remaining(n, selected + [x])
  {
    if n == 0 {
    } else {
      RemainingShrinks(n - 1, selected, x);
      var r := Remaining(n - 1, selected);
      if n - 1 in selected {
        assert r + [] == r;
      } else {
        WithoutConcat(r, n - 1, x);
      }
    }
  }

  ghost predicate IsIncreasing(s: seq<nat>) {
    forall a, b :: 0 <= a < b < |s| ==> s[a] < s[b]
  }

  lemma {:induction false} RemainingMembers(n: nat, selected: seq<nat>)
    ensures forall i: nat :: i in Remaining(n, selected) <==> i < n && i !in selected
    ensures IsIncreasing(Remaining(n, selected))
  {
    if n == 0 {
    } else {
      RemainingMembers(n - 1, selected);
      var r := Remaining(n - 1, selected);
      forall k | 0 <= k < |r|
        ensures r[k] < n - 1
      {
        assert r[k] in r;
      }
    }
  }

  /** Distinct selected positions below `n` leave `n - |selected|` positions. */
  lemma {:induction false} RemainingCount(n: nat, selected: seq<nat>)
    requires AreDistinct(selected) && forall k :: 0 <= k < |selected| ==> selected[k] < n
    ensures |Remaining(n, selected)| == n - |selected|
    decreases |selected|
  {
    if selected == [] {
      NothingSelected(n);
    } else {
      var front, x := selected[..|selected| - 1], selected[|selected| - 1];
      hide Remaining, Without;
      assert selected == front + [x] && x !in front;
      RemainingCount(n, front);
      RemainingShrinks(n, front, x);
      RemainingMembers(n, front);
      WithoutCount(Remaining(n, front), x);
    }
  }

  lemma {:induction false} NothingSelected(n: nat)
    ensures |Remaining(n, [])| == n
  {
    if n == 0 {
    } else {
      NothingSelected(n - 1);
    }
  }

  lemma {:induction false} WithoutCount(s: seq<nat>, x: nat)
    requires IsIncreasing(s)
    ensures |Without(s, x)| == if x in s then |s| - 1 else |s|
  {
    if s == [] {
    } else {
      WithoutCount(s[..|s| - 1], x);
    }
  }

  /** Selects up to `topK` positions, at least one if there are any candidates. */
  method Select(scores: seq<real>, sim: Similarity, topK: nat, balance: real) returns (selected: seq<nat>)
    ensures scores == [] ==> selected == []
    ensures scores != [] ==> IsGreedy(scores, sim, balance, selected)
    ensures AreDistinct(selected) && forall k :: 0 <= k < |selected| ==> selected[k] < |scores|
    ensures scores != [] ==> |selected| == if topK == 0 then 1 else if topK < |scores| then topK else |scores|
  {
    if scores == [] {
      return [];
    }
    hide *;
    selected := [0];
    var remaining := Positions(|scores|);
    RemainingShrinks(|scores|, [], 0);
    remaining := Without(remaining, 0);
    assert [] + [0] == selected;
    FirstPick(scores, sim, balance);
    RemainingCount(|scores|, selected);
    while |selected| < topK && remaining != []
      invariant IsGreedy(scores, sim, balance, selected)
      invariant AreDistinct(selected) && forall k :: 0 <= k < |selected| ==> selected[k] < |scores|
      invariant remaining == Remaining(|scores|, selected)
      invariant |remaining| == |scores| - |selected|
      invariant |selected| >= 1 && (|selected| <= topK || |selected| == 1)
      decreases |remaining|
    {
      var best := BestRemaining(scores, sim, balance, selected, remaining);
      RemainingShrinks(|scores|, selected, best);
      GreedyExtends(scores, sim, balance, selected, best);
      FirstBestIsFresh(scores, sim, balance, selected, best);
      selected := selected + [best];
      remaining := Without(remaining, best);
      RemainingCount(|scores|, selected);
    }
  }

  lemma FirstPick(scores: seq<real>, sim: Similarity, balance: real)
    ensures IsGreedy(scores, sim, balance, [0]) && AreDistinct([0])
  {
  }

  lemma FirstBestIsFresh(scores: seq<real>, sim: Similarity, balance: real, selected: seq<nat>, best: nat)
    requires IsFirstBest(scores, sim, balance, selected, best) && AreDistinct(selected)
    ensures best < |scores| && AreDistinct(selected + [best])
  {
    assert forall i :: 0 <= i < |selected| ==> selected[i] in selected;
    hide Score;
  }

  lemma GreedyExtends(scores: seq<real>, sim: Similarity, balance: real, selected: seq<nat>, best: nat)
    requires IsGreedy(scores, sim, balance, selected) && IsFirstBest(scores, sim, balance, selected, best)
    ensures IsGreedy(scores, sim, balance, selected + [best])
  {
    var longer := selected + [best];
    forall k | 0 < k < |longer|
      ensures IsFirstBest(scores, sim, balance, longer[..k], longer[k])
    {
      if k < |selected| {
        assert longer[..k] == selected[..k];
      } else {
        assert longer[..k] == selected;
      }
    }
  }

  method Positions(n: nat) returns (r: seq<nat>)
    ensures r == Remaining(n, [])
  {
    r := [];
    for i := 0 to n
      invariant r == Remaining(i, [])
    {
      r := r + [i];
    }
  }

  /** The first strict maximum among the remaining positions, in order, is the first best. */
  lemma FirstMaximumIsBest(scores: seq<real>, sim: Similarity, balance: real, selected: seq<nat>, b: nat)
    requires var r := Remaining(|scores|, selected);
             && b < |r| && r[b] < |scores|
             && forall j :: 0 <= j < |r| ==>
                  && r[j] < |scores|
                  && var x := Score(scores, sim, balance, selected, r[j]);
                     var y := Score(scores, sim, balance, selected, r[b]);
                     x <= y && (j < b ==> x < y)
    ensures IsFirstBest(scores, sim, balance, selected, Remaining(|scores|, selected)[b])
  {
    RemainingMembers(|scores|, selected);
    hide Remaining, Score;
    var r := Remaining(|scores|, selected);
    assert r[b] in r;
    forall i: nat | i < |scores| && i !in selected
      ensures var x, y := Score(scores, sim, balance, selected, i), Score(scores, sim, balance, selected, r[b]);
              x <= y && (i < r[b] ==> x < y)
    {
      assert i in r;
      var j :| 0 <= j < |r| && r[j] == i;
    }
  }

  /** Scans the remaining positions in order, keeping the first strict maximum. */
  method BestRemaining(scores: seq<real>, sim: Similarity, balance: real, selected: seq<nat>, remaining: seq<nat>)
    returns (bestIdx: nat)
    requires remaining == Remaining(|scores|, selected) && remaining != []
    ensures IsFirstBest(scores, sim, balance, selected, bestIdx)
  {
    RemainingMembers(|scores|, selected);
    hide Remaining, Score, IsIncreasing, IsFirstBest;
    assert forall k :: 0 <= k < |remaining| ==> remaining[k] in remaining;
    bestIdx := 0;
    var bestMmr, found := 0.0, false; // `found` is false while the best is still minus infinity
    ghost var b := 0;
    for k := 0 to |remaining|
      invariant found == (k > 0)
      invariant found ==> 0 <= b < k && bestIdx == remaining[b]
      invariant found ==> bestMmr == Score(scores, sim, balance, selected, bestIdx)
      invariant found ==> forall j :: 0 <= j < k ==>
                  var a := Score(scores, sim, balance, selected, remaining[j]); a <= bestMmr && (j < b ==> a < bestMmr)
    {
      var ri := remaining[k];
      var mmr := MmrScore(scores, sim, balance, selected, ri);
      if !found || mmr > bestMmr {
        bestMmr := mmr;
        bestIdx := ri;
        found := true;
        b := k;
      }
    }
    FirstMaximumIsBest(scores, sim, balance, selected, b);
  }

  method MmrScore(scores: seq<real>, sim: Similarity, balance: real, selected: seq<nat>, i: nat) returns (mmr: real)
    requires i < |scores|
    ensures mmr == Score(scores, sim, balance, selected, i)
  {
    var maxSim := MaxSimilarity(sim, i, selected);
    mmr := balance * scores[i] - (1.0 - balance) * maxSim;
  }

  method MaxSimilarity(sim: Similarity, i: nat, selected: seq<nat>) returns (m: real)
    ensures m == MaxSim(sim, i, selected)
  {
    m := 0.0;
    for k := 0 to |selected|
      invariant m == MaxSim(sim, i, selected[..k])
    {
      assert selected[..k + 1][..k] == selected[..k];
      var s := sim(i, selected[k]);
      if m < s {
        m := s;
      }
    }
    assert selected[..|selected|] == selected;
  }

  /** The caller gets the candidates' own indices, in selection order. */
  method MmrRerank(indices: seq<nat>, scores: seq<real>, sim: Similarity, topK: nat, balance: real)
    returns (result: seq<nat>, ghost selected: seq<nat>)
    requires |indices| == |scores|
    ensures |result| == |selected| && (forall k :: 0 <= k < |selected| ==> selected[k] < |indices|)
    ensures forall k :: 0 <= k < |result| ==> result[k] == indices[selected[k]]
    ensures AreDistinct(selected) && (scores != [] ==> IsGreedy(scores, sim, balance, selected))
    ensures scores != [] ==> |result| == if topK == 0 then 1 else if topK < |scores| then topK else |scores|
  {
    var chosen := Select(scores, sim, topK, balance);
    selected := chosen;
    result := [];
    for k := 0 to |chosen|
      invariant |result| == k && forall j :: 0 <= j < k ==> result[j] == indices[chosen[j]]
    {
      result := result + [indices[chosen[k]]];
    }
  }

  // ---------- What greedy selections share ----------

  lemma FirstBestIsUnique(scores: seq<real>, sim: Similarity, balance: real, selected: seq<nat>, a: nat, b: nat)
    requires IsFirstBest(scores, sim, balance, selected, a) && IsFirstBest(scores, sim, balance, selected, b)
    ensures a == b
  {
  }

  /** A selection of fewer results is a prefix of any longer one. */
  lemma {:induction false} GreedyPrefix(scores: seq<real>, sim: Similarity, balance: real,
                                        short: seq<nat>, long: seq<nat>)
    requires IsGreedy(scores, sim, balance, short) && IsGreedy(scores, sim, balance, long) && |short| <= |long|
    ensures short <= long
    decreases |short|
  {
    if |short| > 1 {
      var n := |short| - 1;
      var front := short[..n];
      forall k | 0 < k < |front|
        ensures IsFirstBest(scores, sim, balance, front[..k], front[k])
      {
        assert front[..k] == short[..k];
      }
      GreedyPrefix(scores, sim, balance, front, long);
      assert front == long[..n];
      FirstBestIsUnique(scores, sim, balance, front, short[n], long[n]);
    }
  }

  lemma CountedPrefix(front: seq<nat>, x: nat)
    requires forall j :: 0 <= j < |front| ==> front[j] == j
    ensures x in front <==> x < |front|
  {
    if x < |front| {
      assert front[x] == x;
    }
  }

  /** With balance one (lambda in the source) and candidates sorted by score, the order is the given one. */
  lemma {:induction false} PureRelevanceKeepsOrder(scores: seq<real>, sim: Similarity, selected: seq<nat>, k: nat)
    requires IsGreedy(scores, sim, 1.0, selected) && k < |selected|
    requires forall i, j :: 0 <= i < j < |scores| ==> scores[i] >= scores[j]
    ensures selected[k] == k
  {
    if k == 0 {
    } else {
      forall j | 0 <= j < k
        ensures selected[j] == j
      {
        PureRelevanceKeepsOrder(scores, sim, selected, j);
      }
      var front, best := selected[..k], selected[k];
      assert forall j :: 0 <= j < k ==> front[j] == j;
      assert IsFirstBest(scores, sim, 1.0, front, best);
      CountedPrefix(front, best);
      CountedPrefix(front, k);
      ScoreIsRelevance(scores, sim, front, k);
      ScoreIsRelevance(scores, sim, front, best);
    }
  }

  lemma ScoreIsRelevance(scores: seq<real>, sim: Similarity, selected: seq<nat>, i: nat)
    requires i < |scores|
    ensures Score(scores, sim, 1.0, selected, i) == scores[i]
  {
    assert 1.0 - 1.0 == 0.0;
  }

  // ---------- What a pick trades off ----------

  /** The greatest similarity bounds all of them, is at least zero, and is one of them or zero. */
  lemma {:induction false} MaxSimIsGreatest(sim: Similarity, i: nat, selected: seq<nat>)
    ensures MaxSim(sim, i, selected) >= 0.0 && forall j <- selected :: sim(i, j) <= MaxSim(sim, i, selected)
    ensures MaxSim(sim, i, selected) == 0.0 || exists j <- selected :: sim(i, j) == MaxSim(sim, i, selected)
  {
    if selected == [] {
    } else {
      var front, last := selected[..|selected| - 1], selected[|selected| - 1];
      MaxSimIsGreatest(sim, i, front);
      assert selected == front + [last];
    }
  }

  /** A pick gains at least as much relevance over any other remaining candidate as it loses in
      novelty, each with its weight. */
  lemma PickPaysOff(scores: seq<real>, sim: Similarity, balance: real, selected: seq<nat>, best: nat, i: nat)
    requires IsFirstBest(scores, sim, balance, selected, best) && i < |scores| && i !in selected
    ensures balance * (scores[best] - scores[i])
         >= (1.0 - balance) * (MaxSim(sim, best, selected) - MaxSim(sim, i, selected))
  {
    hide MaxSim;
    assert Score(scores, sim, balance, selected, i) <= Score(scores, sim, balance, selected, best);
    hide Score, IsFirstBest;
    TradeOff(balance, scores[i], scores[best], 1.0 - balance, MaxSim(sim, i, selected), MaxSim(sim, best, selected));
  }

  lemma TradeOff(v: real, a: real, b: real, w: real, x: real, y: real)
    ensures v * a - w * x <= v * b - w * y ==> v * (b - a) >= w * (y - x)
  {
  }

  /** Among candidates of the pick's relevance, unless only relevance counts, none is less similar
      to what was selected. */
  lemma EquallyRelevantPicksNovel(scores: seq<real>, sim: Similarity, balance: real, selected: seq<nat>,
                                  best: nat, i: nat)
    requires IsFirstBest(scores, sim, balance, selected, best) && balance < 1.0
    requires i < |scores| && i !in selected && scores[i] == scores[best]
    ensures MaxSim(sim, best, selected) <= MaxSim(sim, i, selected)
  {
    hide MaxSim;
    assert Score(scores, sim, balance, selected, i) <= Score(scores, sim, balance, selected, best);
    CancelFactor(1.0 - balance, MaxSim(sim, best, selected), MaxSim(sim, i, selected));
  }

  /** Among candidates as similar as the pick, if relevance counts at all, none is more relevant. */
  lemma EquallySimilarPicksRelevant(scores: seq<real>, sim: Similarity, balance: real, selected: seq<nat>,
                                    best: nat, i: nat)
    requires IsFirstBest(scores, sim, balance, selected, best) && balance > 0.0
    requires i < |scores| && i !in selected && MaxSim(sim, i, selected) == MaxSim(sim, best, selected)
    ensures scores[i] <= scores[best]
  {
    hide MaxSim;
    assert Score(scores, sim, balance, selected, i) <= Score(scores, sim, balance, selected, best);
    CancelFactor(balance, scores[i], scores[best]);
  }

  lemma CancelFactor(w: real, x: real, y: real)
    requires w > 0.0
    ensures w * x <= w * y ==> x <= y
  {
  }
}
