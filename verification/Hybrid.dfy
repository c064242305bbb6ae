/** Merging full-text and vector rankings by weighted reciprocal rank. */
module Hybrid {
  import opened Sorting
  import opened Text

  datatype Hit = Hit(ftsRank: Option<nat>, vecRank: Option<nat>, cosine: Option<real>)

  const EMPTY_HIT := Hit(None, None, None)

  datatype SearchResult = SearchResult(id: string, hit: Hit, score: real)

  datatype CacheEntry = CacheEntry(id: string, similarity: real)

  datatype FtsEntry = FtsEntry(id: string, rank: nat)

  const W_FTS: real := 0.4
  const W_VEC: real := 0.6

  function RankShare(weight: real, rank: Option<nat>, k: nat): real {
    match rank
    case None => 0.0
    case Some(r) => weight / ((k + r + 1) as real)
  }

  function RrfScore(ftsRank: Option<nat>, vecRank: Option<nat>, k: nat): real {
    RankShare(W_FTS, ftsRank, k) + RankShare(W_VEC, vecRank, k)
  }

  // ---------- Merging ----------

  function Take<T>(s: seq<T>, n: nat): (front: seq<T>)
    ensures front <= s && |front| == if |s| < n then |s| else n
  {
    if |s| <= n then s else s[..n]
  }

  /** Cached entries, nearest first; entries of equal similarity keep their cache order. */
  function Nearest(cache: seq<CacheEntry>): seq<CacheEntry> {
    SortDescending(cache, (e: CacheEntry) => e.similarity)
  }

  function HitOf(m: map<string, Hit>, id: string): Hit {
    if id in m then m[id] else EMPTY_HIT
  }

  function AddFts(m: map<string, Hit>, fts: seq<FtsEntry>): map<string, Hit> {
    if fts == [] then m
    else
      var before, e := AddFts(m, fts[..|fts| - 1]), fts[|fts| - 1];
      before[e.id := HitOf(before, e.id).(ftsRank := Some(e.rank))]
  }

  function AddVec(m: map<string, Hit>, nearest: seq<CacheEntry>): map<string, Hit> {
    if nearest == [] then m
    else
      var before, e := AddVec(m, nearest[..|nearest| - 1]), nearest[|nearest| - 1];
      before[e.id := HitOf(before, e.id).(vecRank := Some(|nearest| - 1), cosine := Some(e.similarity))]
  }

  function Merged(cache: seq<CacheEntry>, fts: seq<FtsEntry>, topK: nat): map<string, Hit> {
    AddVec(AddFts(map[], Take(fts, topK)), Take(Nearest(cache), topK))
  }

  function ResultOf(id: string, hit: Hit, rrfK: nat): SearchResult {
    SearchResult(id, hit, RrfScore(hit.ftsRank, hit.vecRank, rrfK))
  }

  /** One scored result for each merged id. */
  ghost predicate AreResults(results: seq<SearchResult>, merged: map<string, Hit>, rrfK: nat) {
    && |results| == |merged|
    && (forall r <- results :: r.id in merged && r == ResultOf(r.id, merged[r.id], rrfK))
    && (forall i, j :: 0 <= i < j < |results| ==> results[i].id != results[j].id)
    && (forall id <- merged :: exists r <- results :: r.id == id)
  }

  method HybridSearch(cache: seq<CacheEntry>, fts: seq<FtsEntry>, topK: nat, rrfK: nat)
    returns (results: seq<SearchResult>)
    ensures AreResults(results, Merged(cache, fts, topK), rrfK)
    ensures forall i, j :: 0 <= i < j < |results| ==> results[i].score >= results[j].score
    ensures forall r <- results :: 0.0 < r.score <= 1.0 / ((rrfK + 1) as real)
  {
    var merged := MergeRankings(cache, fts, topK);
    var values := ScoredValues(merged, rrfK);
    results := SortDescending(values, (r: SearchResult) => r.score);
    SortedByScore(values, results);
    PermutedResults(values, results, merged, rrfK);
    ResultsInRange(cache, fts, topK, results, rrfK);
  }

  lemma SortedByScore(values: seq<SearchResult>, results: seq<SearchResult>)
    requires results == SortDescending(values, (r: SearchResult) => r.score)
    ensures multiset(values) == multiset(results)
    ensures forall i, j :: 0 <= i < j < |results| ==> results[i].score >= results[j].score
  {
    var key: SearchResult -> real := (r: SearchResult) => r.score;
    SortDependsOnKeys(values, key, (r: SearchResult) => r.score);
    SortSorts(values, key);
    forall i, j | 0 <= i < j < |results|
      ensures results[i].score >= results[j].score
    {
      assert key(results[i]) >= key(results[j]);
    }
  }

  method MergeRankings(cache: seq<CacheEntry>, fts: seq<FtsEntry>, topK: nat) returns (merged: map<string, Hit>)
    ensures merged == Merged(cache, fts, topK)
  {
    var vecScores := SortDescending(cache, (e: CacheEntry) => e.similarity);
    merged := map[];
    var firstFts := Take(fts, topK);
    for i := 0 to |firstFts|
      invariant merged == AddFts(map[], firstFts[..i])
    {
      assert firstFts[..i + 1][..i] == firstFts[..i];
      var e := firstFts[i];
      if e.id !in merged {
        merged := merged[e.id := Hit(None, None, None)];
      }
      merged := merged[e.id := merged[e.id].(ftsRank := Some(e.rank))];
    }
    assert firstFts[..|firstFts|] == firstFts;
    var nearest := Take(vecScores, topK);
    ghost var withFts := merged;
    SameNearest(cache, vecScores);
    for rank := 0 to |nearest|
      invariant merged == AddVec(withFts, nearest[..rank])
    {
      assert nearest[..rank + 1][..rank] == nearest[..rank];
      var e := nearest[rank];
      if e.id !in merged {
        merged := merged[e.id := Hit(None, None, None)];
      }
      merged := merged[e.id := merged[e.id].(vecRank := Some(rank), cosine := Some(e.similarity))];
    }
    assert nearest[..|nearest|] == nearest;
  }

  lemma SameNearest(cache: seq<CacheEntry>, sorted: seq<CacheEntry>)
    requires sorted == SortDescending(cache, (e: CacheEntry) => e.similarity)
    ensures sorted == Nearest(cache)
  {
    SortDependsOnKeys(cache, (e: CacheEntry) => e.similarity, (e: CacheEntry) => e.similarity);
  }

  /** The scored values of the map, in whatever order its iteration yields. */
  method ScoredValues(merged: map<string, Hit>, rrfK: nat) returns (values: seq<SearchResult>)
    ensures AreResults(values, merged, rrfK)
  {
    values := [];
    var todo := merged.Keys;
    while todo != {}
      invariant todo <= merged.Keys && |values| + |todo| == |merged|
      invariant forall r <- values :: r.id in merged && r.id !in todo && r == ResultOf(r.id, merged[r.id], rrfK)
      invariant forall i, j :: 0 <= i < j < |values| ==> values[i].id != values[j].id
      invariant forall id <- merged :: id in todo || exists r <- values :: r.id == id
      decreases todo
    {
      var id :| id in todo;
      var before, r := values, ResultOf(id, merged[id], rrfK);
      assert forall i :: 0 <= i < |before| ==> before[i] in before;
      values := values + [r];
      todo := todo - {id};
      assert r in values && forall x <- before :: x in values;
    }
  }

  lemma PermutedResults(values: seq<SearchResult>, results: seq<SearchResult>, merged: map<string, Hit>, rrfK: nat)
    requires multiset(values) == multiset(results) && AreResults(values, merged, rrfK)
    ensures AreResults(results, merged, rrfK)
  {
    PermutationMembers(values, results);
    var id: SearchResult -> string := (r: SearchResult) => r.id;
    PermutationKeepsDistinct(values, results, id);
    forall i, j | 0 <= i < j < |results|
      ensures results[i].id != results[j].id
    {
      assert id(results[i]) != id(results[j]);
    }
  }

  // ---------- What the ranks mean ----------

  ghost predicate DistinctFts(fts: seq<FtsEntry>) {
    forall i, j :: 0 <= i < j < |fts| ==> fts[i].id != fts[j].id
  }

  ghost predicate DistinctCache(cache: seq<CacheEntry>) {
    forall i, j :: 0 <= i < j < |cache| ==> cache[i].id != cache[j].id
  }

  lemma {:induction false} FtsRanks(fts: seq<FtsEntry>, id: string)
    requires DistinctFts(fts)
    ensures id in AddFts(map[], fts) <==> exists e <- fts :: e.id == id
    ensures HitOf(AddFts(map[], fts), id).vecRank == None && HitOf(AddFts(map[], fts), id).cosine == None
    ensures forall e <- fts :: e.id == id ==> HitOf(AddFts(map[], fts), id).ftsRank == Some(e.rank)
    ensures (forall e <- fts :: e.id != id) ==> HitOf(AddFts(map[], fts), id).ftsRank == None
  {
    if fts == [] {
    } else {
      var front, last := fts[..|fts| - 1], fts[|fts| - 1];
      FtsRanks(front, id);
      assert fts == front + [last];
      assert forall i :: 0 <= i < |front| ==> front[i].id != last.id;
    }
  }

  lemma {:induction false} VecRanks(m: map<string, Hit>, nearest: seq<CacheEntry>, id: string)
    requires DistinctCache(nearest)
    ensures id in AddVec(m, nearest) <==> id in m || exists e <- nearest :: e.id == id
    ensures HitOf(AddVec(m, nearest), id).ftsRank == HitOf(m, id).ftsRank
    ensures forall i :: 0 <= i < |nearest| && nearest[i].id == id ==>
              && HitOf(AddVec(m, nearest), id).vecRank == Some(i)
              && HitOf(AddVec(m, nearest), id).cosine == Some(nearest[i].similarity)
    ensures (forall e <- nearest :: e.id != id) ==> HitOf(AddVec(m, nearest), id) == HitOf(m, id)
  {
    if nearest == [] {
    } else {
      var front, last := nearest[..|nearest| - 1], nearest[|nearest| - 1];
      VecRanks(m, front, id);
      assert forall i :: 0 <= i < |front| ==> front[i] == nearest[i] && front[i].id != last.id;
      assert forall e :: e in nearest <==> e in front || e == last;
    }
  }

  /** Nearest first means: the first `topK` are at least as similar as all others, and are
      distinct if the cache ids are. */
  lemma NearestIsNearest(cache: seq<CacheEntry>)
    ensures multiset(Nearest(cache)) == multiset(cache)
    ensures forall i, j :: 0 <= i < j < |cache| ==>
              |Nearest(cache)| == |cache| && Nearest(cache)[i].similarity >= Nearest(cache)[j].similarity
    ensures DistinctCache(cache) ==> DistinctCache(Nearest(cache))
  {
    var key: CacheEntry -> real := (e: CacheEntry) => e.similarity;
    SortSorts(cache, key);
    SameNearest(cache, SortDescending(cache, key));
    var n := Nearest(cache);
    assert |n| == |multiset(n)| == |multiset(cache)| == |cache|;
    forall i, j | 0 <= i < j < |cache|
      ensures n[i].similarity >= n[j].similarity
    {
      assert key(n[i]) >= key(n[j]);
    }
    if DistinctCache(cache) {
      var id: CacheEntry -> string := (e: CacheEntry) => e.id;
      PermutationKeepsDistinct(cache, n, id);
      forall i, j | 0 <= i < j < |n|
        ensures n[i].id != n[j].id
      {
        assert id(n[i]) != id(n[j]);
      }
    }
  }

  /** For duplicate-free inputs the merged ids are exactly those of the first `topK` full-text
      hits and the `topK` nearest cached entries, and each id carries its ranks in the two. */
  lemma MergedRanks(cache: seq<CacheEntry>, fts: seq<FtsEntry>, topK: nat, id: string)
    requires DistinctFts(fts) && DistinctCache(cache)
    ensures var hit, f, n := HitOf(Merged(cache, fts, topK), id), Take(fts, topK), Take(Nearest(cache), topK);
            && (id in Merged(cache, fts, topK) <==> (exists e <- f :: e.id == id) || (exists e <- n :: e.id == id))
            && (forall e <- f :: e.id == id ==> hit.ftsRank == Some(e.rank))
            && ((forall e <- f :: e.id != id) ==> hit.ftsRank == None)
            && (forall i :: 0 <= i < |n| && n[i].id == id ==>
                  hit.vecRank == Some(i) && hit.cosine == Some(n[i].similarity))
            && ((forall e <- n :: e.id != id) ==> hit.vecRank == None && hit.cosine == None)
  {
    NearestIsNearest(cache);
    var f, n := Take(fts, topK), Take(Nearest(cache), topK);
    assert DistinctFts(f) && DistinctCache(n);
    FtsRanks(f, id);
    VecRanks(AddFts(map[], f), n, id);
  }

  // ---------- What the scores mean ----------

  lemma ShareShrinks(weight: real, a: nat, b: nat, k: nat)
    requires weight > 0.0 && a < b
    ensures RankShare(weight, Some(a), k) > RankShare(weight, Some(b), k) > 0.0
  {
    var x, y := (k + a + 1) as real, (k + b + 1) as real;
    assert 0.0 < x < y;
    DivisionShrinks(weight, x, y);
  }

  lemma DivisionShrinks(w: real, x: real, y: real)
    requires w > 0.0 && 0.0 < x < y
    ensures w / x > w / y > 0.0
  {
    var p, q := w / x, w / y;
    assert p * x == w && q * y == w;
    assert q > 0.0;
    assert q * x < q * y;
  }

  predicate NoWorse(a: Option<nat>, b: Option<nat>) {
    b.None? || (a.Some? && a.value <= b.value)
  }

  lemma ShareOrder(weight: real, a: Option<nat>, b: Option<nat>, k: nat)
    requires weight > 0.0 && NoWorse(a, b)
    ensures RankShare(weight, a, k) >= RankShare(weight, b, k)
    ensures a != b ==> RankShare(weight, a, k) > RankShare(weight, b, k)
  {
    if a.Some? {
      if b.Some? && a != b {
        ShareShrinks(weight, a.value, b.value, k);
      } else {
        ShareShrinks(weight, a.value, a.value + 1, k);
      }
    }
  }

  predicate HasRank(hit: Hit) {
    hit.ftsRank.Some? || hit.vecRank.Some?
  }

  lemma {:induction false} FtsIdsHaveRank(fts: seq<FtsEntry>, id: string)
    ensures id in AddFts(map[], fts) ==> HasRank(AddFts(map[], fts)[id])
  {
    if fts == [] {
    } else {
      FtsIdsHaveRank(fts[..|fts| - 1], id);
    }
  }

  lemma {:induction false} VecKeepsRank(m: map<string, Hit>, nearest: seq<CacheEntry>, id: string)
    requires id in m ==> HasRank(m[id])
    ensures id in AddVec(m, nearest) ==> HasRank(AddVec(m, nearest)[id])
  {
    if nearest == [] {
    } else {
      VecKeepsRank(m, nearest[..|nearest| - 1], id);
    }
  }

  /** Whatever the inputs, every merged id comes from one of the two rankings. */
  lemma MergedIdsHaveRank(cache: seq<CacheEntry>, fts: seq<FtsEntry>, topK: nat, id: string)
    requires id in Merged(cache, fts, topK)
    ensures HasRank(Merged(cache, fts, topK)[id])
  {
    FtsIdsHaveRank(Take(fts, topK), id);
    VecKeepsRank(AddFts(map[], Take(fts, topK)), Take(Nearest(cache), topK), id);
  }

  /** A hit with some rank scores above zero and at most 1/(k+1). */
  lemma ScoreRange(f: Option<nat>, v: Option<nat>, k: nat)
    requires f.Some? || v.Some?
    ensures 0.0 < RrfScore(f, v, k) <= 1.0 / ((k + 1) as real)
  {
    ShareOrder(W_FTS, Some(0), f, k);
    ShareOrder(W_VEC, Some(0), v, k);
    ShareOrder(W_FTS, f, None, k);
    ShareOrder(W_VEC, v, None, k);
    SharesAddUp((k + 1) as real);
  }

  lemma SharesAddUp(x: real)
    requires x > 0.0
    ensures W_FTS / x + W_VEC / x == 1.0 / x
  {
    assert W_FTS + W_VEC == 1.0;
  }

  /** So every result of a search lies in that range. */
  lemma ResultsInRange(cache: seq<CacheEntry>, fts: seq<FtsEntry>, topK: nat, results: seq<SearchResult>, rrfK: nat)
    requires AreResults(results, Merged(cache, fts, topK), rrfK)
    ensures forall r <- results :: 0.0 < r.score <= 1.0 / ((rrfK + 1) as real)
  {
    hide Merged, RrfScore;
    forall r | r in results
      ensures 0.0 < r.score <= 1.0 / ((rrfK + 1) as real)
    {
      var hit := Merged(cache, fts, topK)[r.id];
      MergedIdsHaveRank(cache, fts, topK, r.id);
      ScoreRange(hit.ftsRank, hit.vecRank, rrfK);
    }
  }

  /** An id at least as good in both rankings, and better in one, is placed before the other. */
  lemma DominantComesFirst(results: seq<SearchResult>, merged: map<string, Hit>, i: nat, j: nat, rrfK: nat)
    requires AreResults(results, merged, rrfK) && i < |results| && j < |results|
    requires forall p, q :: 0 <= p < q < |results| ==> results[p].score >= results[q].score
    requires Dominates(results[i].hit, results[j].hit)
    ensures i < j
  {
    assert results[i] in results && results[j] in results;
    hide AreResults;
    ShareOrder(W_FTS, results[i].hit.ftsRank, results[j].hit.ftsRank, rrfK);
    ShareOrder(W_VEC, results[i].hit.vecRank, results[j].hit.vecRank, rrfK);
  }

  /** The vector ranking weighs more: of two ids found in one ranking only, at the same rank, the one
      from the vector ranking comes first. */
  lemma VectorHitComesFirst(results: seq<SearchResult>, merged: map<string, Hit>, i: nat, j: nat, rank: nat, rrfK: nat)
    requires AreResults(results, merged, rrfK) && i < |results| && j < |results|
    requires forall p, q :: 0 <= p < q < |results| ==> results[p].score >= results[q].score
    requires results[i].hit.vecRank == Some(rank) && results[i].hit.ftsRank == None
    requires results[j].hit.ftsRank == Some(rank) && results[j].hit.vecRank == None
    ensures i < j
  {
    assert results[i] in results && results[j] in results;
    hide AreResults;
    TwoSharesToThree((rrfK + rank + 1) as real);
  }

  lemma TwoSharesToThree(x: real)
    requires x > 0.0
    ensures W_VEC / x > W_FTS / x
  {
    assert W_VEC / x - W_FTS / x == 0.2 / x;
  }

  /** An id at the top of both rankings has the greatest possible score, and each ranking gives its
      share of it: four tenths for full text, six tenths for vectors. */
  lemma TopScore(rrfK: nat)
    ensures RrfScore(Some(0), Some(0), rrfK) == 1.0 / ((rrfK + 1) as real)
    ensures RrfScore(Some(0), None, rrfK) * ((rrfK + 1) as real) == 0.4
    ensures RrfScore(None, Some(0), rrfK) * ((rrfK + 1) as real) == 0.6
  {
    SharesAddUp((rrfK + 1) as real);
  }

  /** A share at a lower rank is as much smaller as the rank is further down. */
  lemma ShareAtRank(weight: real, rank: nat, rrfK: nat)
    ensures RankShare(weight, Some(rank), rrfK) * ((rrfK + rank + 1) as real) == weight
  {
  }

  /** At least as good in both rankings, and strictly better in one. */
  predicate Dominates(a: Hit, b: Hit) {
    && NoWorse(a.ftsRank, b.ftsRank) && NoWorse(a.vecRank, b.vecRank)
    && (a.ftsRank != b.ftsRank || a.vecRank != b.vecRank)
  }
}
