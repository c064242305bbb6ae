/** The stable sort of the standard library, by a real key, and what any permutation keeps. */
module Sorting {

  /** Inserts `x` after every element it does not have to precede. */
  function Insert<T>(sorted: seq<T>, x: T, before: (T, T) -> bool): seq<T> {
    if sorted != [] && before(x, sorted[|sorted| - 1])
    then Insert(sorted[..|sorted| - 1], x, before) + [sorted[|sorted| - 1]]
    else sorted + [x]
  }

  /** The stable sort of the standard library, as insertion from left to right. */
  function StableSort<T>(items: seq<T>, before: (T, T) -> bool): seq<T> {
    if items == [] then [] else Insert(StableSort(items[..|items| - 1], before), items[|items| - 1], before)
  }

  function GreaterKey<T>(key: T -> real): (T, T) -> bool {
    (a, b) => key(a) > key(b)
  }

  function SortDescending<T>(items: seq<T>, key: T -> real): seq<T> {
    StableSort(items, GreaterKey(key))
  }

  ghost predicate IsDescending<T>(items: seq<T>, key: T -> real) {
    forall i, j :: 0 <= i < j < |items| ==> key(items[i]) >= key(items[j])
  }

  lemma {:induction false} InsertAdds<T>(sorted: seq<T>, x: T, before: (T, T) -> bool)
    ensures multiset(Insert(sorted, x, before)) == multiset(sorted) + multiset{x}
  {
    if sorted != [] && before(x, sorted[|sorted| - 1]) {
      InsertAdds(sorted[..|sorted| - 1], x, before);
      assert sorted == sorted[..|sorted| - 1] + [sorted[|sorted| - 1]];
    }
  }

  ghost predicate AtLeast<T>(items: seq<T>, key: T -> real, bound: real) {
    forall i :: 0 <= i < |items| ==> key(items[i]) >= bound
  }

  lemma {:induction false} InsertIsSorted<T>(sorted: seq<T>, x: T, key: T -> real, bound: real)
    requires IsDescending(sorted, key)
    ensures IsDescending(Insert(sorted, x, GreaterKey(key)), key)
    ensures AtLeast(sorted, key, bound) && key(x) >= bound ==> AtLeast(Insert(sorted, x, GreaterKey(key)), key, bound)
  {
    if sorted != [] && key(sorted[|sorted| - 1]) < key(x) {
      var front, last := sorted[..|sorted| - 1], sorted[|sorted| - 1];
      InsertIsSorted(front, x, key, key(last));
      InsertIsSorted(front, x, key, bound);
    }
  }

  lemma {:induction false} SortPermutes<T>(items: seq<T>, before: (T, T) -> bool)
    ensures multiset(StableSort(items, before)) == multiset(items)
  {
    hide Insert;
    if items == [] {
    } else {
      var front, last := items[..|items| - 1], items[|items| - 1];
      SortPermutes(front, before);
      InsertAdds(StableSort(front, before), last, before);
      assert items == front + [last];
    }
  }

  lemma {:induction false} SortSorts<T>(items: seq<T>, key: T -> real)
    ensures IsDescending(SortDescending(items, key), key)
    ensures multiset(SortDescending(items, key)) == multiset(items)
  {
    hide Insert;
    if items == [] {
    } else {
      var front, last := items[..|items| - 1], items[|items| - 1];
      SortSorts(front, key);
      InsertIsSorted(SortDescending(front, key), last, key, 0.0);
      hide IsDescending;
      SortPermutes(items, GreaterKey(key));
    }
  }

  // ---------- Stability ----------

  /** Item `p` belongs before item `q`: its key is greater, or equal and it stood first. */
  ghost predicate ComesFirst<T>(items: seq<T>, p: nat, q: nat, key: T -> real) {
    && p < |items| && q < |items|
    && (key(items[p]) > key(items[q]) || (key(items[p]) == key(items[q]) && p < q))
  }

  /** The sorted items are the items at the positions `pos`, each used once; items come by falling
      key, and items of one key in their original order. */
  ghost predicate SortsStably<T>(items: seq<T>, sorted: seq<T>, pos: seq<nat>, key: T -> real) {
    IsAt(items, sorted, pos) && IsOrdered(items, pos, key)
  }

  ghost predicate IsAt<T>(items: seq<T>, sorted: seq<T>, pos: seq<nat>) {
    |pos| == |sorted| && forall k :: 0 <= k < |pos| ==> pos[k] < |items| && sorted[k] == items[pos[k]]
  }

  ghost predicate IsOrdered<T>(items: seq<T>, pos: seq<nat>, key: T -> real) {
    forall j, k :: 0 <= j < k < |pos| ==> ComesFirst(items, pos[j], pos[k], key)
  }

  lemma {:induction false} InsertKeepsStable<T>(items: seq<T>, sorted: seq<T>, pos: seq<nat>, i: nat, key: T -> real)
    returns (more: seq<nat>)
    requires SortsStably(items, sorted, pos, key) && i < |items| && forall p <- pos :: p < i
    ensures SortsStably(items, Insert(sorted, items[i], GreaterKey(key)), more, key)
    ensures |more| == |pos| + 1 && forall p <- more :: p in pos || p == i
    decreases |sorted|
  {
    if sorted != [] && key(sorted[|sorted| - 1]) < key(items[i]) {
      var n := |sorted| - 1;
      assert forall p <- pos[..n] :: p in pos;
      more := InsertKeepsStable(items, sorted[..n], pos[..n], i, key);
      hide Insert;
      forall p | p in more
        ensures ComesFirst(items, p, pos[n], key)
      {
        if p != i {
          var j :| 0 <= j < n && pos[j] == p;
        }
      }
      OrderedPushed(items, Insert(sorted[..n], items[i], GreaterKey(key)), more, pos[n], key);
      more := more + [pos[n]];
    } else {
      forall p | p in pos
        ensures ComesFirst(items, p, i, key)
      {
        LastIsLeast(items, sorted, pos, p, key);
      }
      OrderedPushed(items, sorted, pos, i, key);
      more := pos + [i];
    }
  }

  lemma LastIsLeast<T>(items: seq<T>, sorted: seq<T>, pos: seq<nat>, p: nat, key: T -> real)
    requires SortsStably(items, sorted, pos, key) && p in pos
    ensures sorted != [] && p < |items| && key(items[p]) >= key(sorted[|sorted| - 1])
  {
    var j :| 0 <= j < |pos| && pos[j] == p;
    assert j < |pos| - 1 ==> ComesFirst(items, pos[j], pos[|pos| - 1], key);
  }

  lemma OrderedPushed<T>(items: seq<T>, sorted: seq<T>, pos: seq<nat>, i: nat, key: T -> real)
    requires SortsStably(items, sorted, pos, key) && i < |items| && forall p <- pos :: ComesFirst(items, p, i, key)
    ensures SortsStably(items, sorted + [items[i]], pos + [i], key)
  {
  }

  /** The sort is stable, and uses every item. */
  lemma SortIsStable<T>(items: seq<T>, key: T -> real) returns (pos: seq<nat>)
    ensures SortsStably(items, SortDescending(items, key), pos, key)
    ensures |pos| == |items|
  {
    pos := PrefixSortIsStable(items, |items|, key);
    assert items[..|items|] == items;
  }

  lemma {:induction false} PrefixSortIsStable<T>(items: seq<T>, n: nat, key: T -> real) returns (pos: seq<nat>)
    requires n <= |items|
    ensures SortsStably(items, SortDescending(items[..n], key), pos, key)
    ensures |pos| == n && forall p <- pos :: p < n
  {
    hide Insert;
    if n == 0 {
      pos := [];
    } else {
      pos := PrefixSortIsStable(items, n - 1, key);
      assert items[..n][..n - 1] == items[..n - 1];
      pos := InsertKeepsStable(items, SortDescending(items[..n - 1], key), pos, n - 1, key);
    }
  }

  lemma {:induction false} SortDependsOnKeys<T>(items: seq<T>, f: T -> real, g: T -> real)
    requires forall x: T :: f(x) == g(x)
    ensures SortDescending(items, f) == SortDescending(items, g)
  {
    if items == [] {
    } else {
      SortDependsOnKeys(items[..|items| - 1], f, g);
      InsertDependsOnKeys(SortDescending(items[..|items| - 1], g), items[|items| - 1], f, g);
    }
  }

  lemma {:induction false} InsertDependsOnKeys<T>(sorted: seq<T>, x: T, f: T -> real, g: T -> real)
    requires forall y: T :: f(y) == g(y)
    ensures Insert(sorted, x, GreaterKey(f)) == Insert(sorted, x, GreaterKey(g))
  {
    if sorted == [] {
    } else {
      InsertDependsOnKeys(sorted[..|sorted| - 1], x, f, g);
    }
  }

  // ---------- Permutations ----------

  ghost predicate DistinctBy<T>(s: seq<T>, id: T -> string) {
    forall i, j :: 0 <= i < j < |s| ==> id(s[i]) != id(s[j])
  }

  lemma TwiceInMultiset<T>(s: seq<T>, i: nat, j: nat)
    requires i < j < |s| && s[i] == s[j]
    ensures multiset(s)[s[i]] >= 2
  {
    assert s == s[..i] + [s[i]] + s[i + 1..j] + [s[j]] + s[j + 1..];
  }

  lemma {:induction false} OnceInMultiset<T>(s: seq<T>, x: T, id: T -> string)
    requires DistinctBy(s, id)
    ensures multiset(s)[x] <= 1
  {
    if s == [] {
    } else {
      var front, last := s[..|s| - 1], s[|s| - 1];
      OnceInMultiset(front, x, id);
      assert s == front + [last];
      if x == last {
        assert forall i :: 0 <= i < |front| ==> id(front[i]) != id(last);
        assert x !in front;
        assert multiset(front)[x] == 0;
      }
    }
  }

  lemma PermutationMembers<T>(a: seq<T>, b: seq<T>)
    requires multiset(a) == multiset(b)
    ensures |a| == |b| && forall x :: x in a <==> x in b
  {
    assert |multiset(a)| == |a| && |multiset(b)| == |b|;
    forall x
      ensures x in a <==> x in b
    {
      assert x in a <==> x in multiset(a);
      assert x in b <==> x in multiset(b);
    }
  }

  lemma PermutationKeepsDistinct<T>(a: seq<T>, b: seq<T>, id: T -> string)
    requires multiset(a) == multiset(b) && DistinctBy(a, id)
    ensures DistinctBy(b, id)
  {
    PermutationMembers(a, b);
    forall i, j | 0 <= i < j < |b|
      ensures id(b[i]) != id(b[j])
    {
      assert b[i] in a && b[j] in a;
      if b[i] == b[j] {
        TwiceInMultiset(b, i, j);
        OnceInMultiset(a, b[i], id);
      }
    }
  }
}
