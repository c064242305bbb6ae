/** The board's task tree: collecting descendants and deleting a subtree. */
module TaskTree {
  import opened Selection
  import opened Text

  datatype Task = Task(id: string, parentId: Option<string>, title: string, status: string, order: int)

  // ---------- Ancestry ----------

  predicate Edge(tasks: seq<Task>, parent: string, child: string) {
    exists t <- tasks :: t.id == child && t.parentId == Some(parent)
  }

  /** `b` lies `n` generations below `a`. */
  ghost predicate Below(tasks: seq<Task>, a: string, b: string, n: nat)
    decreases n
  {
    n > 0 && if n == 1 then Edge(tasks, a, b) else exists c :: Below(tasks, a, c, n - 1) && Edge(tasks, c, b)
  }

  ghost predicate IsDescendant(tasks: seq<Task>, a: string, b: string) {
    exists n: nat :: Below(tasks, a, b, n)
  }

  ghost predicate UniqueIds(tasks: seq<Task>) {
    forall i, j :: 0 <= i < j < |tasks| ==> tasks[i].id != tasks[j].id
  }

  /** No task in the subtree of `a` is its own descendant. */
  ghost predicate AcyclicBelow(tasks: seq<Task>, a: string) {
    && !IsDescendant(tasks, a, a)
    && forall x :: IsDescendant(tasks, a, x) ==> !IsDescendant(tasks, x, x)
  }

  /** The ids of the strict descendants of `a`. */
  ghost function DescendantSet(tasks: seq<Task>, a: string): set<string> {
    set t <- tasks | IsDescendant(tasks, a, t.id) :: t.id
  }

  lemma EdgeIsDescendant(tasks: seq<Task>, a: string, b: string)
    requires Edge(tasks, a, b)
    ensures IsDescendant(tasks, a, b)
  {
    assert Below(tasks, a, b, 1);
  }

  lemma DescendantSnoc(tasks: seq<Task>, a: string, c: string, b: string)
    requires IsDescendant(tasks, a, c) && Edge(tasks, c, b)
    ensures IsDescendant(tasks, a, b)
  {
    var n: nat :| Below(tasks, a, c, n);
    assert Below(tasks, a, b, n + 1);
  }

  lemma {:induction false} BelowCons(tasks: seq<Task>, a: string, c: string, b: string, n: nat)
    requires Edge(tasks, a, c) && Below(tasks, c, b, n)
    ensures Below(tasks, a, b, n + 1)
    decreases n
  {
    if n == 1 {
      assert Below(tasks, a, c, 1);
    } else {
      var d :| Below(tasks, c, d, n - 1) && Edge(tasks, d, b);
      BelowCons(tasks, a, c, d, n - 1);
    }
  }

  lemma DescendantCons(tasks: seq<Task>, a: string, c: string, b: string)
    requires Edge(tasks, a, c) && IsDescendant(tasks, c, b)
    ensures IsDescendant(tasks, a, b)
  {
    var n: nat :| Below(tasks, c, b, n);
    BelowCons(tasks, a, c, b, n);
  }

  /** A descendant is a child or a descendant of a child. */
  lemma {:induction false} BelowHead(tasks: seq<Task>, a: string, b: string, n: nat) returns (c: string)
    requires Below(tasks, a, b, n)
    ensures Edge(tasks, a, c) && (c == b || IsDescendant(tasks, c, b))
    decreases n
  {
    if n == 1 {
      c := b;
    } else {
      var d :| Below(tasks, a, d, n - 1) && Edge(tasks, d, b);
      c := BelowHead(tasks, a, d, n - 1);
      if c == d {
        EdgeIsDescendant(tasks, c, b);
      } else {
        DescendantSnoc(tasks, c, d, b);
      }
    }
  }

  lemma {:induction false} BelowTrans(tasks: seq<Task>, a: string, c: string, b: string, n: nat)
    requires IsDescendant(tasks, a, c) && Below(tasks, c, b, n)
    ensures IsDescendant(tasks, a, b)
    decreases n
  {
    if n == 1 {
      DescendantSnoc(tasks, a, c, b);
    } else {
      var d :| Below(tasks, c, d, n - 1) && Edge(tasks, d, b);
      BelowTrans(tasks, a, c, d, n - 1);
      DescendantSnoc(tasks, a, d, b);
    }
  }

  lemma DescendantTrans(tasks: seq<Task>, a: string, c: string, b: string)
    requires IsDescendant(tasks, a, c) && IsDescendant(tasks, c, b)
    ensures IsDescendant(tasks, a, b)
  {
    var n: nat :| Below(tasks, c, b, n);
    BelowTrans(tasks, a, c, b, n);
  }

  lemma ChildSubtreeIsAcyclic(tasks: seq<Task>, a: string, c: string)
    requires AcyclicBelow(tasks, a) && Edge(tasks, a, c)
    ensures AcyclicBelow(tasks, c) && DescendantSet(tasks, c) < DescendantSet(tasks, a)
  {
    EdgeIsDescendant(tasks, a, c);
    forall x | IsDescendant(tasks, c, x)
      ensures IsDescendant(tasks, a, x)
    {
      DescendantCons(tasks, a, c, x);
    }
    assert c in DescendantSet(tasks, a) && c !in DescendantSet(tasks, c);
  }

  // ---------- Collecting descendants ----------

  function ChildrenOf(tasks: seq<Task>, parent: string, upTo: nat): seq<Task>
    requires upTo <= |tasks|
  {
    if upTo == 0 then []
    else
      ChildrenOf(tasks, parent, upTo - 1)
      + (if tasks[upTo - 1].parentId == Some(parent) then [tasks[upTo - 1]] else [])
  }

  lemma {:induction false} ChildrenAreEdges(tasks: seq<Task>, parent: string, upTo: nat)
    requires upTo <= |tasks|
    ensures forall i :: 0 <= i < |ChildrenOf(tasks, parent, upTo)| ==>
              Edge(tasks, parent, ChildrenOf(tasks, parent, upTo)[i].id)
    ensures forall j :: 0 <= j < upTo && tasks[j].parentId == Some(parent) ==>
              tasks[j] in ChildrenOf(tasks, parent, upTo)
    ensures forall t <- ChildrenOf(tasks, parent, upTo) :: t in tasks[..upTo]
  {
    if upTo == 0 {
    } else {
      ChildrenAreEdges(tasks, parent, upTo - 1);
      assert tasks[..upTo] == tasks[..upTo - 1] + [tasks[upTo - 1]];
    }
  }

  ghost predicate AreChildren(tasks: seq<Task>, parent: string, kids: seq<Task>) {
    forall i :: 0 <= i < |kids| ==> Edge(tasks, parent, kids[i].id)
  }

  /** Each child in list order, followed at once by its own descendants. */
  ghost function Descendants(tasks: seq<Task>, parent: string): seq<string>
    requires AcyclicBelow(tasks, parent)
    decreases DescendantSet(tasks, parent), |tasks| + 1
  {
    ChildrenAreEdges(tasks, parent, |tasks|);
    assert |ChildrenOf(tasks, parent, |tasks|)| <= |tasks| by { ChildCount(tasks, parent, |tasks|); }
    Subtrees(tasks, parent, ChildrenOf(tasks, parent, |tasks|))
  }

  ghost function Subtrees(tasks: seq<Task>, parent: string, kids: seq<Task>): seq<string>
    requires AcyclicBelow(tasks, parent) && AreChildren(tasks, parent, kids)
    decreases DescendantSet(tasks, parent), |kids|
  {
    if kids == [] then []
    else
      var kid := kids[|kids| - 1].id;
      ChildSubtreeIsAcyclic(tasks, parent, kid);
      Subtrees(tasks, parent, kids[..|kids| - 1]) + [kid] + Descendants(tasks, kid)
  }

  lemma {:induction false} ChildCount(tasks: seq<Task>, parent: string, upTo: nat)
    requires upTo <= |tasks|
    ensures |ChildrenOf(tasks, parent, upTo)| <= upTo
  {
    if upTo == 0 {
    } else {
      ChildCount(tasks, parent, upTo - 1);
    }
  }

  /** The recursion ends whenever the subtree has no cycle. */
  method GetDescendantIds(tasks: seq<Task>, parentId: string) returns (ids: seq<string>)
    requires AcyclicBelow(tasks, parentId)
    ensures ids == Descendants(tasks, parentId)
    decreases DescendantSet(tasks, parentId)
  {
    ids := [];
    ChildrenAreEdges(tasks, parentId, |tasks|);
    var children := ChildrenOf(tasks, parentId, |tasks|);
    for i := 0 to |children|
      invariant ids == Subtrees(tasks, parentId, children[..i])
    {
      var child := children[i];
      assert children[..i + 1][..i] == children[..i];
      ChildSubtreeIsAcyclic(tasks, parentId, child.id);
      ids := ids + [child.id];
      var below := GetDescendantIds(tasks, child.id);
      ids := ids + below;
    }
    assert children[..|children|] == children;
  }

  // ---------- What is collected ----------

  /** `x` is one of the children or below one. */
  ghost predicate AtOrBelow(tasks: seq<Task>, kids: seq<Task>, x: string) {
    exists i :: 0 <= i < |kids| && (kids[i].id == x || IsDescendant(tasks, kids[i].id, x))
  }

  lemma AtOrBelowLast(tasks: seq<Task>, kids: seq<Task>, x: string)
    requires kids != []
    ensures var kid := kids[|kids| - 1].id;
            AtOrBelow(tasks, kids, x)
            <==> AtOrBelow(tasks, kids[..|kids| - 1], x) || kid == x || IsDescendant(tasks, kid, x)
  {
    hide IsDescendant;
    var front := kids[..|kids| - 1];
    assert forall i :: 0 <= i < |front| ==> front[i] == kids[i];
  }

  lemma {:induction false} SubtreesListed(tasks: seq<Task>, parent: string, kids: seq<Task>, x: string)
    requires AcyclicBelow(tasks, parent) && AreChildren(tasks, parent, kids)
    ensures x in Subtrees(tasks, parent, kids) <==> AtOrBelow(tasks, kids, x)
    decreases DescendantSet(tasks, parent), |kids|
  {
    if kids == [] {
    } else {
      var kid := kids[|kids| - 1].id;
      ChildSubtreeIsAcyclic(tasks, parent, kid);
      AtOrBelowLast(tasks, kids, x);
      hide IsDescendant, AcyclicBelow, Edge, AtOrBelow;
      SubtreesListed(tasks, parent, kids[..|kids| - 1], x);
      DescendantsListed(tasks, kid, x);
    }
  }

  /** Exactly the strict descendants are listed. */
  lemma {:induction false} DescendantsListed(tasks: seq<Task>, parent: string, x: string)
    requires AcyclicBelow(tasks, parent)
    ensures x in Descendants(tasks, parent) <==> IsDescendant(tasks, parent, x)
    decreases DescendantSet(tasks, parent), |tasks| + 1
  {
    var kids := ChildrenOf(tasks, parent, |tasks|);
    ChildrenAreEdges(tasks, parent, |tasks|);
    ChildCount(tasks, parent, |tasks|);
    SubtreesListed(tasks, parent, kids, x);
    if IsDescendant(tasks, parent, x) {
      var n: nat :| Below(tasks, parent, x, n);
      var c := BelowHead(tasks, parent, x, n);
      var t :| t in tasks && t.id == c && t.parentId == Some(parent);
      var j :| 0 <= j < |tasks| && tasks[j] == t;
      assert t in kids;
    }
    if i: int :| 0 <= i < |kids| && (kids[i].id == x || IsDescendant(tasks, kids[i].id, x)) {
      EdgeIsDescendant(tasks, parent, kids[i].id);
      if kids[i].id != x {
        DescendantCons(tasks, parent, kids[i].id, x);
      }
    }
  }

  lemma OneParent(tasks: seq<Task>, a: string, b: string, x: string)
    requires UniqueIds(tasks) && Edge(tasks, a, x) && Edge(tasks, b, x)
    ensures a == b
  {
  }

  /** With unique ids, two ancestors of one task are related. */
  lemma {:induction false} AncestorsAreRelated(tasks: seq<Task>, a: string, b: string, x: string, n: nat)
    requires UniqueIds(tasks) && Below(tasks, a, x, n) && IsDescendant(tasks, b, x)
    ensures a == b || IsDescendant(tasks, a, b) || IsDescendant(tasks, b, a)
    decreases n
  {
    var m: nat :| Below(tasks, b, x, m);
    if n == 1 {
      if m > 1 {
        var c :| Below(tasks, b, c, m - 1) && Edge(tasks, c, x);
        OneParent(tasks, a, c, x);
      } else {
        OneParent(tasks, a, b, x);
      }
    } else {
      var c :| Below(tasks, a, c, n - 1) && Edge(tasks, c, x);
      if m == 1 {
        OneParent(tasks, c, b, x);
      } else {
        var d :| Below(tasks, b, d, m - 1) && Edge(tasks, d, x);
        OneParent(tasks, c, d, x);
        AncestorsAreRelated(tasks, a, b, c, n - 1);
      }
    }
  }

  /** Siblings have disjoint subtrees. */
  lemma SiblingsAreApart(tasks: seq<Task>, parent: string, c: string, d: string, x: string)
    requires UniqueIds(tasks) && AcyclicBelow(tasks, parent)
    requires Edge(tasks, parent, c) && Edge(tasks, parent, d) && c != d
    requires c == x || IsDescendant(tasks, c, x)
    ensures d != x && !IsDescendant(tasks, d, x)
  {
    if d == x || IsDescendant(tasks, d, x) {
      if c != x && d != x {
        var n: nat :| Below(tasks, c, x, n);
        AncestorsAreRelated(tasks, c, d, x, n);
      }
      if IsDescendant(tasks, c, d) {
        SiblingNotBelow(tasks, parent, c, d);
      } else {
        SiblingNotBelow(tasks, parent, d, c);
      }
    }
  }

  lemma SiblingNotBelow(tasks: seq<Task>, parent: string, c: string, d: string)
    requires UniqueIds(tasks) && AcyclicBelow(tasks, parent)
    requires Edge(tasks, parent, c) && Edge(tasks, parent, d)
    ensures !IsDescendant(tasks, c, d)
  {
    EdgeIsDescendant(tasks, parent, c);
    if m: nat :| Below(tasks, c, d, m) {
      if m == 1 {
        OneParent(tasks, c, parent, d);
      } else {
        var e :| Below(tasks, c, e, m - 1) && Edge(tasks, e, d);
        OneParent(tasks, e, parent, d);
        DescendantTrans(tasks, parent, c, parent);
      }
    }
  }

  ghost predicate NoRepeats(s: seq<string>) {
    forall i, j :: 0 <= i < j < |s| ==> s[i] != s[j]
  }

  lemma NoRepeatsConcat(a: seq<string>, b: seq<string>)
    requires NoRepeats(a) && NoRepeats(b) && forall x <- a :: x !in b
    ensures NoRepeats(a + b)
  {
    var s := a + b;
    forall i, j | 0 <= i < j < |s|
      ensures s[i] != s[j]
    {
      if i < |a| && |a| <= j {
        assert a[i] in a && b[j - |a|] in b;
      }
    }
  }

  ghost predicate DistinctKids(kids: seq<Task>) {
    forall i, j :: 0 <= i < j < |kids| ==> kids[i].id != kids[j].id
  }

  lemma {:induction false} ChildrenAreDistinct(tasks: seq<Task>, parent: string, upTo: nat)
    requires UniqueIds(tasks) && upTo <= |tasks|
    ensures DistinctKids(ChildrenOf(tasks, parent, upTo))
  {
    if upTo == 0 {
    } else {
      ChildrenAreDistinct(tasks, parent, upTo - 1);
      ChildrenAreEdges(tasks, parent, upTo - 1);
      var kids := ChildrenOf(tasks, parent, upTo - 1);
      forall i | 0 <= i < |kids|
        ensures kids[i].id != tasks[upTo - 1].id
      {
        assert kids[i] in tasks[..upTo - 1];
      }
    }
  }

  lemma {:induction false} SubtreesListOnce(tasks: seq<Task>, parent: string, kids: seq<Task>)
    requires UniqueIds(tasks) && AcyclicBelow(tasks, parent) && AreChildren(tasks, parent, kids) && DistinctKids(kids)
    ensures NoRepeats(Subtrees(tasks, parent, kids))
    decreases DescendantSet(tasks, parent), |kids|
  {
    if kids == [] {
    } else {
      var front, kid := kids[..|kids| - 1], kids[|kids| - 1].id;
      ChildSubtreeIsAcyclic(tasks, parent, kid);
      SubtreesListOnce(tasks, parent, front);
      DescendantsListedOnce(tasks, kid);
      var head, tail := Subtrees(tasks, parent, front), Descendants(tasks, kid);
      DescendantsListed(tasks, kid, kid);
      NoRepeatsConcat([kid], tail);
      forall x | x in head
        ensures x !in [kid] + tail
      {
        SubtreesListed(tasks, parent, front, x);
        var i :| 0 <= i < |front| && (front[i].id == x || IsDescendant(tasks, front[i].id, x));
        SiblingsAreApart(tasks, parent, front[i].id, kid, x);
        DescendantsListed(tasks, kid, x);
      }
      NoRepeatsConcat(head, [kid] + tail);
      assert head + [kid] + tail == head + ([kid] + tail);
    }
  }

  /** With unique ids every descendant is listed once. */
  lemma {:induction false} DescendantsListedOnce(tasks: seq<Task>, parent: string)
    requires UniqueIds(tasks) && AcyclicBelow(tasks, parent)
    ensures NoRepeats(Descendants(tasks, parent))
    decreases DescendantSet(tasks, parent), |tasks| + 1
  {
    ChildrenAreEdges(tasks, parent, |tasks|);
    ChildCount(tasks, parent, |tasks|);
    ChildrenAreDistinct(tasks, parent, |tasks|);
    SubtreesListOnce(tasks, parent, ChildrenOf(tasks, parent, |tasks|));
  }

  // ---------- The order of the list ----------

  /** Whatever stands at place `i` is a child of the start or of something listed before it. */
  ghost predicate FollowsParent(tasks: seq<Task>, start: string, ids: seq<string>, i: nat)
    requires i < |ids|
  {
    Edge(tasks, start, ids[i]) || exists j :: 0 <= j < i && Edge(tasks, ids[j], ids[i])
  }

  ghost predicate ParentsFirst(tasks: seq<Task>, start: string, ids: seq<string>) {
    forall i: nat :: i < |ids| ==> FollowsParent(tasks, start, ids, i)
  }

  /** Appending a child of the start and what stands below it keeps parents first. */
  lemma ParentsFirstAppend(tasks: seq<Task>, start: string, ids: seq<string>, kid: string, below: seq<string>)
    requires ParentsFirst(tasks, start, ids) && Edge(tasks, start, kid) && ParentsFirst(tasks, kid, below)
    ensures ParentsFirst(tasks, start, ids + [kid] + below)
  {
    hide Edge;
    var all := ids + [kid] + below;
    forall i: nat | i < |all|
      ensures FollowsParent(tasks, start, all, i)
    {
      if i < |ids| {
        assert FollowsParent(tasks, start, ids, i);
        if !Edge(tasks, start, ids[i]) {
          var j :| 0 <= j < i && Edge(tasks, ids[j], ids[i]);
          assert Edge(tasks, all[j], all[i]);
        }
      } else if i > |ids| {
        var n := i - |ids| - 1;
        assert FollowsParent(tasks, kid, below, n);
        if Edge(tasks, kid, below[n]) {
          assert Edge(tasks, all[|ids|], all[i]);
        } else {
          var j :| 0 <= j < n && Edge(tasks, below[j], below[n]);
          assert Edge(tasks, all[|ids| + 1 + j], all[i]);
        }
      }
    }
  }

  lemma {:induction false} SubtreesParentsFirst(tasks: seq<Task>, parent: string, kids: seq<Task>)
    requires AcyclicBelow(tasks, parent) && AreChildren(tasks, parent, kids)
    ensures ParentsFirst(tasks, parent, Subtrees(tasks, parent, kids))
    decreases DescendantSet(tasks, parent), |kids|
  {
    if kids == [] {
    } else {
      var kid := kids[|kids| - 1].id;
      ChildSubtreeIsAcyclic(tasks, parent, kid);
      hide ParentsFirst, IsDescendant, AcyclicBelow, Edge;
      SubtreesParentsFirst(tasks, parent, kids[..|kids| - 1]);
      DescendantsParentsFirst(tasks, kid);
      ParentsFirstAppend(tasks, parent, Subtrees(tasks, parent, kids[..|kids| - 1]), kid, Descendants(tasks, kid));
    }
  }

  /** No descendant is listed before all of its parents. */
  lemma {:induction false} DescendantsParentsFirst(tasks: seq<Task>, parent: string)
    requires AcyclicBelow(tasks, parent)
    ensures ParentsFirst(tasks, parent, Descendants(tasks, parent))
    decreases DescendantSet(tasks, parent), |tasks| + 1
  {
    ChildrenAreEdges(tasks, parent, |tasks|);
    ChildCount(tasks, parent, |tasks|);
    SubtreesParentsFirst(tasks, parent, ChildrenOf(tasks, parent, |tasks|));
  }

  // ---------- When the recursion ends ----------

  lemma {:induction false} BelowAdds(tasks: seq<Task>, a: string, c: string, b: string, n: nat, k: nat) returns (m: nat)
    requires Below(tasks, a, c, n) && Below(tasks, c, b, k)
    ensures m == n + k && Below(tasks, a, b, m)
    decreases k
  {
    m := n + k;
    if k > 1 {
      var d :| Below(tasks, c, d, k - 1) && Edge(tasks, d, b);
      var l := BelowAdds(tasks, a, c, d, n, k - 1);
    }
  }

  /** On a cycle there are chains of every length. */
  lemma {:induction false} CycleNests(tasks: seq<Task>, x: string, n: nat) returns (m: nat)
    requires IsDescendant(tasks, x, x)
    ensures m >= n && Below(tasks, x, x, m)
    decreases n
  {
    var k: nat :| Below(tasks, x, x, k);
    if n <= k {
      m := k;
    } else {
      m := CycleNests(tasks, x, n - k);
      m := BelowAdds(tasks, x, x, x, m, k);
    }
  }

  /** The recursive calls nest at most `bound` deep: a call for `x` at depth `n` comes from a
      chain of `n` children. */
  ghost predicate NestsAtMost(tasks: seq<Task>, a: string, bound: nat) {
    forall x: string, n: nat :: Below(tasks, a, x, n) ==> n <= bound
  }

  /** On or above a cycle the recursion nests without end. */
  lemma CycleNestsForever(tasks: seq<Task>, a: string, n: nat) returns (x: string, m: nat)
    requires !AcyclicBelow(tasks, a)
    ensures m >= n && Below(tasks, a, x, m)
  {
    if IsDescendant(tasks, a, a) {
      x := a;
      m := CycleNests(tasks, a, n);
    } else {
      x :| IsDescendant(tasks, a, x) && IsDescendant(tasks, x, x);
      var k: nat :| Below(tasks, a, x, k);
      m := CycleNests(tasks, x, n);
      m := BelowAdds(tasks, a, x, x, k, m);
    }
  }

  /** A chain starts with a child. */
  lemma {:induction false} BelowUncons(tasks: seq<Task>, a: string, b: string, n: nat) returns (c: string)
    requires Below(tasks, a, b, n) && n > 1
    ensures Edge(tasks, a, c) && Below(tasks, c, b, n - 1)
    decreases n
  {
    var d :| Below(tasks, a, d, n - 1) && Edge(tasks, d, b);
    if n == 2 {
      c := d;
    } else {
      c := BelowUncons(tasks, a, d, n - 1);
    }
  }

  lemma {:induction false} ChainsAreShort(tasks: seq<Task>, a: string, b: string, n: nat)
    requires AcyclicBelow(tasks, a) && Below(tasks, a, b, n)
    ensures n <= |DescendantSet(tasks, a)|
    decreases n
  {
    if n == 1 {
      EdgeIsDescendant(tasks, a, b);
      assert b in DescendantSet(tasks, a);
    } else {
      var c := BelowUncons(tasks, a, b, n);
      ChildSubtreeIsAcyclic(tasks, a, c);
      ChainsAreShort(tasks, c, b, n - 1);
      ProperSubsetIsSmaller(DescendantSet(tasks, c), DescendantSet(tasks, a));
    }
  }

  lemma ProperSubsetIsSmaller<T>(s: set<T>, t: set<T>)
    requires s < t
    ensures |s| < |t|
  {
    assert t == s + (t - s);
  }

  lemma {:induction false} FewIds(tasks: seq<Task>)
    ensures |set t <- tasks :: t.id| <= |tasks|
  {
    if tasks == [] {
    } else {
      var front, last := tasks[..|tasks| - 1], tasks[|tasks| - 1];
      FewIds(front);
      assert (set t <- tasks :: t.id) == (set t <- front :: t.id) + {last.id};
    }
  }

  lemma FewDescendants(tasks: seq<Task>, a: string)
    ensures |DescendantSet(tasks, a)| <= |tasks|
  {
    var ids := set t <- tasks :: t.id;
    FewIds(tasks);
    assert ids == DescendantSet(tasks, a) + (ids - DescendantSet(tasks, a));
  }

  /** The exact condition: collecting descendants ends, and then nests at most as deep as there
      are tasks, if and only if no cycle lies at or below the start. */
  lemma EndsIffAcyclic(tasks: seq<Task>, a: string)
    ensures AcyclicBelow(tasks, a) <==> exists bound: nat :: NestsAtMost(tasks, a, bound)
    ensures AcyclicBelow(tasks, a) <==> NestsAtMost(tasks, a, |tasks|)
  {
    hide AcyclicBelow, Below;
    if AcyclicBelow(tasks, a) {
      forall x: string, n: nat | Below(tasks, a, x, n)
        ensures n <= |tasks|
      {
        ChainsAreShort(tasks, a, x, n);
        FewDescendants(tasks, a);
      }
      assert NestsAtMost(tasks, a, |tasks|);
    } else {
      forall bound: nat
        ensures !NestsAtMost(tasks, a, bound)
      {
        var x, m := CycleNestsForever(tasks, a, bound + 1);
      }
    }
  }

  /** Nothing in the task type rules a cycle out: once two tasks name each other as parent,
      collecting the descendants of either does not end. */
  lemma TwoTasksOnACycle(tasks: seq<Task>, a: Task, b: Task)
    requires a in tasks && b in tasks && a.parentId == Some(b.id) && b.parentId == Some(a.id)
    ensures forall bound: nat :: !NestsAtMost(tasks, a.id, bound)
  {
    assert Edge(tasks, a.id, b.id) && Edge(tasks, b.id, a.id);
    EdgeIsDescendant(tasks, a.id, b.id);
    DescendantSnoc(tasks, a.id, b.id, a.id);
    EndsIffAcyclic(tasks, a.id);
  }

  lemma TwoTaskCycle()
    ensures var tasks := [Task("a", Some("b"), "", "open", 0), Task("b", Some("a"), "", "open", 1)];
            UniqueIds(tasks) && forall bound: nat :: !NestsAtMost(tasks, "a", bound)
  {
    var a, b := Task("a", Some("b"), "", "open", 0), Task("b", Some("a"), "", "open", 1);
    assert a.id[0] != b.id[0];
    TwoTasksOnACycle([a, b], a, b);
  }

  // ---------- Deleting ----------

  function Surviving(tasks: seq<Task>, gone: set<string>): seq<Task> {
    if tasks == [] then []
    else Surviving(tasks[..|tasks| - 1], gone) + (if tasks[|tasks| - 1].id in gone then [] else [tasks[|tasks| - 1]])
  }

  lemma {:induction false} SurvivingMembers(tasks: seq<Task>, gone: set<string>)
    ensures forall t :: t in Surviving(tasks, gone) <==> t in tasks && t.id !in gone
  {
    if tasks == [] {
    } else {
      SurvivingMembers(tasks[..|tasks| - 1], gone);
      assert tasks == tasks[..|tasks| - 1] + [tasks[|tasks| - 1]];
    }
  }

  /** `rest` are the tasks whose ids stay, all of them, in their order. */
  ghost predicate KeepsOthers(tasks: seq<Task>, gone: set<string>, rest: seq<Task>) {
    exists pos: seq<nat> ::
      && Selects(tasks, rest, pos)
      && forall i: nat :: i < |tasks| ==> (i in pos <==> tasks[i].id !in gone)
  }

  lemma {:induction false} SurvivingKeepsOthers(tasks: seq<Task>, gone: set<string>)
    ensures KeepsOthers(tasks, gone, Surviving(tasks, gone))
  {
    hide KeepsOthers;
    if tasks == [] {
      NothingKept(gone);
    } else {
      var front, last := tasks[..|tasks| - 1], tasks[|tasks| - 1];
      SurvivingKeepsOthers(front, gone);
      KeepsPushed(front, gone, Surviving(front, gone), last);
      assert tasks == front + [last];
    }
  }

  lemma NothingKept(gone: set<string>)
    ensures KeepsOthers([], gone, [])
  {
    assert Selects<Task>([], [], []);
  }

  lemma KeepsPushed(front: seq<Task>, gone: set<string>, rest: seq<Task>, last: Task)
    requires KeepsOthers(front, gone, rest)
    ensures KeepsOthers(front + [last], gone, rest + if last.id in gone then [] else [last])
  {
    var pos: seq<nat> :|
      Selects(front, rest, pos) && forall i: nat :: i < |front| ==> (i in pos <==> front[i].id !in gone);
    hide Selects;
    var more := SelectsPushed(front, rest, pos, last, last.id !in gone);
    assert rest + [] == rest;
  }

  lemma DescendantsAreTasks(tasks: seq<Task>, a: string, x: string)
    ensures x in DescendantSet(tasks, a) <==> IsDescendant(tasks, a, x)
  {
    if n: nat :| Below(tasks, a, x, n) {
      var p := if n == 1 then a else var c :| Below(tasks, a, c, n - 1) && Edge(tasks, c, x); c;
      assert Edge(tasks, p, x);
      var t :| t in tasks && t.id == x && t.parentId == Some(p);
    }
  }

  /** Deleting takes exactly the task and its descendants, keeps all else in order, and leaves
      no task with a deleted parent. */
  lemma DeletionLeavesNoOrphans(tasks: seq<Task>, id: string)
    ensures var rest := Surviving(tasks, {id} + DescendantSet(tasks, id));
            && KeepsOthers(tasks, {id} + DescendantSet(tasks, id), rest)
            && (forall t :: t in rest <==> t in tasks && t.id != id && !IsDescendant(tasks, id, t.id))
            && (forall t <- rest :: t.parentId.Some? ==>
                  t.parentId.value != id && !IsDescendant(tasks, id, t.parentId.value))
  {
    var gone := {id} + DescendantSet(tasks, id);
    SurvivingMembers(tasks, gone);
    SurvivingKeepsOthers(tasks, gone);
    hide KeepsOthers;
    forall x: string
      ensures x in gone <==> x == id || IsDescendant(tasks, id, x)
    {
      DescendantsAreTasks(tasks, id, x);
    }
    forall t | t in Surviving(tasks, gone) && t.parentId.Some?
      ensures t.parentId.value != id && !IsDescendant(tasks, id, t.parentId.value)
    {
      var p := t.parentId.value;
      assert Edge(tasks, p, t.id);
      if p == id {
        EdgeIsDescendant(tasks, p, t.id);
      } else if IsDescendant(tasks, id, p) {
        DescendantSnoc(tasks, id, p, t.id);
      }
    }
  }
}
