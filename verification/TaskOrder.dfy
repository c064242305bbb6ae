/** Moving a board task among its active siblings. */
module TaskOrder {
  import opened Sorting
  import opened TaskTree
  import opened Text

  const ACTIVE: set<string> := {"open", "running", "verifying", "blocked", "failed"}

  /** Ascending order is descending negated order. */
  function Key(t: Task): real {
    -(t.order as real)
  }

  predicate IsSibling(t: Task, parent: Option<string>) {
    t.parentId == parent && t.status in ACTIVE
  }

  function Filter(tasks: seq<Task>, parent: Option<string>): seq<Task> {
    if tasks == [] then []
    else
      Filter(tasks[..|tasks| - 1], parent)
      + (if IsSibling(tasks[|tasks| - 1], parent) then [tasks[|tasks| - 1]] else [])
  }

  /** The active siblings under a parent in display order. */
  function Siblings(tasks: seq<Task>, parent: Option<string>): seq<Task> {
    SortDescending(Filter(tasks, parent), Key)
  }

  function IndexOf(s: seq<Task>, id: string): Option<nat> {
    if s == [] then None
    else if s[0].id == id then Some(0)
    else match IndexOf(s[1..], id) case None => None case Some(k) => Some(k + 1)
  }

  /** A map built from the list keeps the last position of an id. */
  function LastIndexOf(s: seq<Task>, id: string): Option<nat> {
    if s == [] then None
    else if s[|s| - 1].id == id then Some(|s| - 1)
    else LastIndexOf(s[..|s| - 1], id)
  }

  /** Where `splice` inserts into a list of `n`: past the end means at the end, negative counts
      back from it. */
  function SpliceIndex(n: nat, index: int): nat {
    if index > n then n else if index >= 0 then index else if n + index > 0 then n + index else 0
  }

  function Moved<T>(s: seq<T>, from: nat, to: int): seq<T>
    requires from < |s|
  {
    var without := s[..from] + s[from + 1..];
    var at := SpliceIndex(|s| - 1, to);
    without[..at] + [s[from]] + without[at..]
  }

  /** Tasks named in the list get their last position there as order; all others stay as they are. */
  function Renumbered(tasks: seq<Task>, list: seq<Task>): seq<Task> {
    seq(|tasks|, i requires 0 <= i < |tasks| =>
      match LastIndexOf(list, tasks[i].id) case None => tasks[i] case Some(k) => tasks[i].(order := k))
  }

  /** The list after a move, as the action computes it; `None` when nothing is to be done. */
  function Reordered(tasks: seq<Task>, id: string, newIndex: int): Option<seq<Task>> {
    match IndexOf(tasks, id)
    case None => None
    case Some(k) =>
      if k >= |tasks| then None
      else
        var siblings := Siblings(tasks, tasks[k].parentId);
        match IndexOf(siblings, id)
        case None => None
        case Some(at) =>
          if at == newIndex || at >= |siblings| then None else Some(Moved(siblings, at, newIndex))
  }

  lemma {:induction false} IndexInRange(s: seq<Task>, id: string)
    ensures match IndexOf(s, id)
            case None => forall t <- s :: t.id != id
            case Some(k) => k < |s| && s[k].id == id && forall i :: 0 <= i < k ==> s[i].id != id
  {
    if s == [] {
    } else {
      IndexInRange(s[1..], id);
      assert s == [s[0]] + s[1..];
    }
  }

  lemma IndexOfUnique(s: seq<Task>, k: nat)
    requires k < |s| && UniqueIds(s)
    ensures IndexOf(s, s[k].id) == Some(k)
  {
    IndexInRange(s, s[k].id);
    assert s[k] in s;
  }

  lemma {:induction false} LastIndexInRange(s: seq<Task>, id: string)
    ensures match LastIndexOf(s, id)
            case None => forall t <- s :: t.id != id
            case Some(k) => k < |s| && s[k].id == id && forall i :: k < i < |s| ==> s[i].id != id
  {
    if s == [] {
    } else {
      LastIndexInRange(s[..|s| - 1], id);
      assert s == s[..|s| - 1] + [s[|s| - 1]];
    }
  }

  /** First and last position agree when ids are unique. */
  lemma OnlyIndexOf(s: seq<Task>, id: string)
    requires UniqueIds(s)
    ensures LastIndexOf(s, id) == IndexOf(s, id)
  {
    IndexInRange(s, id);
    LastIndexInRange(s, id);
    assert IndexOf(s, id).Some? ==> s[IndexOf(s, id).value] in s;
    assert LastIndexOf(s, id).Some? ==> s[LastIndexOf(s, id).value] in s;
  }

  // ---------- What a move keeps ----------

  lemma {:induction false} FilterMembers(tasks: seq<Task>, parent: Option<string>)
    ensures forall t :: t in Filter(tasks, parent) <==> t in tasks && IsSibling(t, parent)
  {
    if tasks == [] {
    } else {
      FilterMembers(tasks[..|tasks| - 1], parent);
      assert tasks == tasks[..|tasks| - 1] + [tasks[|tasks| - 1]];
    }
  }

  lemma {:induction false} FilterUnique(tasks: seq<Task>, parent: Option<string>)
    requires UniqueIds(tasks)
    ensures UniqueIds(Filter(tasks, parent))
  {
    if tasks == [] {
    } else {
      var front, last := tasks[..|tasks| - 1], tasks[|tasks| - 1];
      FilterUnique(front, parent);
      FilterMembers(front, parent);
      var kept := Filter(front, parent);
      forall i | 0 <= i < |kept|
        ensures kept[i].id != last.id
      {
        assert kept[i] in front;
      }
    }
  }

  lemma SiblingsAre(tasks: seq<Task>, parent: Option<string>)
    requires UniqueIds(tasks)
    ensures UniqueIds(Siblings(tasks, parent))
    ensures forall t :: t in Siblings(tasks, parent) <==> t in tasks && IsSibling(t, parent)
    ensures forall i, j :: 0 <= i < j < |Siblings(tasks, parent)| ==>
              Siblings(tasks, parent)[i].order <= Siblings(tasks, parent)[j].order
  {
    var f, s := Filter(tasks, parent), Siblings(tasks, parent);
    FilterMembers(tasks, parent);
    FilterUnique(tasks, parent);
    SortSorts(f, Key);
    PermutationMembers(f, s);
    var id: Task -> string := (t: Task) => t.id;
    assert DistinctBy(f, id);
    PermutationKeepsDistinct(f, s, id);
    forall i, j | 0 <= i < j < |s|
      ensures s[i].id != s[j].id && s[i].order <= s[j].order
    {
      assert id(s[i]) != id(s[j]);
      assert Key(s[i]) >= Key(s[j]);
    }
  }

  /** Moving keeps every element and the relative order of all others. */
  lemma MovedPermutes<T>(s: seq<T>, from: nat, to: int)
    requires from < |s|
    ensures multiset(Moved(s, from, to)) == multiset(s)
    ensures var at := SpliceIndex(|s| - 1, to);
            && |Moved(s, from, to)| == |s| && Moved(s, from, to)[at] == s[from]
            && Moved(s, from, to)[..at] + Moved(s, from, to)[at + 1..] == s[..from] + s[from + 1..]
  {
    var without := s[..from] + s[from + 1..];
    RemovedPermutes(s, from);
    InsertedPermutes(without, SpliceIndex(|s| - 1, to), s[from]);
  }

  lemma RemovedPermutes<T>(s: seq<T>, from: nat)
    requires from < |s|
    ensures multiset(s) == multiset(s[..from] + s[from + 1..]) + multiset{s[from]}
  {
    assert s == s[..from] + [s[from]] + s[from + 1..];
  }

  lemma InsertedPermutes<T>(s: seq<T>, at: nat, x: T)
    requires at <= |s|
    ensures var r := s[..at] + [x] + s[at..];
            multiset(r) == multiset(s) + multiset{x} && r[at] == x && r[..at] + r[at + 1..] == s
  {
    var r := s[..at] + [x] + s[at..];
    assert s == s[..at] + s[at..];
    assert r[..at] == s[..at] && r[at + 1..] == s[at..];
  }

  ghost predicate StrictlyOrdered(s: seq<Task>) {
    forall i, j :: 0 <= i < j < |s| ==> s[i].order < s[j].order
  }

  lemma HasMember(s: seq<Task>)
    requires s != []
    ensures exists t :: t in s
  {
    assert s[0] in s;
  }

  /** There is only one way to put given tasks in strictly increasing order. */
  lemma {:induction false} StrictOrderIsUnique(a: seq<Task>, b: seq<Task>)
    requires StrictlyOrdered(a) && StrictlyOrdered(b) && forall t :: t in a <==> t in b
    ensures a == b
  {
    if a == [] && b != [] {
      HasMember(b);
    } else if b == [] && a != [] {
      HasMember(a);
    } else if a != [] {
      var fa, la, fb, lb := a[..|a| - 1], a[|a| - 1], b[..|b| - 1], b[|b| - 1];
      assert la in b && lb in a;
      assert la == lb;
      assert a == fa + [la] && b == fb + [lb];
      forall t
        ensures t in fa <==> t in fb
      {
        assert t in fa ==> t in a && t.order < la.order;
        assert t in fb ==> t in b && t.order < lb.order;
      }
      StrictOrderIsUnique(fa, fb);
    }
  }

  /** After a move the siblings, displayed again, stand in the moved order with orders
      0, 1, 2, ...; every other task is as before. */
  lemma ReorderShowsMovedOrder(tasks: seq<Task>, id: string, newIndex: int)
    requires UniqueIds(tasks) && Reordered(tasks, id, newIndex).Some?
    ensures var k := IndexOf(tasks, id);
            && k.Some? && k.value < |tasks|
            && var parent, list := tasks[k.value].parentId, Reordered(tasks, id, newIndex).value;
               var after := Renumbered(tasks, list);
               && |Siblings(after, parent)| == |list|
               && (forall i :: 0 <= i < |list| ==> Siblings(after, parent)[i] == list[i].(order := i))
               && (forall i :: 0 <= i < |tasks| && !IsSibling(tasks[i], parent) ==> after[i] == tasks[i])
  {
    IndexInRange(tasks, id);
    var parent := tasks[IndexOf(tasks, id).value].parentId;
    var siblings := Siblings(tasks, parent);
    IndexInRange(siblings, id);
    var list := Reordered(tasks, id, newIndex).value;
    SiblingsAre(tasks, parent);
    MovedPermutes(siblings, IndexOf(siblings, id).value, newIndex);
    PermutationMembers(siblings, list);
    MovedUnique(siblings, list);
    RenumberedSiblings(tasks, parent, list);
  }

  /** The moved task lands where it was sent: at a place among the siblings, at the end if sent
      further, and counted back from the end if negative. */
  lemma MovedLands(tasks: seq<Task>, id: string, newIndex: int)
    requires Reordered(tasks, id, newIndex).Some?
    ensures var list := Reordered(tasks, id, newIndex).value;
            var n := |list|;
            && n > 0
            && (0 <= newIndex < n ==> list[newIndex].id == id)
            && (newIndex >= n ==> list[n - 1].id == id)
            && (1 - n <= newIndex < 0 ==> list[n - 1 + newIndex].id == id)
            && (newIndex < 1 - n ==> list[0].id == id)
  {
    IndexInRange(tasks, id);
    var siblings := Siblings(tasks, tasks[IndexOf(tasks, id).value].parentId);
    IndexInRange(siblings, id);
    hide Siblings;
    MovedPermutes(siblings, IndexOf(siblings, id).value, newIndex);
  }

  /** Nothing is moved exactly if there is no such task, it is not shown among its siblings, or it
      stands where it is sent already. */
  lemma NothingToMoveIff(tasks: seq<Task>, id: string, newIndex: int)
    requires UniqueIds(tasks)
    ensures Reordered(tasks, id, newIndex).None?
       <==> forall i :: 0 <= i < |tasks| && tasks[i].id == id ==>
              || tasks[i].status !in ACTIVE
              || (0 <= newIndex < |Siblings(tasks, tasks[i].parentId)|
                  && Siblings(tasks, tasks[i].parentId)[newIndex].id == id)
  {
    IndexInRange(tasks, id);
    match IndexOf(tasks, id)
    case None =>
      assert forall i :: 0 <= i < |tasks| ==> tasks[i] in tasks;
    case Some(k) =>
      var siblings := Siblings(tasks, tasks[k].parentId);
      SiblingsAre(tasks, tasks[k].parentId);
      IndexInRange(siblings, id);
      hide Siblings;
      assert tasks[k] in tasks;
      ShownIff(tasks, siblings, k, newIndex);
  }

  lemma ShownIff(tasks: seq<Task>, siblings: seq<Task>, k: nat, newIndex: int)
    requires k < |tasks| && UniqueIds(tasks) && UniqueIds(siblings)
    requires forall t :: t in siblings <==> t in tasks && IsSibling(t, tasks[k].parentId)
    ensures var at := IndexOf(siblings, tasks[k].id);
            && (at.None? <==> tasks[k].status !in ACTIVE)
            && (at.Some? && at.value == newIndex
                <==> 0 <= newIndex < |siblings| && siblings[newIndex].id == tasks[k].id)
            && (at.Some? ==> at.value < |siblings|)
  {
    hide IndexOf, UniqueIds;
    IndexInRange(siblings, tasks[k].id);
    IndexIsOnly(siblings, tasks[k].id, newIndex);
    assert tasks[k] in tasks;
    match IndexOf(siblings, tasks[k].id)
    case None =>
    case Some(at) =>
      assert siblings[at] in siblings;
      SameIdSameTask(tasks, siblings[at], tasks[k]);
  }

  lemma IndexIsOnly(s: seq<Task>, id: string, i: int)
    requires UniqueIds(s)
    ensures 0 <= i < |s| && s[i].id == id ==> IndexOf(s, id) == Some(i)
  {
    if 0 <= i < |s| && s[i].id == id {
      IndexOfUnique(s, i);
    }
  }

  lemma MovedUnique(siblings: seq<Task>, list: seq<Task>)
    requires multiset(siblings) == multiset(list) && UniqueIds(siblings)
    ensures UniqueIds(list)
  {
    var id: Task -> string := (t: Task) => t.id;
    assert DistinctBy(siblings, id);
    PermutationKeepsDistinct(siblings, list, id);
    forall i, j | 0 <= i < j < |list|
      ensures list[i].id != list[j].id
    {
      assert id(list[i]) != id(list[j]);
    }
  }

  lemma SameIdSameTask(tasks: seq<Task>, a: Task, b: Task)
    requires UniqueIds(tasks) && a in tasks && b in tasks && a.id == b.id
    ensures a == b
  {
    var i :| 0 <= i < |tasks| && tasks[i] == a;
    var j :| 0 <= j < |tasks| && tasks[j] == b;
  }

  lemma RenumberedSiblings(tasks: seq<Task>, parent: Option<string>, list: seq<Task>)
    requires UniqueIds(tasks) && UniqueIds(list)
    requires forall t :: t in list <==> t in tasks && IsSibling(t, parent)
    ensures var after := Renumbered(tasks, list);
            && |Siblings(after, parent)| == |list|
            && (forall i :: 0 <= i < |list| ==> Siblings(after, parent)[i] == list[i].(order := i))
            && (forall i :: 0 <= i < |tasks| && !IsSibling(tasks[i], parent) ==> after[i] == tasks[i])
  {
    var after := Renumbered(tasks, list);
    forall i | 0 <= i < |tasks|
      ensures after[i].id == tasks[i].id && IsSibling(after[i], parent) == IsSibling(tasks[i], parent)
      ensures !IsSibling(tasks[i], parent) ==> after[i] == tasks[i]
    {
      RenumberedAt(tasks, parent, list, i);
    }
    assert UniqueIds(after);
    SiblingsAre(after, parent);
    var shown, want := Siblings(after, parent), Numbered(list);
    forall t
      ensures t in shown <==> t in want
    {
      RenumberedMembers(tasks, parent, list, t);
    }
    hide Siblings, Renumbered;
    ShownStrictly(shown, want);
    StrictOrderIsUnique(shown, want);
  }

  function Numbered(list: seq<Task>): seq<Task> {
    seq(|list|, i requires 0 <= i < |list| => list[i].(order := i))
  }

  lemma RenumberedMembers(tasks: seq<Task>, parent: Option<string>, list: seq<Task>, t: Task)
    requires UniqueIds(tasks) && UniqueIds(list)
    requires forall t :: t in list <==> t in tasks && IsSibling(t, parent)
    ensures t in Renumbered(tasks, list) && IsSibling(t, parent) <==> t in Numbered(list)
  {
    hide IndexOf;
    var after, want := Renumbered(tasks, list), Numbered(list);
    if t in after && IsSibling(t, parent) {
      var i :| 0 <= i < |tasks| && after[i] == t;
      RenumberedAt(tasks, parent, list, i);
      assert want[IndexOf(list, tasks[i].id).value] == t;
    }
    if t in want {
      var k :| 0 <= k < |list| && want[k] == t;
      assert list[k] in list;
      var i :| 0 <= i < |tasks| && tasks[i] == list[k];
      RenumberedAt(tasks, parent, list, i);
      IndexOfUnique(list, k);
      assert after[i] == t;
    }
  }

  lemma RenumberedAt(tasks: seq<Task>, parent: Option<string>, list: seq<Task>, i: nat)
    requires UniqueIds(tasks) && UniqueIds(list) && i < |tasks|
    requires forall t :: t in list <==> t in tasks && IsSibling(t, parent)
    ensures if IsSibling(tasks[i], parent)
            then var k := IndexOf(list, tasks[i].id);
                 && k.Some? && k.value < |list| && list[k.value] == tasks[i]
                 && Renumbered(tasks, list)[i] == tasks[i].(order := k.value)
            else Renumbered(tasks, list)[i] == tasks[i]
  {
    hide IndexOf, LastIndexOf, UniqueIds;
    IndexInRange(list, tasks[i].id);
    OnlyIndexOf(list, tasks[i].id);
    assert tasks[i] in tasks;
    match IndexOf(list, tasks[i].id)
    case None =>
    case Some(k) =>
      assert list[k] in list;
      SameIdSameTask(tasks, list[k], tasks[i]);
  }

  lemma ShownStrictly(shown: seq<Task>, want: seq<Task>)
    requires UniqueIds(shown) && forall t :: t in shown <==> t in want
    requires forall i, j :: 0 <= i < j < |shown| ==> shown[i].order <= shown[j].order
    requires forall k :: 0 <= k < |want| ==> want[k].order == k
    ensures StrictlyOrdered(shown) && StrictlyOrdered(want)
  {
    forall i, j | 0 <= i < j < |shown|
      ensures shown[i].order < shown[j].order
    {
      assert shown[i] in want && shown[j] in want;
    }
  }
}
