/** What it means that a list keeps some elements of another in their order. */
module Selection {

  /** The elements of `part` are those of `whole` at the increasing positions `pos`. */
  ghost predicate Selects<T>(whole: seq<T>, part: seq<T>, pos: seq<nat>) {
    && |pos| == |part|
    && (forall k :: 0 <= k < |pos| ==> pos[k] < |whole| && part[k] == whole[pos[k]])
    && (forall j, k :: 0 <= j < k < |pos| ==> pos[j] < pos[k])
  }

  lemma SelectsPushed<T>(whole: seq<T>, part: seq<T>, pos: seq<nat>, x: T, taken: bool) returns (more: seq<nat>)
    requires Selects(whole, part, pos)
    ensures Selects(whole + [x], if taken then part + [x] else part, more)
    ensures forall i: nat :: i in more <==> i in pos || (taken && i == |whole|)
    ensures forall i: nat :: i in pos ==> i < |whole|
  {
    more := if taken then pos + [|whole|] else pos;
  }

  lemma HasMember(p: seq<nat>)
    ensures p != [] ==> exists i: nat :: i in p
  {
    if p != [] {
      assert p[0] in p;
    }
  }

  /** Increasing positions are determined by which positions they are. */
  lemma {:induction false} IncreasingIsUnique(p: seq<nat>, q: seq<nat>)
    requires forall j, k :: 0 <= j < k < |p| ==> p[j] < p[k]
    requires forall j, k :: 0 <= j < k < |q| ==> q[j] < q[k]
    requires forall i: nat :: i in p <==> i in q
    ensures p == q
  {
    HasMember(p);
    HasMember(q);
    if p == [] || q == [] {
    } else {
      assert p[|p| - 1] in q;
      var fp, lp, fq, lq := p[..|p| - 1], p[|p| - 1], q[..|q| - 1], q[|q| - 1];
      assert lq in p;
      assert lp == lq;
      forall i: nat
        ensures i in fp <==> i in fq
      {
        assert i in fp <==> i in p && i != lp;
        assert i in fq <==> i in q && i != lq;
      }
      IncreasingIsUnique(fp, fq);
      assert p == fp + [lp] && q == fq + [lq];
    }
  }

  /** So is what they select. */
  lemma SelectionIsUnique<T>(whole: seq<T>, a: seq<T>, p: seq<nat>, b: seq<T>, q: seq<nat>)
    requires Selects(whole, a, p) && Selects(whole, b, q)
    requires forall i: nat :: i < |whole| ==> (i in p <==> i in q)
    ensures a == b
  {
    forall i: nat
      ensures i in p <==> i in q
    {
      assert i in p ==> i < |whole|;
      assert i in q ==> i < |whole|;
    }
    IncreasingIsUnique(p, q);
  }
}
