/** Rate limiting of anomaly reports, and why pruning its table is invisible. */
module Cooldown {
  import opened Text

  const PRUNE_ABOVE: nat := 50

  /** A request to report an anomaly under a key, at a clock reading. */
  datatype Request = Request(key: string, now: nat)

  predicate IsRecent(last: nat, now: nat, span: nat) {
    now < last + span
  }

  /** Dropping entries at least two cooldowns old, once the table is large. */
  function Pruned(times: map<string, nat>, now: nat, cooldown: nat): map<string, nat> {
    if |times| > PRUNE_ABOVE then map k | k in times && IsRecent(times[k], now, cooldown * 2) :: times[k] else times
  }

  predicate IsCool(times: map<string, nat>, r: Request, cooldown: nat) {
    r.key in times ==> !IsRecent(times[r.key], r.now, cooldown)
  }

  ghost predicate IsChronological(requests: seq<Request>) {
    forall i, j :: 0 <= i < j < |requests| ==> requests[i].now <= requests[j].now
  }

  /** The reference: a request is granted unless one with the same key was granted less than
      a cooldown ago, judged from the whole history. */
  ghost function Grants(requests: seq<Request>, cooldown: nat): (g: seq<bool>)
    ensures |g| == |requests|
  {
    if requests == [] then []
    else
      var past, r := requests[..|requests| - 1], requests[|requests| - 1];
      Grants(past, cooldown) + [!BlockedBy(past, Grants(past, cooldown), r, cooldown)]
  }

  ghost predicate BlockedBy(past: seq<Request>, granted: seq<bool>, r: Request, cooldown: nat)
    requires |granted| == |past|
  {
    exists i :: 0 <= i < |past| && granted[i] && past[i].key == r.key && r.now < past[i].now + cooldown
  }

  /** Each table entry is the latest granted request of its key; a granted request missing from
      the table is at least two cooldowns old. */
  ghost predicate Tracks(times: map<string, nat>, requests: seq<Request>, granted: seq<bool>, now: nat, cooldown: nat)
    requires |granted| == |requests|
  {
    && (forall k <- times :: exists i :: 0 <= i < |requests| && granted[i] && requests[i] == Request(k, times[k]))
    && (forall i :: 0 <= i < |requests| && granted[i] ==>
          if requests[i].key in times then requests[i].now <= times[requests[i].key]
          else !IsRecent(requests[i].now, now, cooldown * 2))
  }

  lemma PruneTracks(times: map<string, nat>, requests: seq<Request>, granted: seq<bool>,
                    was: nat, now: nat, cooldown: nat)
    requires |granted| == |requests| && was <= now
    requires Tracks(times, requests, granted, was, cooldown)
    ensures Tracks(Pruned(times, now, cooldown), requests, granted, now, cooldown)
  {
  }

  /** The table answers as the history would. */
  lemma TableAnswers(times: map<string, nat>, requests: seq<Request>, granted: seq<bool>, r: Request, cooldown: nat)
    requires |granted| == |requests|
    requires Tracks(times, requests, granted, r.now, cooldown)
    ensures IsCool(times, r, cooldown) <==> !BlockedBy(requests, granted, r, cooldown)
  {
    if !IsCool(times, r, cooldown) {
      var i :| 0 <= i < |requests| && granted[i] && requests[i] == Request(r.key, times[r.key]);
    }
  }

  lemma RecordTracks(times: map<string, nat>, requests: seq<Request>, granted: seq<bool>,
                     r: Request, grant: bool, cooldown: nat)
    requires |granted| == |requests|
    requires Tracks(times, requests, granted, r.now, cooldown)
    requires forall i :: 0 <= i < |requests| ==> requests[i].now <= r.now
    ensures Tracks(if grant then times[r.key := r.now] else times, requests + [r], granted + [grant], r.now, cooldown)
  {
    var times' := if grant then times[r.key := r.now] else times;
    var rs, gs := requests + [r], granted + [grant];
    forall k | k in times'
      ensures exists i :: 0 <= i < |rs| && gs[i] && rs[i] == Request(k, times'[k])
    {
      if grant && k == r.key {
        assert gs[|requests|] && rs[|requests|] == r;
      } else {
        var i :| 0 <= i < |requests| && granted[i] && requests[i] == Request(k, times[k]);
        assert gs[i] && rs[i] == requests[i];
      }
    }
  }

  /** Each answer is yes exactly if no earlier request of its key was answered yes less than a
      cooldown before. */
  ghost predicate AnswersByHistory(requests: seq<Request>, answers: seq<bool>, cooldown: nat)
    requires |answers| == |requests|
  {
    forall i :: 0 <= i < |requests| ==>
      answers[i] == !BlockedBy(requests[..i], answers[..i], requests[i], cooldown)
  }

  lemma LastAnswer(requests: seq<Request>, answers: seq<bool>, cooldown: nat)
    requires |answers| == |requests| > 0
    ensures var n := |requests| - 1;
            AnswersByHistory(requests, answers, cooldown)
            <==> && AnswersByHistory(requests[..n], answers[..n], cooldown)
                 && answers[n] == !BlockedBy(requests[..n], answers[..n], requests[n], cooldown)
  {
    hide BlockedBy;
    var n := |requests| - 1;
    forall i | 0 <= i < n
      ensures requests[..n][..i] == requests[..i] && answers[..n][..i] == answers[..i]
    {
    }
    if AnswersByHistory(requests, answers, cooldown) {
      assert AnswersByHistory(requests[..n], answers[..n], cooldown);
    }
  }

  /** There is exactly one such list of answers, and `Grants` is it. */
  lemma {:induction false} GrantsAnswerByHistory(requests: seq<Request>, answers: seq<bool>, cooldown: nat)
    requires |answers| == |requests|
    ensures AnswersByHistory(requests, answers, cooldown) <==> answers == Grants(requests, cooldown)
  {
    hide BlockedBy;
    if requests == [] {
    } else {
      var n := |requests| - 1;
      GrantsAnswerByHistory(requests[..n], answers[..n], cooldown);
      LastAnswer(requests, answers, cooldown);
      hide AnswersByHistory;
      assert answers == answers[..n] + [answers[n]];
    }
  }

  /** Two granted requests for one key are at least a cooldown apart. */
  lemma {:induction false} GrantsAreSpaced(requests: seq<Request>, cooldown: nat, i: nat, j: nat)
    requires i < j < |requests| && Grants(requests, cooldown)[i] && Grants(requests, cooldown)[j]
    requires requests[i].key == requests[j].key
    ensures requests[i].now + cooldown <= requests[j].now
  {
    var past := requests[..|requests| - 1];
    if j < |past| {
      GrantsAreSpaced(past, cooldown, i, j);
    } else {
      assert Grants(past, cooldown)[i];
      assert !BlockedBy(past, Grants(past, cooldown), requests[j], cooldown);
    }
  }

  /** A refused request is never the first of its key. */
  lemma {:induction false} FirstRequestIsGranted(requests: seq<Request>, cooldown: nat, i: nat)
    requires i < |requests| && forall j :: 0 <= j < i ==> requests[j].key != requests[i].key
    ensures Grants(requests, cooldown)[i]
  {
    var past := requests[..|requests| - 1];
    if i < |past| {
      FirstRequestIsGranted(past, cooldown, i);
    }
  }

  // ---------- With and without pruning ----------

  /** The limiter as written, over a list of requests. */
  function PrunedRun(requests: seq<Request>, cooldown: nat): (map<string, nat>, seq<bool>) {
    if requests == [] then (map[], [])
    else
      var (times, answers) := PrunedRun(requests[..|requests| - 1], cooldown);
      var r := requests[|requests| - 1];
      var kept := Pruned(times, r.now, cooldown);
      (if IsCool(kept, r, cooldown) then kept[r.key := r.now] else kept, answers + [IsCool(kept, r, cooldown)])
  }

  /** The limiter that never forgets. */
  function PlainRun(requests: seq<Request>, cooldown: nat): (map<string, nat>, seq<bool>) {
    if requests == [] then (map[], [])
    else
      var (times, answers) := PlainRun(requests[..|requests| - 1], cooldown);
      var r := requests[|requests| - 1];
      (if IsCool(times, r, cooldown) then times[r.key := r.now] else times, answers + [IsCool(times, r, cooldown)])
  }

  lemma TracksLater(times: map<string, nat>, requests: seq<Request>, granted: seq<bool>,
                    was: nat, now: nat, cooldown: nat)
    requires |granted| == |requests| && was <= now
    requires Tracks(times, requests, granted, was, cooldown)
    ensures Tracks(times, requests, granted, now, cooldown)
  {
  }

  /** One more request: if the table tracks the past, its answer is the reference's and it
      tracks the longer history. */
  lemma StepAnswers(kept: map<string, nat>, requests: seq<Request>, cooldown: nat)
    requires requests != [] && IsChronological(requests)
    requires var past := requests[..|requests| - 1];
             Tracks(kept, past, Grants(past, cooldown), requests[|requests| - 1].now, cooldown)
    ensures var past, r := requests[..|requests| - 1], requests[|requests| - 1];
            Grants(requests, cooldown) == Grants(past, cooldown) + [IsCool(kept, r, cooldown)]
    ensures var r := requests[|requests| - 1];
            Tracks(if IsCool(kept, r, cooldown) then kept[r.key := r.now] else kept,
                   requests, Grants(requests, cooldown), r.now, cooldown)
  {
    var past, r := requests[..|requests| - 1], requests[|requests| - 1];
    TableAnswers(kept, past, Grants(past, cooldown), r, cooldown);
    RecordTracks(kept, past, Grants(past, cooldown), r, IsCool(kept, r, cooldown), cooldown);
    assert past + [r] == requests;
  }

  function LastTime(requests: seq<Request>): nat {
    if requests == [] then 0 else requests[|requests| - 1].now
  }

  lemma ChronologicalPushed(requests: seq<Request>, r: Request)
    requires IsChronological(requests) && LastTime(requests) <= r.now
    ensures IsChronological(requests + [r])
  {
  }

  lemma {:induction false} PrunedRunAnswers(requests: seq<Request>, cooldown: nat)
    requires IsChronological(requests)
    ensures PrunedRun(requests, cooldown).1 == Grants(requests, cooldown)
    ensures Tracks(PrunedRun(requests, cooldown).0, requests, Grants(requests, cooldown), LastTime(requests), cooldown)
  {
    if requests == [] {
    } else {
      var past, r := requests[..|requests| - 1], requests[|requests| - 1];
      PrunedRunAnswers(past, cooldown);
      hide Tracks, IsCool, Pruned, Grants;
      var times := PrunedRun(past, cooldown).0;
      PruneTracks(times, past, Grants(past, cooldown), LastTime(past), r.now, cooldown);
      StepAnswers(Pruned(times, r.now, cooldown), requests, cooldown);
    }
  }

  lemma {:induction false} PlainRunAnswers(requests: seq<Request>, cooldown: nat)
    requires IsChronological(requests)
    ensures PlainRun(requests, cooldown).1 == Grants(requests, cooldown)
    ensures Tracks(PlainRun(requests, cooldown).0, requests, Grants(requests, cooldown), LastTime(requests), cooldown)
  {
    if requests == [] {
    } else {
      var past, r := requests[..|requests| - 1], requests[|requests| - 1];
      PlainRunAnswers(past, cooldown);
      hide Tracks, IsCool, Grants;
      var times := PlainRun(past, cooldown).0;
      TracksLater(times, past, Grants(past, cooldown), LastTime(past), r.now, cooldown);
      StepAnswers(times, requests, cooldown);
    }
  }

  /** Pruning is invisible: under a clock that never goes back, the limiter gives the answers
      of one that keeps every entry. */
  lemma PruningIsInvisible(requests: seq<Request>, cooldown: nat)
    requires IsChronological(requests)
    ensures PrunedRun(requests, cooldown).1 == PlainRun(requests, cooldown).1
  {
    PrunedRunAnswers(requests, cooldown);
    PlainRunAnswers(requests, cooldown);
  }
}
