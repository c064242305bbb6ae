/** What the anomaly detector's fields mean, as functions of everything it has been fed. */
module DetectorHistory {
  import opened Text
  import opened Cooldown
  import opened Selection

  datatype CliState = Starting | Idle | SlashMenu | Thinking | Responding | ToolRunning | Confirming | Error

  /** The transition matrix. */
  const VALID_TRANSITIONS: set<(CliState, CliState)> := {
    (Idle, Thinking), (Idle, ToolRunning), (Idle, Confirming), (Idle, SlashMenu), (Idle, Error),
    (Thinking, Idle), (Thinking, ToolRunning), (Thinking, Confirming), (Thinking, Responding), (Thinking, Error),
    (ToolRunning, Idle), (ToolRunning, Thinking), (ToolRunning, Confirming), (ToolRunning, Responding),
    (ToolRunning, Error),
    (Confirming, Idle), (Confirming, Thinking), (Confirming, ToolRunning), (Confirming, Error),
    (Responding, Idle), (Responding, Thinking), (Responding, ToolRunning), (Responding, Confirming),
    (Responding, Error),
    (SlashMenu, Idle), (SlashMenu, Thinking), (SlashMenu, ToolRunning),
    (Error, Idle),
    (Starting, Idle), (Starting, Thinking), (Starting, ToolRunning), (Starting, Confirming), (Starting, Error)
  }

  datatype AnomalyConfig = AnomalyConfig(
    stateStuckTimeout: nat,
    confidenceThreshold: real,
    confidenceWindow: nat,
    unrecognizedThreshold: nat,
    anchorCheckInterval: nat)

  datatype Severity = Warning | ErrorLevel | Critical

  datatype AnomalyKind =
    StateStuck | IllegalTransition | LowConfidence | AnchorMissing(anchor: string) | UnrecognizedFrames

  datatype Anomaly = Anomaly(kind: AnomalyKind, severity: Severity)

  function KeyOf(kind: AnomalyKind): string {
    match kind
    case StateStuck => "state_stuck"
    case IllegalTransition => "illegal_transition"
    case LowConfidence => "low_confidence"
    case AnchorMissing(id) => "anchor_missing_" + id
    case UnrecognizedFrames => "unrecognized_frames"
  }

  function AnomalyOf(kind: AnomalyKind): Anomaly {
    match kind
    case StateStuck => Anomaly(kind, ErrorLevel)
    case IllegalTransition => Anomaly(kind, Warning)
    case LowConfidence => Anomaly(kind, Warning)
    case AnchorMissing(_) => Anomaly(kind, Critical)
    case UnrecognizedFrames => Anomaly(kind, ErrorLevel)
  }

  datatype Sample = Sample(now: nat, confidence: real)

  datatype Frame = Frame(now: nat, state: Option<CliState>, confidence: real)

  // ---------- The confidence window ----------

  function Samples(frames: seq<Frame>): (s: seq<Sample>)
    ensures |s| == |frames| && forall i :: 0 <= i < |s| ==> s[i] == Sample(frames[i].now, frames[i].confidence)
  {
    seq(|frames|, i requires 0 <= i < |frames| => Sample(frames[i].now, frames[i].confidence))
  }

  /** The samples at most `window` old. */
  function Windowed(samples: seq<Sample>, now: nat, window: nat): seq<Sample> {
    if samples == [] then []
    else
      var rest := Windowed(samples[1..], now, window);
      if samples[0].now + window < now then rest else [samples[0]] + rest
  }

  ghost predicate IsSorted(samples: seq<Sample>) {
    forall i, j :: 0 <= i < j < |samples| ==> samples[i].now <= samples[j].now
  }

  lemma ConsConcat<T>(x: T, a: seq<T>, b: seq<T>)
    ensures [x] + (a + b) == ([x] + a) + b
  {
  }

  lemma {:induction false} WindowedConcat(a: seq<Sample>, b: seq<Sample>, now: nat, window: nat)
    ensures Windowed(a + b, now, window) == Windowed(a, now, window) + Windowed(b, now, window)
  {
    if a == [] {
      assert a + b == b;
    } else {
      assert (a + b)[1..] == a[1..] + b;
      WindowedConcat(a[1..], b, now, window);
      ConsConcat(a[0], Windowed(a[1..], now, window), Windowed(b, now, window));
    }
  }

  /** What an earlier pruning dropped, a later window would not contain. */
  lemma {:induction false} WindowedTwice(samples: seq<Sample>, was: nat, now: nat, window: nat)
    requires was <= now
    ensures Windowed(Windowed(samples, was, window), now, window) == Windowed(samples, now, window)
  {
    if samples == [] {
    } else {
      var rest := Windowed(samples[1..], was, window);
      WindowedTwice(samples[1..], was, now, window);
      if samples[0].now + window >= was {
        assert ([samples[0]] + rest)[1..] == rest;
      } else {
        assert Windowed(samples, was, window) == rest;
      }
    }
  }

  lemma SortedCons(x: Sample, rest: seq<Sample>)
    requires IsSorted(rest)
    ensures (forall s <- rest :: x.now <= s.now) ==> IsSorted([x] + rest)
  {
    assert forall i :: 0 <= i < |rest| ==> rest[i] in rest;
  }

  lemma {:induction false} WindowedSorted(samples: seq<Sample>, now: nat, window: nat)
    requires IsSorted(samples)
    ensures IsSorted(Windowed(samples, now, window))
    ensures forall s <- Windowed(samples, now, window) :: s in samples
  {
    if samples == [] {
    } else {
      WindowedSorted(samples[1..], now, window);
      assert forall s <- samples[1..] :: s in samples && samples[0].now <= s.now;
      hide IsSorted;
      SortedCons(samples[0], Windowed(samples[1..], now, window));
    }
  }

  lemma {:induction false} AllInWindow(samples: seq<Sample>, now: nat, window: nat)
    requires forall s <- samples :: s.now + window >= now
    ensures Windowed(samples, now, window) == samples
  {
    if samples == [] {
    } else {
      assert samples[0] in samples && forall s <- samples[1..] :: s in samples;
      AllInWindow(samples[1..], now, window);
    }
  }

  /** In time order, the window is what is left after dropping the old samples in front: everything
      before `k` is older than the window, and nothing from `k` on is. */
  ghost predicate WindowStartsAt(samples: seq<Sample>, now: nat, window: nat, k: nat) {
    && k <= |samples|
    && (forall i :: 0 <= i < k ==> samples[i].now + window < now)
    && (forall i :: k <= i < |samples| ==> samples[i].now + window >= now)
  }

  lemma {:induction false} WindowedIsSuffix(samples: seq<Sample>, now: nat, window: nat) returns (k: nat)
    requires IsSorted(samples)
    ensures WindowStartsAt(samples, now, window, k) && Windowed(samples, now, window) == samples[k..]
  {
    if samples == [] {
      k := 0;
    } else if samples[0].now + window < now {
      var rest := samples[1..];
      k := WindowedIsSuffix(rest, now, window);
      assert samples[k + 1..] == rest[k..];
      assert forall i :: 0 < i < |samples| ==> samples[i] == rest[i - 1];
      k := k + 1;
    } else {
      k := 0;
      assert forall s <- samples :: s.now + window >= now;
      AllInWindow(samples, now, window);
    }
  }

  lemma {:induction false} AllOutsideWindow(samples: seq<Sample>, now: nat, window: nat)
    requires forall i :: 0 <= i < |samples| ==> samples[i].now + window < now
    ensures Windowed(samples, now, window) == []
  {
    if samples == [] {
    } else {
      AllOutsideWindow(samples[1..], now, window);
    }
  }

  lemma WindowFromStart(samples: seq<Sample>, now: nat, window: nat, k: nat)
    requires WindowStartsAt(samples, now, window, k)
    ensures Windowed(samples, now, window) == samples[k..]
  {
    hide Windowed;
    assert samples == samples[..k] + samples[k..];
    WindowedConcat(samples[..k], samples[k..], now, window);
    AllOutsideWindow(samples[..k], now, window);
    AllInWindow(samples[k..], now, window);
  }

  // ---------- Recognised states ----------

  function TrailingNone(frames: seq<Frame>): nat {
    if frames == [] || frames[|frames| - 1].state.Some? then 0 else 1 + TrailingNone(frames[..|frames| - 1])
  }

  function LastState(frames: seq<Frame>): Option<CliState> {
    if frames == [] then None
    else if frames[|frames| - 1].state.Some? then frames[|frames| - 1].state
    else LastState(frames[..|frames| - 1])
  }

  /** `i` is the last recognised frame. */
  ghost predicate IsLastRecognised(frames: seq<Frame>, i: int) {
    0 <= i < |frames| && frames[i].state.Some? && forall j :: i < j < |frames| ==> frames[j].state == None
  }

  lemma {:induction false} LastStateIsLastRecognised(frames: seq<Frame>)
    ensures forall i :: IsLastRecognised(frames, i) ==> LastState(frames) == frames[i].state
    ensures LastState(frames).Some? ==> exists i :: IsLastRecognised(frames, i)
  {
    if frames == [] {
    } else {
      var past, last := frames[..|frames| - 1], |frames| - 1;
      LastStateIsLastRecognised(past);
      if frames[last].state.Some? {
        assert IsLastRecognised(frames, last);
      } else {
        forall i
          ensures IsLastRecognised(frames, i) <==> IsLastRecognised(past, i)
        {
        }
      }
    }
  }

  /** When the current run of equal recognised states began; unrecognised frames do not end it. */
  function RunStart(frames: seq<Frame>): nat {
    if frames == [] then 0
    else
      var past, f := frames[..|frames| - 1], frames[|frames| - 1];
      if f.state.None? || f.state == LastState(past) then RunStart(past) else f.now
  }

  /** The run start is the time of a frame with the current state after which every recognised
      frame has that state too, and before which the last recognised state was another. */
  lemma {:induction false} RunStartIsFirstOfRun(frames: seq<Frame>) returns (first: nat)
    requires LastState(frames).Some?
    ensures first < |frames| && frames[first].now == RunStart(frames) && frames[first].state == LastState(frames)
    ensures forall i :: first <= i < |frames| ==> frames[i].state == None || frames[i].state == LastState(frames)
    ensures LastState(frames[..first]) != LastState(frames)
  {
    var past, f := frames[..|frames| - 1], frames[|frames| - 1];
    if f.state.None? || f.state == LastState(past) {
      first := RunStartIsFirstOfRun(past);
      assert past[..first] == frames[..first];
    } else {
      first := |frames| - 1;
    }
  }

  /** The counter is the length of the trailing run of unrecognised frames. */
  lemma {:induction false} TrailingNoneIsTrailingRun(frames: seq<Frame>)
    ensures var n := TrailingNone(frames);
            && n <= |frames|
            && (forall i :: |frames| - n <= i < |frames| ==> frames[i].state == None)
            && (n < |frames| ==> frames[|frames| - n - 1].state.Some?)
  {
    if frames != [] && frames[|frames| - 1].state.None? {
      TrailingNoneIsTrailingRun(frames[..|frames| - 1]);
    }
  }

  // ---------- What a frame asks to report ----------

  function Total(samples: seq<Sample>): real {
    if samples == [] then 0.0 else Total(samples[..|samples| - 1]) + samples[|samples| - 1].confidence
  }

  /** The total adds up sample by sample. */
  lemma {:induction false} TotalConcat(a: seq<Sample>, b: seq<Sample>)
    ensures Total(a + b) == Total(a) + Total(b)
  {
    if b == [] {
      assert a + b == a;
    } else {
      assert (a + b)[..|a + b| - 1] == a + b[..|b| - 1];
      TotalConcat(a, b[..|b| - 1]);
    }
  }

  lemma TotalOfOne(s: Sample)
    ensures Total([s]) == s.confidence
  {
  }

  predicate IsLow(samples: seq<Sample>, threshold: real) {
    |samples| >= 10 && Total(samples) / (|samples| as real) < threshold
  }

  /** The kinds the latest frame asks to report, judged from the history alone. */
  function Wanted(config: AnomalyConfig, frames: seq<Frame>): seq<AnomalyKind>
    requires frames != []
  {
    WantedByState(config, frames)
    + (if IsLow(Windowed(Samples(frames), frames[|frames| - 1].now, config.confidenceWindow),
                config.confidenceThreshold)
       then [LowConfidence] else [])
  }

  function WantedByState(config: AnomalyConfig, frames: seq<Frame>): seq<AnomalyKind>
    requires frames != []
  {
    var past, f := frames[..|frames| - 1], frames[|frames| - 1];
    match f.state
    case Some(state) =>
      (if LastState(past).Some? && LastState(past) != f.state && (LastState(past).value, state) !in VALID_TRANSITIONS
       then [IllegalTransition] else [])
      + (if && LastState(past) == f.state && f.now > RunStart(past) + config.stateStuckTimeout
            && (state.Thinking? || state.ToolRunning?)
         then [StateStuck] else [])
    case None =>
      if TrailingNone(frames) >= config.unrecognizedThreshold then [UnrecognizedFrames] else []
  }

  /** The last recognised state before the latest frame does not allow the latest one. */
  ghost predicate IsIllegal(frames: seq<Frame>)
    requires frames != []
  {
    var last := |frames| - 1;
    && frames[last].state.Some?
    && exists i :: IsLastRecognised(frames[..last], i) && frames[i].state != frames[last].state
                   && (frames[i].state.value, frames[last].state.value) !in VALID_TRANSITIONS
  }

  /** `i` is an earlier frame with the latest frame's state, and no other state was recognised since. */
  ghost predicate StaysSince(frames: seq<Frame>, i: int)
    requires frames != []
  {
    && 0 <= i < |frames| - 1 && frames[i].state.Some?
    && frames[i].state == frames[|frames| - 1].state
    && forall j :: i <= j < |frames| ==> frames[j].state == None || frames[j].state == frames[i].state
  }

  /** The session has been thinking or running a tool for longer than the timeout. */
  ghost predicate IsStuck(config: AnomalyConfig, frames: seq<Frame>)
    requires frames != []
  {
    var f := frames[|frames| - 1];
    && (f.state == Some(Thinking) || f.state == Some(ToolRunning))
    && exists i :: StaysSince(frames, i) && frames[i].now + config.stateStuckTimeout < f.now
  }

  /** The last `unrecognizedThreshold` frames, and the latest in any case, are all unrecognised. */
  ghost predicate IsUnseen(config: AnomalyConfig, frames: seq<Frame>)
    requires frames != []
  {
    var n := config.unrecognizedThreshold;
    && frames[|frames| - 1].state == None
    && n <= |frames| && forall i :: |frames| - n <= i < |frames| ==> frames[i].state == None
  }

  /** At least ten frames lie in the window, and their mean confidence is below the threshold. */
  ghost predicate IsUnsure(config: AnomalyConfig, frames: seq<Frame>)
    requires frames != []
  {
    exists k: nat ::
      && WindowStartsAt(Samples(frames), frames[|frames| - 1].now, config.confidenceWindow, k)
      && |frames| - k >= 10
      && Total(Samples(frames)[k..]) / ((|frames| - k) as real) < config.confidenceThreshold
  }

  lemma IllegalIff(frames: seq<Frame>)
    requires frames != []
    ensures var past, f := frames[..|frames| - 1], frames[|frames| - 1];
            IsIllegal(frames)
            <==> && f.state.Some? && LastState(past).Some? && LastState(past) != f.state
                 && (LastState(past).value, f.state.value) !in VALID_TRANSITIONS
  {
    var past, f := frames[..|frames| - 1], frames[|frames| - 1];
    LastStateIsLastRecognised(past);
    hide LastState;
    if LastState(past).Some? && f.state.Some? {
      var i :| IsLastRecognised(past, i);
      assert frames[i].state == LastState(past);
    }
  }

  lemma StuckIff(config: AnomalyConfig, frames: seq<Frame>)
    requires frames != [] && IsSorted(Samples(frames))
    ensures var past, f := frames[..|frames| - 1], frames[|frames| - 1];
            IsStuck(config, frames)
            <==> && (f.state == Some(Thinking) || f.state == Some(ToolRunning))
                 && LastState(past) == f.state && f.now > RunStart(past) + config.stateStuckTimeout
  {
    var past, f := frames[..|frames| - 1], frames[|frames| - 1];
    if f.state.Some? {
      if LastState(past) == f.state {
        var first := RunStartIsFirstOfRun(past);
        assert past[..first] == frames[..first];
        assert StaysSince(frames, first);
        forall i | StaysSince(frames, i)
          ensures frames[first].now <= frames[i].now
        {
          StaysWithinRun(frames, first, i);
          assert Samples(frames)[first].now <= Samples(frames)[i].now;
        }
      } else {
        forall i
          ensures !StaysSince(frames, i)
        {
          StayingMeansSameState(frames, i);
        }
      }
    }
  }

  /** The run cannot have begun after a frame it contains. */
  lemma StaysWithinRun(frames: seq<Frame>, first: nat, i: int)
    requires frames != [] && StaysSince(frames, i) && first < |frames|
    requires LastState(frames[..first]) != frames[i].state
    ensures first <= i
  {
    if i < first {
      LastInStay(frames, i, first);
    }
  }

  lemma StayingMeansSameState(frames: seq<Frame>, i: int)
    requires frames != []
    ensures StaysSince(frames, i) ==> LastState(frames[..|frames| - 1]) == frames[|frames| - 1].state
  {
    if StaysSince(frames, i) {
      LastInStay(frames, i, |frames| - 1);
    }
  }

  lemma {:induction false} LastInStay(frames: seq<Frame>, i: int, n: nat)
    requires frames != [] && StaysSince(frames, i) && i < n <= |frames|
    ensures LastState(frames[..n]) == frames[i].state
    decreases n
  {
    assert frames[..n][..n - 1] == frames[..n - 1];
    if n > i + 1 {
      LastInStay(frames, i, n - 1);
    }
  }

  lemma UnseenIff(config: AnomalyConfig, frames: seq<Frame>)
    requires frames != []
    ensures IsUnseen(config, frames)
       <==> frames[|frames| - 1].state == None && TrailingNone(frames) >= config.unrecognizedThreshold
  {
    TrailingNoneIsTrailingRun(frames);
    var n := TrailingNone(frames);
    if n < config.unrecognizedThreshold <= |frames| {
      assert frames[|frames| - n - 1].state.Some?;
    }
  }

  lemma UnsureIff(config: AnomalyConfig, frames: seq<Frame>)
    requires frames != [] && IsSorted(Samples(frames))
    ensures IsUnsure(config, frames)
       <==> IsLow(Windowed(Samples(frames), frames[|frames| - 1].now, config.confidenceWindow),
                  config.confidenceThreshold)
  {
    hide Windowed, Total, WindowStartsAt, IsSorted, Samples;
    var s, now, w := Samples(frames), frames[|frames| - 1].now, config.confidenceWindow;
    var k := WindowedIsSuffix(s, now, w);
    forall j: nat | WindowStartsAt(s, now, w, j)
      ensures j <= |s| && Windowed(s, now, w) == s[j..]
    {
      StartInRange(s, now, w, j);
      WindowFromStart(s, now, w, j);
    }
  }

  lemma StartInRange(samples: seq<Sample>, now: nat, window: nat, k: nat)
    requires WindowStartsAt(samples, now, window, k)
    ensures k <= |samples|
  {
  }

  /** What a frame asks to report, read off the frames: each kind exactly when it is due, and none
      twice. */
  ghost predicate AsksForWhatIsDue(config: AnomalyConfig, frames: seq<Frame>, wanted: seq<AnomalyKind>)
    requires frames != []
  {
    && (IllegalTransition in wanted <==> IsIllegal(frames))
    && (StateStuck in wanted <==> IsStuck(config, frames))
    && (UnrecognizedFrames in wanted <==> IsUnseen(config, frames))
    && (LowConfidence in wanted <==> IsUnsure(config, frames))
    && (forall kind <- wanted :: !kind.AnchorMissing?)
    && (forall i, j :: 0 <= i < j < |wanted| ==> wanted[i] != wanted[j])
  }

  lemma WantedIsDue(config: AnomalyConfig, frames: seq<Frame>)
    requires frames != [] && IsSorted(Samples(frames))
    ensures AsksForWhatIsDue(config, frames, Wanted(config, frames))
  {
    hide IsIllegal, IsStuck, IsUnseen, IsUnsure, LastState, RunStart, TrailingNone, IsLow, Windowed, IsSorted, Samples;
    IllegalIff(frames);
    StuckIff(config, frames);
    UnseenIff(config, frames);
    UnsureIff(config, frames);
    var byState := WantedByState(config, frames);
    assert Wanted(config, frames) == byState || Wanted(config, frames) == byState + [LowConfidence];
    assert || byState == [] || byState == [IllegalTransition]
           || byState == [StateStuck] || byState == [UnrecognizedFrames];
  }

  // ---------- Anchors ----------

  datatype Observation = Observation(anchor: string, matched: bool)

  const ANCHOR_MISS_THRESHOLD: nat := 3

  /** Consecutive misses of one anchor up to now. */
  function TrailingMisses(observations: seq<Observation>, anchor: string): nat {
    if observations == [] then 0
    else
      var past, o := observations[..|observations| - 1], observations[|observations| - 1];
      if o.anchor != anchor then TrailingMisses(past, anchor)
      else if o.matched then 0
      else 1 + TrailingMisses(past, anchor)
  }

  /** The observations of one anchor, in order. */
  function ObservationsOf(observations: seq<Observation>, anchor: string): seq<Observation> {
    if observations == [] then []
    else
      ObservationsOf(observations[..|observations| - 1], anchor)
      + (if observations[|observations| - 1].anchor == anchor then [observations[|observations| - 1]] else [])
  }

  ghost predicate PicksAnchor(observations: seq<Observation>, picked: seq<Observation>, anchor: string) {
    exists pos: seq<nat> ::
      && Selects(observations, picked, pos)
      && forall i: nat :: i < |observations| ==> (i in pos <==> observations[i].anchor == anchor)
  }

  lemma {:induction false} ObservationsOfPicks(observations: seq<Observation>, anchor: string)
    ensures PicksAnchor(observations, ObservationsOf(observations, anchor), anchor)
  {
    hide PicksAnchor;
    if observations == [] {
      NothingPicked(anchor);
    } else {
      var front, last := observations[..|observations| - 1], observations[|observations| - 1];
      ObservationsOfPicks(front, anchor);
      PicksPushed(front, ObservationsOf(front, anchor), anchor, last);
      assert observations == front + [last];
    }
  }

  lemma NothingPicked(anchor: string)
    ensures PicksAnchor([], [], anchor)
  {
    assert Selects<Observation>([], [], []);
  }

  lemma PicksPushed(front: seq<Observation>, picked: seq<Observation>, anchor: string, last: Observation)
    requires PicksAnchor(front, picked, anchor)
    ensures PicksAnchor(front + [last], picked + (if last.anchor == anchor then [last] else []), anchor)
  {
    var pos: seq<nat> :|
      Selects(front, picked, pos) && forall i: nat :: i < |front| ==> (i in pos <==> front[i].anchor == anchor);
    hide Selects;
    var more := SelectsPushed(front, picked, pos, last, last.anchor == anchor);
    assert picked + [] == picked;
  }

  /** The miss count of an anchor is the length of the trailing run of misses among its own
      observations. */
  lemma {:induction false} TrailingMissesAreTrailing(observations: seq<Observation>, anchor: string)
    ensures var own, n := ObservationsOf(observations, anchor), TrailingMisses(observations, anchor);
            && n <= |own|
            && (forall i :: |own| - n <= i < |own| ==> !own[i].matched)
            && (n < |own| ==> own[|own| - n - 1].matched)
  {
    if observations == [] {
    } else {
      TrailingMissesAreTrailing(observations[..|observations| - 1], anchor);
    }
  }

  /** The anchor was missed at its last `ANCHOR_MISS_THRESHOLD` observations. */
  ghost predicate IsLost(observations: seq<Observation>, anchor: string) {
    var own := ObservationsOf(observations, anchor);
    && ANCHOR_MISS_THRESHOLD <= |own|
    && forall i :: |own| - ANCHOR_MISS_THRESHOLD <= i < |own| ==> !own[i].matched
  }

  lemma LostIff(observations: seq<Observation>, anchor: string)
    ensures IsLost(observations, anchor) <==> TrailingMisses(observations, anchor) >= ANCHOR_MISS_THRESHOLD
  {
    TrailingMissesAreTrailing(observations, anchor);
    var own, n := ObservationsOf(observations, anchor), TrailingMisses(observations, anchor);
    hide ObservationsOf, TrailingMisses;
    if n < ANCHOR_MISS_THRESHOLD <= |own| {
      assert own[|own| - n - 1].matched;
    }
  }

  /** The anchors a check asks to report, given the observations before it. */
  function WantedAnchors(before: seq<Observation>, results: seq<Observation>): seq<AnomalyKind> {
    if results == [] then []
    else
      var o := results[|results| - 1];
      WantedAnchors(before, results[..|results| - 1])
      + (if !o.matched && TrailingMisses(before + results, o.anchor) >= ANCHOR_MISS_THRESHOLD
         then [AnchorMissing(o.anchor)] else [])
  }

  ghost predicate IsLostAt(before: seq<Observation>, results: seq<Observation>, i: nat)
    requires i < |results|
  {
    !results[i].matched && IsLost(before + results[..i + 1], results[i].anchor)
  }

  /** `wanted` names, in order, the anchors observed at exactly those places of a check where the
      anchor was missed and is lost by then. */
  ghost predicate NamesLost(before: seq<Observation>, results: seq<Observation>, wanted: seq<AnomalyKind>,
                            lost: seq<Observation>, pos: seq<nat>)
  {
    && Selects(results, lost, pos)
    && (forall i: nat :: i < |results| ==> (i in pos <==> IsLostAt(before, results, i)))
    && Names(wanted, lost)
  }

  ghost predicate Names(wanted: seq<AnomalyKind>, lost: seq<Observation>) {
    |wanted| == |lost| && forall k :: 0 <= k < |lost| ==> wanted[k] == AnchorMissing(lost[k].anchor)
  }

  ghost predicate AsksForLost(before: seq<Observation>, results: seq<Observation>, wanted: seq<AnomalyKind>) {
    exists lost: seq<Observation>, pos: seq<nat> :: NamesLost(before, results, wanted, lost, pos)
  }

  lemma {:induction false} WantedAnchorsAreLost(before: seq<Observation>, results: seq<Observation>)
    ensures AsksForLost(before, results, WantedAnchors(before, results))
  {
    hide AsksForLost, TrailingMisses;
    if results == [] {
      NothingLost(before);
    } else {
      var front, last := results[..|results| - 1], results[|results| - 1];
      WantedAnchorsAreLost(before, front);
      LostIff(before + results, last.anchor);
      assert results == front + [last];
      hide IsLost;
      AsksPushed(before, front, WantedAnchors(before, front), last);
      assert WantedAnchors(before, front) + [] == WantedAnchors(before, front);
    }
  }

  lemma NothingLost(before: seq<Observation>)
    ensures AsksForLost(before, [], [])
  {
    assert NamesLost(before, [], [], [], []);
  }

  lemma AsksPushed(before: seq<Observation>, front: seq<Observation>, wanted: seq<AnomalyKind>, last: Observation)
    requires AsksForLost(before, front, wanted)
    ensures var due := !last.matched && IsLost(before + (front + [last]), last.anchor);
            AsksForLost(before, front + [last], if due then wanted + [AnchorMissing(last.anchor)] else wanted)
  {
    var lost: seq<Observation>, pos: seq<nat> :| NamesLost(before, front, wanted, lost, pos);
    var due := !last.matched && IsLost(before + (front + [last]), last.anchor);
    hide Selects, IsLost, Names;
    var more := SelectsPushed(front, lost, pos, last, due);
    LostAtPushed(before, front, last);
    NamesPushed(wanted, lost, last);
    hide IsLostAt;
    assert NamesLost(before, front + [last], if due then wanted + [AnchorMissing(last.anchor)] else wanted,
                     if due then lost + [last] else lost, more);
  }

  lemma NamesPushed(wanted: seq<AnomalyKind>, lost: seq<Observation>, last: Observation)
    requires Names(wanted, lost)
    ensures Names(wanted + [AnchorMissing(last.anchor)], lost + [last])
  {
  }

  lemma LostAtPushed(before: seq<Observation>, front: seq<Observation>, last: Observation)
    ensures forall i: nat :: i < |front| ==> IsLostAt(before, front + [last], i) == IsLostAt(before, front, i)
    ensures IsLostAt(before, front + [last], |front|)
         == (!last.matched && IsLost(before + (front + [last]), last.anchor))
  {
    hide IsLost;
    var all := front + [last];
    assert all[..|front| + 1] == all;
    forall i: nat | i < |front|
      ensures IsLostAt(before, all, i) == IsLostAt(before, front, i)
    {
      assert all[..i + 1] == front[..i + 1];
    }
  }

  // ---------- Reporting ----------

  /** Different kinds are limited separately. */
  lemma KeysTellKindsApart(a: AnomalyKind, b: AnomalyKind)
    requires KeyOf(a) == KeyOf(b)
    ensures a == b
  {
    assert KeyOf(a)[0] == KeyOf(b)[0];
    if a.AnchorMissing? && b.AnchorMissing? {
      var prefix := "anchor_missing_";
      assert (prefix + a.anchor)[|prefix|..] == a.anchor && (prefix + b.anchor)[|prefix|..] == b.anchor;
    }
  }

  ghost function Reported(wanted: seq<AnomalyKind>, granted: seq<bool>): seq<Anomaly>
    requires |granted| == |wanted|
  {
    if wanted == [] then []
    else
      Reported(wanted[..|wanted| - 1], granted[..|granted| - 1])
      + (if granted[|granted| - 1] then [AnomalyOf(wanted[|wanted| - 1])] else [])
  }

  /** The anomalies are those of the granted kinds, in order, and of no others. */
  ghost predicate ReportsGranted(wanted: seq<AnomalyKind>, granted: seq<bool>, anomalies: seq<Anomaly>)
    requires |granted| == |wanted|
  {
    exists kinds: seq<AnomalyKind>, pos: seq<nat> ::
      && Selects(wanted, kinds, pos)
      && (forall i: nat :: i < |wanted| ==> (i in pos <==> granted[i]))
      && |anomalies| == |kinds| && (forall k :: 0 <= k < |kinds| ==> anomalies[k].kind == kinds[k])
  }

  lemma {:induction false} ReportedAreGranted(wanted: seq<AnomalyKind>, granted: seq<bool>)
    requires |granted| == |wanted|
    ensures ReportsGranted(wanted, granted, Reported(wanted, granted))
  {
    hide ReportsGranted;
    if wanted == [] {
      NothingReported();
    } else {
      var n := |wanted| - 1;
      ReportedAreGranted(wanted[..n], granted[..n]);
      ReportsPushed(wanted[..n], granted[..n], Reported(wanted[..n], granted[..n]), wanted[n], granted[n]);
      assert wanted == wanted[..n] + [wanted[n]] && granted == granted[..n] + [granted[n]];
    }
  }

  lemma NothingReported()
    ensures ReportsGranted([], [], [])
  {
    assert Selects<AnomalyKind>([], [], []);
  }

  lemma ReportsPushed(wanted: seq<AnomalyKind>, granted: seq<bool>, anomalies: seq<Anomaly>,
                      kind: AnomalyKind, grant: bool)
    requires |granted| == |wanted| && ReportsGranted(wanted, granted, anomalies)
    ensures ReportsGranted(wanted + [kind], granted + [grant], anomalies + (if grant then [AnomalyOf(kind)] else []))
  {
    var kinds: seq<AnomalyKind>, pos: seq<nat> :|
      && Selects(wanted, kinds, pos)
      && (forall i: nat :: i < |wanted| ==> (i in pos <==> granted[i]))
      && |anomalies| == |kinds| && (forall k :: 0 <= k < |kinds| ==> anomalies[k].kind == kinds[k]);
    hide Selects;
    var more := SelectsPushed(wanted, kinds, pos, kind, grant);
    assert anomalies + [] == anomalies;
  }

  /** Each wanted kind was requested once, in order, and exactly the granted ones were reported. */
  ghost predicate Answers(wanted: seq<AnomalyKind>, before: seq<Request>, after: seq<Request>,
                          anomalies: seq<Anomaly>, cooldown: nat)
  {
    && before <= after && |after| == |before| + |wanted|
    && (forall i :: 0 <= i < |wanted| ==> after[|before| + i].key == KeyOf(wanted[i]))
    && anomalies == Reported(wanted, Grants(after, cooldown)[|before|..])
  }

  lemma AnswersPushed(wanted: seq<AnomalyKind>, before: seq<Request>, after: seq<Request>,
                      anomalies: seq<Anomaly>, kind: AnomalyKind, now: nat, cooldown: nat)
    requires Answers(wanted, before, after, anomalies, cooldown)
    ensures var longer := after + [Request(KeyOf(kind), now)];
            var grants := Grants(longer, cooldown);
            Answers(wanted + [kind], before, longer,
                    anomalies + (if grants[|grants| - 1] then [AnomalyOf(kind)] else []), cooldown)
  {
    var r := Request(KeyOf(kind), now);
    var longer, more := after + [r], wanted + [kind];
    var g, gs := Grants(after, cooldown), Grants(longer, cooldown);
    assert longer[..|longer| - 1] == after && more[..|more| - 1] == wanted;
    assert gs == g + [gs[|gs| - 1]];
    assert gs[|before|..][..|wanted|] == g[|before|..];
    assert gs[|before|..] == g[|before|..] + [gs[|gs| - 1]];
  }
}
