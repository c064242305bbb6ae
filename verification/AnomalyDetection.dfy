/** The anomaly detector as an object: every field is a running summary of its history. */
module AnomalyDetection {
  import opened Text
  import opened Cooldown
  import opened DetectorHistory

  /** A clock that never goes back. */
  class Clock {
    var time: nat

    constructor ()
    {
    }

    method Now() returns (now: nat)
      modifies this
      ensures now == time >= old(time)
    {
      now :| now >= time;
      time := now;
    }
  }

  const ANOMALY_COOLDOWN: nat := 300_000

  class AnomalyDetector {
    const config: AnomalyConfig
    const clock: Clock
    var currentState: Option<CliState>
    var stateEnteredAt: nat
    var confidenceSamples: seq<Sample>
    var consecutiveUnrecognized: nat
    var lastAnchorCheck: nat
    var lastAnomalyTimes: map<string, nat>
    var anchorMissCounts: map<string, nat>

    /** Everything fed to the detector so far. */
    ghost var frames: seq<Frame>
    ghost var observations: seq<Observation>
    ghost var requests: seq<Request>

    ghost predicate TracksRequests()
      reads this, clock
    {
      && IsChronological(requests) && LastTime(requests) <= clock.time
      && Tracks(lastAnomalyTimes, requests, Grants(requests, ANOMALY_COOLDOWN), LastTime(requests), ANOMALY_COOLDOWN)
    }

    ghost predicate TracksStates()
      reads this
    {
      && consecutiveUnrecognized == TrailingNone(frames)
      && currentState == LastState(frames)
      && (currentState.Some? ==> stateEnteredAt == RunStart(frames))
    }

    ghost function LastFrameTime(): nat
      reads this
    {
      if frames == [] then 0 else frames[|frames| - 1].now
    }

    ghost predicate TracksConfidence()
      reads this, clock
    {
      && IsSorted(Samples(frames)) && LastFrameTime() <= clock.time
      && confidenceSamples == Windowed(Samples(frames), LastFrameTime(), config.confidenceWindow)
    }

    ghost predicate TracksAnchors()
      reads this, clock
    {
      && lastAnchorCheck <= clock.time
      && forall id :: (id in anchorMissCounts <==> TrailingMisses(observations, id) > 0)
                      && (id in anchorMissCounts ==> anchorMissCounts[id] == TrailingMisses(observations, id))
    }

    ghost predicate Valid()
      reads this, clock
    {
      TracksRequests() && TracksStates() && TracksConfidence() && TracksAnchors()
    }

    constructor (config: AnomalyConfig, clock: Clock)
      modifies clock
      ensures Valid() && frames == [] && observations == [] && requests == []
      ensures this.config == config && this.clock == clock
    {
      this.config := config;
      this.clock := clock;
      currentState := None;
      confidenceSamples := [];
      consecutiveUnrecognized := 0;
      lastAnomalyTimes := map[];
      anchorMissCounts := map[];
      frames, observations, requests := [], [], [];
      new;
      stateEnteredAt := clock.Now();
      lastAnchorCheck := clock.Now();
    }

    /** Grants the report unless the same key was reported less than a cooldown ago. */
    method EmitIfCool(key: string) returns (granted: bool)
      requires TracksRequests()
      modifies this`lastAnomalyTimes, this`requests, clock
      ensures TracksRequests() && clock.time >= old(clock.time)
      ensures requests == old(requests) + [Request(key, clock.time)]
      ensures granted == Grants(requests, ANOMALY_COOLDOWN)[|old(requests)|]
    {
      hide Tracks, Grants, IsChronological;
      var now := clock.Now();
      ghost var past, r := requests, Request(key, now);
      PruneTracks(lastAnomalyTimes, past, Grants(past, ANOMALY_COOLDOWN), LastTime(past), now, ANOMALY_COOLDOWN);
      ChronologicalPushed(past, r);
      if |lastAnomalyTimes| > PRUNE_ABOVE {
        lastAnomalyTimes :=
          map k | k in lastAnomalyTimes && IsRecent(lastAnomalyTimes[k], now, ANOMALY_COOLDOWN * 2)
                :: lastAnomalyTimes[k];
      }
      requests := past + [r];
      assert requests[..|requests| - 1] == past;
      StepAnswers(lastAnomalyTimes, requests, ANOMALY_COOLDOWN);
      if key in lastAnomalyTimes && now < lastAnomalyTimes[key] + ANOMALY_COOLDOWN {
        return false;
      }
      lastAnomalyTimes := lastAnomalyTimes[key := now];
      return true;
    }

    /** Asks to report one more kind. */
    method Report(kind: AnomalyKind, anomalies: seq<Anomaly>,
                  ghost wanted: seq<AnomalyKind>, ghost before: seq<Request>)
      returns (more: seq<Anomaly>)
      requires TracksRequests() && Answers(wanted, before, requests, anomalies, ANOMALY_COOLDOWN)
      modifies this`lastAnomalyTimes, this`requests, clock
      ensures TracksRequests() && clock.time >= old(clock.time)
      ensures Answers(wanted + [kind], before, requests, more, ANOMALY_COOLDOWN)
    {
      var granted := EmitIfCool(KeyOf(kind));
      AnswersPushed(wanted, before, old(requests), anomalies, kind, clock.time, ANOMALY_COOLDOWN);
      more := if granted then anomalies + [AnomalyOf(kind)] else anomalies;
    }

    /** Drops samples older than the window; they leave at the front. */
    method PruneConfidenceWindow(now: nat)
      requires IsSorted(confidenceSamples)
      modifies this`confidenceSamples
      ensures confidenceSamples == Windowed(old(confidenceSamples), now, config.confidenceWindow)
      ensures exists k: nat ::
                && WindowStartsAt(old(confidenceSamples), now, config.confidenceWindow, k)
                && confidenceSamples == old(confidenceSamples)[k..]
    {
      ghost var k := WindowedIsSuffix(confidenceSamples, now, config.confidenceWindow);
      hide WindowStartsAt;
      while confidenceSamples != []
        invariant IsSorted(confidenceSamples)
        invariant Windowed(confidenceSamples, now, config.confidenceWindow)
               == Windowed(old(confidenceSamples), now, config.confidenceWindow)
      {
        if confidenceSamples[0].now + config.confidenceWindow < now {
          confidenceSamples := confidenceSamples[1..];
        } else {
          break;
        }
      }
      AllInWindow(confidenceSamples, now, config.confidenceWindow);
    }

    method AddFrame(now: nat, newState: Option<CliState>, confidence: real)
      requires TracksConfidence() && now == clock.time
      modifies this`confidenceSamples, this`frames
      ensures frames == old(frames) + [Frame(now, newState, confidence)] && TracksConfidence()
    {
      hide Samples, Windowed, IsSorted;
      ghost var kept, past, sample := confidenceSamples, frames, [Sample(now, confidence)];
      WindowedSorted(Samples(past), LastFrameTime(), config.confidenceWindow);
      FramePushed(past, Frame(now, newState, confidence));
      confidenceSamples := confidenceSamples + [Sample(now, confidence)];
      KeptIsSorted(past, kept, now, confidence);
      PruneConfidenceWindow(now);
      WindowedConcat(kept, sample, now, config.confidenceWindow);
      WindowedConcat(Samples(past), sample, now, config.confidenceWindow);
      WindowedTwice(Samples(past), LastFrameTime(), now, config.confidenceWindow);
      frames := past + [Frame(now, newState, confidence)];
    }

    method AvgConfidence() returns (avg: Option<real>)
      ensures avg == if confidenceSamples == [] then None
                     else Some(Total(confidenceSamples) / (|confidenceSamples| as real))
    {
      if confidenceSamples == [] {
        return None;
      }
      var sum := 0.0;
      for i := 0 to |confidenceSamples|
        invariant sum == Total(confidenceSamples[..i])
      {
        assert confidenceSamples[..i + 1][..i] == confidenceSamples[..i];
        sum := sum + confidenceSamples[i].confidence;
      }
      assert confidenceSamples[..|confidenceSamples|] == confidenceSamples;
      return Some(sum / (|confidenceSamples| as real));
    }

    /** Feeds one detection result; reports what the history calls for, unless cooling down. */
    method OnStateDetected(newState: Option<CliState>, confidence: real) returns (anomalies: seq<Anomaly>)
      requires Valid()
      modifies this, clock
      ensures Valid() && observations == old(observations)
      ensures lastAnchorCheck == old(lastAnchorCheck) && anchorMissCounts == old(anchorMissCounts)
      ensures |frames| == |old(frames)| + 1 && frames[..|old(frames)|] == old(frames)
      ensures frames[|old(frames)|] == Frame(frames[|old(frames)|].now, newState, confidence)
      ensures Answers(Wanted(config, frames), old(requests), requests, anomalies, ANOMALY_COOLDOWN)
      ensures AsksForWhatIsDue(config, frames, Wanted(config, frames))
    {
      hide AsksForWhatIsDue;
      hide Tracks, Grants, Answers, IsSorted, Windowed, TrailingNone, LastState, RunStart, Wanted, WantedByState;
      hide IsChronological, Samples, TrailingMisses, LastTime;
      var now := clock.Now();
      AddFrame(now, newState, confidence);
      assert frames[..|frames| - 1] == old(frames);
      if newState.Some? {
        anomalies := OnRecognized(newState.value, now);
      } else {
        anomalies := OnUnrecognized();
      }
      anomalies := CheckConfidence(anomalies, old(requests));
      WantedIsDue(config, frames);
    }

    method OnRecognized(state: CliState, now: nat) returns (anomalies: seq<Anomaly>)
      requires frames != [] && frames[|frames| - 1].state == Some(state) && frames[|frames| - 1].now == now
      requires currentState == LastState(frames[..|frames| - 1])
      requires currentState.Some? ==> stateEnteredAt == RunStart(frames[..|frames| - 1])
      requires TracksRequests()
      modifies this`currentState, this`stateEnteredAt, this`consecutiveUnrecognized
      modifies this`lastAnomalyTimes, this`requests, clock
      ensures TracksRequests() && TracksStates() && clock.time >= old(clock.time)
      ensures Answers(WantedByState(config, frames), old(requests), requests, anomalies, ANOMALY_COOLDOWN)
    {
      hide Tracks, Grants, Answers, IsChronological, LastTime;
      NothingAsked(requests);
      anomalies := [];
      ghost var wanted: seq<AnomalyKind> := [];
      consecutiveUnrecognized := 0;
      if currentState.Some? {
        var prev := currentState.value;
        if prev != state && (prev, state) !in VALID_TRANSITIONS {
          anomalies := Report(IllegalTransition, anomalies, wanted, old(requests));
          wanted := wanted + [IllegalTransition];
        }
      }
      if currentState == Some(state) {
        var stuckDuration := now - stateEnteredAt;
        if stuckDuration > config.stateStuckTimeout && (state.Thinking? || state.ToolRunning?) {
          anomalies := Report(StateStuck, anomalies, wanted, old(requests));
          wanted := wanted + [StateStuck];
        }
      } else {
        currentState := Some(state);
        stateEnteredAt := now;
      }
      assert wanted == WantedByState(config, frames);
    }

    method OnUnrecognized() returns (anomalies: seq<Anomaly>)
      requires frames != [] && frames[|frames| - 1].state == None
      requires currentState == LastState(frames[..|frames| - 1])
      requires currentState.Some? ==> stateEnteredAt == RunStart(frames[..|frames| - 1])
      requires consecutiveUnrecognized == TrailingNone(frames[..|frames| - 1])
      requires TracksRequests()
      modifies this`consecutiveUnrecognized, this`lastAnomalyTimes, this`requests, clock
      ensures TracksRequests() && TracksStates() && clock.time >= old(clock.time)
      ensures Answers(WantedByState(config, frames), old(requests), requests, anomalies, ANOMALY_COOLDOWN)
    {
      hide Tracks, Grants, Answers;
      NothingAsked(requests);
      anomalies := [];
      consecutiveUnrecognized := consecutiveUnrecognized + 1;
      if consecutiveUnrecognized >= config.unrecognizedThreshold {
        anomalies := Report(UnrecognizedFrames, anomalies, [], old(requests));
        assert [] + [UnrecognizedFrames] == [UnrecognizedFrames];
      }
    }

    method CheckConfidence(found: seq<Anomaly>, ghost before: seq<Request>) returns (anomalies: seq<Anomaly>)
      requires frames != [] && TracksRequests()
      requires confidenceSamples == Windowed(Samples(frames), frames[|frames| - 1].now, config.confidenceWindow)
      requires Answers(WantedByState(config, frames), before, requests, found, ANOMALY_COOLDOWN)
      modifies this`lastAnomalyTimes, this`requests, clock
      ensures TracksRequests() && clock.time >= old(clock.time)
      ensures Answers(Wanted(config, frames), before, requests, anomalies, ANOMALY_COOLDOWN)
    {
      hide Tracks, Grants, Answers, WantedByState, Windowed, Total;
      anomalies := found;
      var avg := AvgConfidence();
      ghost var wanted := WantedByState(config, frames);
      assert Wanted(config, frames)
          == if IsLow(confidenceSamples, config.confidenceThreshold) then wanted + [LowConfidence] else wanted;
      if avg.Some? {
        if avg.value < config.confidenceThreshold && |confidenceSamples| >= 10 {
          anomalies := Report(LowConfidence, anomalies, WantedByState(config, frames), before);
        }
      }
    }

    /** One check of the anchors, at clock reading `now`, unless the previous one was too recent. */
    method CheckAnchors(results: seq<Observation>) returns (anomalies: seq<Anomaly>, ghost now: nat)
      requires Valid()
      modifies this, clock
      ensures Valid() && frames == old(frames) && old(clock.time) <= now <= clock.time
      ensures now < old(lastAnchorCheck) + config.anchorCheckInterval ==>
                && anomalies == [] && requests == old(requests) && observations == old(observations)
                && lastAnchorCheck == old(lastAnchorCheck)
      ensures now >= old(lastAnchorCheck) + config.anchorCheckInterval ==>
                && lastAnchorCheck == now && observations == old(observations) + results
                && Answers(
                     WantedAnchors(old(observations), results), old(requests), requests, anomalies, ANOMALY_COOLDOWN)
      ensures AsksForLost(old(observations), results, WantedAnchors(old(observations), results))
    {
      WantedAnchorsAreLost(observations, results);
      hide AsksForLost, WantedAnchors;
      var reading := clock.Now();
      now := reading;
      if reading - lastAnchorCheck < config.anchorCheckInterval {
        return [], now;
      }
      anomalies := RecordAnchors(reading, results);
    }

    method RecordAnchors(now: nat, results: seq<Observation>) returns (anomalies: seq<Anomaly>)
      requires Valid() && now == clock.time
      modifies this`lastAnchorCheck, this`anchorMissCounts, this`observations
      modifies this`lastAnomalyTimes, this`requests, clock
      ensures Valid() && clock.time >= old(clock.time) && lastAnchorCheck == now
      ensures observations == old(observations) + results
      ensures Answers(WantedAnchors(old(observations), results), old(requests), requests, anomalies, ANOMALY_COOLDOWN)
    {
      hide Tracks, Grants, Answers, TrailingMisses, IsChronological, LastTime, IsSorted, Windowed, Samples;
      hide TrailingNone, LastState, RunStart;
      lastAnchorCheck := now;
      anomalies := [];
      NothingAsked(requests);
      for i := 0 to |results|
        invariant TracksRequests() && TracksAnchors() && clock.time >= old(clock.time)
        invariant lastAnchorCheck == now
        invariant observations == old(observations) + results[..i]
        invariant Answers(
                    WantedAnchors(old(observations), results[..i]), old(requests), requests,
                    anomalies, ANOMALY_COOLDOWN)
      {
        assert results[..i + 1][..i] == results[..i];
        anomalies := RecordAnchor(results[i], anomalies, WantedAnchors(old(observations), results[..i]), old(requests));
        assert observations == old(observations) + results[..i + 1];
      }
      assert results[..|results|] == results;
    }

    method RecordAnchor(o: Observation, found: seq<Anomaly>, ghost wanted: seq<AnomalyKind>, ghost before: seq<Request>)
      returns (anomalies: seq<Anomaly>)
      requires TracksRequests() && TracksAnchors()
      requires Answers(wanted, before, requests, found, ANOMALY_COOLDOWN)
      modifies this`anchorMissCounts, this`observations, this`lastAnomalyTimes, this`requests, clock
      ensures TracksRequests() && TracksAnchors() && clock.time >= old(clock.time)
      ensures observations == old(observations) + [o]
      ensures Answers(
                wanted + (if !o.matched && TrailingMisses(observations, o.anchor) >= ANCHOR_MISS_THRESHOLD
                          then [AnchorMissing(o.anchor)] else []),
                before, requests, anomalies, ANOMALY_COOLDOWN)
    {
      hide Tracks, Grants, Answers;
      anomalies := found;
      observations := observations + [o];
      assert observations[..|observations| - 1] == old(observations);
      if o.matched {
        anchorMissCounts := anchorMissCounts - {o.anchor};
        assert wanted + [] == wanted;
      } else {
        var count := if o.anchor in anchorMissCounts then anchorMissCounts[o.anchor] + 1 else 1;
        anchorMissCounts := anchorMissCounts[o.anchor := count];
        if count >= ANCHOR_MISS_THRESHOLD {
          anomalies := Report(AnchorMissing(o.anchor), anomalies, wanted, before);
        } else {
          assert wanted + [] == wanted;
        }
      }
    }
  }

  lemma NothingAsked(requests: seq<Request>)
    ensures Answers([], requests, requests, [], ANOMALY_COOLDOWN)
  {
  }

  /** What was kept of sorted samples stays sorted with one later sample behind it. */
  lemma KeptIsSorted(past: seq<Frame>, kept: seq<Sample>, now: nat, confidence: real)
    requires IsSorted(kept) && (forall s <- kept :: s in Samples(past)) && IsSorted(Samples(past))
    requires past == [] || past[|past| - 1].now <= now
    ensures IsSorted(kept + [Sample(now, confidence)])
  {
    forall s | s in kept
      ensures s.now <= now
    {
      var i :| 0 <= i < |Samples(past)| && Samples(past)[i] == s;
      assert Samples(past)[|past| - 1].now <= now;
    }
    assert forall i :: 0 <= i < |kept| ==> kept[i] in kept;
  }

  lemma FramePushed(past: seq<Frame>, f: Frame)
    requires IsSorted(Samples(past)) && (past == [] || past[|past| - 1].now <= f.now)
    ensures IsSorted(Samples(past + [f])) && Samples(past + [f]) == Samples(past) + [Sample(f.now, f.confidence)]
  {
  }
}
