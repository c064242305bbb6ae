/** The extraction lane and the deep-analysis fuse. */
module ExtractionLane {
  import opened Text

  datatype ExtractionPhase = Idle | Sending | WaitingForSlotIdle

  const U32_MAX: nat := 0xFFFF_FFFF
  const I64_MAX: int := 0x7FFF_FFFF_FFFF_FFFF

  function SaturatingSucc(n: nat): nat {
    if n >= U32_MAX then U32_MAX else n + 1
  }

  function SaturatingAdd(a: int, b: int): int {
    if a + b > I64_MAX then I64_MAX else a + b
  }

  /** One completed deep analysis, with the settings in force. */
  datatype Completion = Completion(output: nat, threshold: nat, fuseSecs: int, now: int)

  /** How many completions in a row, up to now, produced nothing. */
  function TrailingZeros(history: seq<Completion>): nat {
    if history == [] || history[|history| - 1].output > 0 then 0 else 1 + TrailingZeros(history[..|history| - 1])
  }

  /** A completion blows the fuse if it ends a run of empty ones as long as its threshold. */
  predicate Fires(history: seq<Completion>)
    requires history != []
  {
    var c := history[|history| - 1];
    0 < c.threshold <= TrailingZeros(history)
  }

  /** Until when the fuse holds: set by the latest blow, cleared by any output. */
  function FuseUntil(history: seq<Completion>): int {
    if history == [] then 0
    else
      var c := history[|history| - 1];
      if c.output > 0 then 0
      else if Fires(history) then SaturatingAdd(c.now, if c.fuseSecs < 1 then 1 else c.fuseSecs)
      else FuseUntil(history[..|history| - 1])
  }

  class DeepAnalysisFuse {
    var currentOutputCount: nat
    var zeroOutputCount: nat
    var fuseUntil: int

    ghost var history: seq<Completion>

    ghost predicate Valid()
      reads this
    {
      && zeroOutputCount == (if TrailingZeros(history) > U32_MAX then U32_MAX else TrailingZeros(history))
      && fuseUntil == FuseUntil(history)
    }

    constructor ()
      ensures Valid() && history == []
    {
      currentOutputCount, zeroOutputCount, fuseUntil := 0, 0, 0;
      history := [];
    }

    /** Fires exactly when the trailing run of empty completions has reached the threshold;
        the counter's saturation never shows. */
    method RecordCompletion(outputCount: nat, threshold: nat, fuseSecs: int, now: int) returns (fired: bool)
      requires Valid() && outputCount <= U32_MAX && threshold <= U32_MAX
      modifies this
      ensures Valid() && history == old(history) + [Completion(outputCount, threshold, fuseSecs, now)]
      ensures fired == Fires(history) && currentOutputCount == 0
    {
      currentOutputCount := 0;
      history := history + [Completion(outputCount, threshold, fuseSecs, now)];
      assert history[..|history| - 1] == old(history);
      if outputCount > 0 {
        zeroOutputCount := 0;
        fuseUntil := 0;
        return false;
      }
      zeroOutputCount := SaturatingSucc(zeroOutputCount);
      if threshold > 0 && zeroOutputCount >= threshold {
        fuseUntil := SaturatingAdd(now, if fuseSecs < 1 then 1 else fuseSecs);
        return true;
      }
      return false;
    }
  }

  /** With one positive threshold throughout, a completion fires if and only if the last
      `threshold` completions, itself included, all produced nothing. */
  lemma {:induction false} FiresAfterEmptyRun(history: seq<Completion>, threshold: nat)
    requires history != [] && threshold > 0 && history[|history| - 1].threshold == threshold
    ensures Fires(history) <==>
              threshold <= |history| && forall i :: |history| - threshold <= i < |history| ==> history[i].output == 0
  {
    ZerosAreTrailing(history);
    var n := TrailingZeros(history);
    if threshold <= |history| && n < threshold {
      assert history[|history| - n - 1].output > 0;
    }
  }

  lemma {:induction false} ZerosAreTrailing(history: seq<Completion>)
    ensures var n := TrailingZeros(history);
            && n <= |history|
            && (forall i :: |history| - n <= i < |history| ==> history[i].output == 0)
            && (n < |history| ==> history[|history| - n - 1].output > 0)
  {
    if history != [] && history[|history| - 1].output == 0 {
      ZerosAreTrailing(history[..|history| - 1]);
    }
  }

  predicate FiresAt(history: seq<Completion>, i: nat)
    requires i < |history|
  {
    Fires(history[..i + 1])
  }

  lemma FiresInPrefix(history: seq<Completion>, n: nat, i: nat)
    requires i < n <= |history|
    ensures FiresAt(history[..n], i) == FiresAt(history, i)
  {
    assert history[..n][..i + 1] == history[..i + 1];
  }

  lemma FiresAtEnd(history: seq<Completion>)
    requires history != []
    ensures FiresAt(history, |history| - 1) == Fires(history)
    ensures Fires(history) ==> history[|history| - 1].output == 0
  {
    assert history[..|history|] == history;
  }

  /** Completion `i` was the last one to blow the fuse, and no output has cleared it since. */
  ghost predicate LastBlown(history: seq<Completion>, i: nat) {
    && i < |history| && FiresAt(history, i)
    && forall j :: i < j < |history| ==> history[j].output == 0 && !FiresAt(history, j)
  }

  /** A blown fuse holds until the time of that completion plus its duration, at least one second,
      however many empty completions follow. */
  lemma {:induction false} FuseHoldsSinceBlown(history: seq<Completion>, i: nat)
    requires LastBlown(history, i)
    ensures var c := history[i];
            var until := c.now + (if c.fuseSecs < 1 then 1 else c.fuseSecs);
            FuseUntil(history) == if until > I64_MAX then I64_MAX else until
  {
    hide Fires;
    var n := |history| - 1;
    FiresAtEnd(history);
    if i < n {
      BlownInPrefix(history, i);
      FuseHoldsSinceBlown(history[..n], i);
    }
  }

  /** Whether `i` was the last to blow the fuse does not change with further empty completions that
      do not blow it. */
  lemma BlownInPrefix(history: seq<Completion>, i: nat)
    requires history != [] && i < |history| - 1
    ensures LastBlown(history, i)
       <==> && LastBlown(history[..|history| - 1], i)
            && history[|history| - 1].output == 0 && !FiresAt(history, |history| - 1)
  {
    hide FiresAt;
    var n := |history| - 1;
    var past := history[..n];
    forall j: nat | j < n
      ensures FiresAt(past, j) == FiresAt(history, j)
    {
      FiresInPrefix(history, n, j);
    }
    if LastBlown(past, i) && history[n].output == 0 && !FiresAt(history, n) {
      assert forall j :: i < j < n ==> past[j].output == 0 && !FiresAt(past, j);
      assert LastBlown(history, i);
    }
    if LastBlown(history, i) {
      assert LastBlown(past, i);
    }
  }

  /** Without a blown fuse there is nothing to hold: before the first firing, and from any output
      until the next one. */
  lemma {:induction false} NoFuseOtherwise(history: seq<Completion>)
    requires forall i: nat :: !LastBlown(history, i)
    ensures FuseUntil(history) == 0
  {
    hide Fires;
    if history == [] {
    } else {
      var n := |history| - 1;
      var past := history[..n];
      FiresAtEnd(history);
      assert !LastBlown(history, n);
      if history[n].output == 0 {
        forall i: nat
          ensures !LastBlown(past, i)
        {
          if i < n {
            BlownInPrefix(history, i);
          }
        }
        NoFuseOtherwise(past);
      }
    }
  }

  // ---------- The lane ----------

  /** What can happen to a lane: its own four commands, and the supervisor's reset of a slot
      it found stuck, which restarts the busy clock instead of stopping it. */
  datatype Command =
    | Begin(taskId: string, extractionType: string, now: nat)
    | MarkPendingBatchServed(batchId: string, payload: string, now: nat)
    | Complete(outputCount: nat)
    | Timeout
    | StuckReset(now: nat)

  /** The last command other than serving a batch. */
  function LastChange(run: seq<Command>): Option<Command> {
    if run == [] then None
    else if run[|run| - 1].MarkPendingBatchServed? then LastChange(run[..|run| - 1])
    else Some(run[|run| - 1])
  }

  class Lane {
    var phase: ExtractionPhase
    var activeType: Option<string>
    var currentTaskId: Option<string>
    var currentSlotTaskId: Option<string>
    var currentOutputCount: nat
    var pendingServed: bool
    var pendingBatch: Option<(string, string)>
    var pendingServedAt: nat
    var busySince: nat

    ghost var run: seq<Command>

    /** Phase, active type and current task say the same; and the busy clock is zero exactly
        on an idle lane that was not last touched by a stuck reset. */
    ghost predicate Valid()
      reads this
    {
      && (phase == Idle <==> activeType == None)
      && (phase == Idle <==> currentTaskId == None)
      && (phase == Idle <==> !(LastChange(run).Some? && LastChange(run).value.Begin?))
      && (busySince == 0 <==> phase == Idle && !(LastChange(run).Some? && LastChange(run).value.StuckReset?))
    }

    constructor ()
      ensures Valid() && run == []
    {
      phase, activeType, currentTaskId, currentSlotTaskId := Idle, None, None, None;
      currentOutputCount, pendingServed, pendingBatch, pendingServedAt, busySince := 0, false, None, 0, 0;
      run := [];
    }

    method ClearPendingBatchReplay()
      modifies this`pendingServed, this`pendingBatch, this`pendingServedAt
      ensures !pendingServed && pendingBatch == None && pendingServedAt == 0
    {
      pendingServed, pendingBatch, pendingServedAt := false, None, 0;
    }

    method BeginTask(taskId: string, extractionType: string, now: nat)
      requires Valid() && now > 0
      modifies this
      ensures Valid() && run == old(run) + [Begin(taskId, extractionType, now)]
      ensures phase == Sending && activeType == Some(extractionType)
      ensures currentTaskId == Some(taskId) && busySince == now
      ensures currentOutputCount == 0 && !pendingServed
    {
      phase := Sending;
      activeType := Some(extractionType);
      currentTaskId := Some(taskId);
      currentOutputCount := 0;
      ClearPendingBatchReplay();
      busySince := now;
      run := run + [Begin(taskId, extractionType, now)];
    }

    method ServeBatch(batchId: string, payload: string, now: nat)
      requires Valid()
      modifies this
      ensures Valid() && run == old(run) + [MarkPendingBatchServed(batchId, payload, now)]
      ensures pendingServed && pendingBatch == Some((batchId, payload)) && pendingServedAt == now
      ensures phase == old(phase) && busySince == old(busySince)
    {
      pendingServed, pendingBatch, pendingServedAt := true, Some((batchId, payload)), now;
      run := run + [MarkPendingBatchServed(batchId, payload, now)];
      assert run[..|run| - 1] == old(run);
    }

    method CompleteTask(outputCount: nat)
      requires Valid()
      modifies this
      ensures Valid() && run == old(run) + [Complete(outputCount)]
      ensures phase == Idle && currentOutputCount == outputCount
      ensures currentSlotTaskId == None && !pendingServed && busySince == 0
    {
      phase, activeType, currentTaskId, currentSlotTaskId := Idle, None, None, None;
      currentOutputCount := outputCount;
      ClearPendingBatchReplay();
      busySince := 0;
      run := run + [Complete(outputCount)];
    }

    method TimeOut()
      requires Valid()
      modifies this
      ensures Valid() && run == old(run) + [Timeout]
      ensures phase == Idle && currentOutputCount == old(currentOutputCount)
      ensures currentSlotTaskId == None && !pendingServed && busySince == 0
    {
      phase, activeType, currentTaskId, currentSlotTaskId := Idle, None, None, None;
      ClearPendingBatchReplay();
      busySince := 0;
      run := run + [Timeout];
    }

    method ResetStuck(now: nat)
      requires Valid() && now > 0
      modifies this
      ensures Valid() && run == old(run) + [StuckReset(now)]
      ensures phase == Idle && currentSlotTaskId == None && !pendingServed && busySince == now
    {
      phase, activeType, currentTaskId, currentSlotTaskId := Idle, None, None, None;
      ClearPendingBatchReplay();
      busySince := now;
      run := run + [StuckReset(now)];
    }
  }
}
