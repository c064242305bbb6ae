/** Replaying row operations: a sequence of frames rebuilds every stable row of the latest screen. */
module Replay {
  import opened Text
  import opened FrameDiff

  /** A transcript: the text recorded for each row so far. */
  type Transcript = map<nat, string>

  function Recorded(m: Transcript, y: nat): Option<string> {
    if y in m then Some(m[y]) else None
  }

  /** `Line` and `Replace` set a row; `Append` extends it. */
  function Apply(m: Transcript, op: StableTextOp): Transcript {
    match op
    case Line(y, text, _) => m[y := text]
    case Replace(y, text, _) => m[y := text]
    case Append(y, text) => m[y := (if y in m then m[y] else "") + text]
  }

  function ReplayOps(m: Transcript, ops: seq<StableTextOp>): Transcript {
    if ops == [] then m else Apply(ReplayOps(m, ops[..|ops| - 1]), ops[|ops| - 1])
  }

  /** The transcript is right about a screen: it records every stable row's text. */
  ghost predicate Agrees(transient: Transient, m: Transcript, s: Snapshot) {
    forall y: nat :: StableText(transient, s, y).Some? ==> Recorded(m, y) == StableText(transient, s, y)
  }

  /** A stable row entered the window above the old window's top. The extractor skips such
      rows so as not to replay history. */
  ghost predicate HidesStableRow(transient: Transient, prev: Snapshot, curr: Snapshot) {
    exists y: nat :: StableText(transient, curr, y).Some? && y < prev.startY
  }

  function RowAfter(before: Option<string>, op: Option<StableTextOp>): Option<string> {
    match op
    case None => before
    case Some(Line(_, text, _)) => Some(text)
    case Some(Replace(_, text, _)) => Some(text)
    case Some(Append(_, text)) => Some((if before.Some? then before.value else "") + text)
  }

  lemma ReplayPushed(m: Transcript, ops: seq<StableTextOp>, op: StableTextOp)
    ensures ReplayOps(m, ops + [op]) == Apply(ReplayOps(m, ops), op)
  {
    assert (ops + [op])[..|ops|] == ops;
  }

  /** Rows do not interfere: after a frame each row has seen its own operation only. */
  lemma {:induction false} ReplayIsRowwise(m: Transcript, f: RowFunction, hi: nat, y: nat)
    requires AtTheirRow(f)
    ensures Recorded(ReplayOps(m, Collect(f, hi)), y)
         == if y < hi then RowAfter(Recorded(m, y), f(y)) else Recorded(m, y)
  {
    if hi == 0 {
    } else {
      ReplayIsRowwise(m, f, hi - 1, y);
      hide ReplayOps;
      match f(hi - 1) {
        case None =>
        case Some(op) =>
          ReplayPushed(m, Collect(f, hi - 1), op);
          AppliedAtRow(ReplayOps(m, Collect(f, hi - 1)), op, y);
      }
    }
  }

  lemma AppliedAtRow(m: Transcript, op: StableTextOp, y: nat)
    ensures Recorded(Apply(m, op), y) == if y == op.y then RowAfter(Recorded(m, y), Some(op)) else Recorded(m, y)
  {
  }

  lemma FrameReplay(transient: Transient, m: Transcript, prev: Snapshot, curr: Snapshot, y: nat)
    ensures Recorded(ReplayOps(m, Ops(transient, prev, curr)), y)
         == RowAfter(Recorded(m, y), RowOp(transient, prev, curr, y))
  {
    var hi := Max(prev.EndY(), curr.EndY());
    var h: RowFunction := (z: nat) => RowOp(transient, prev, curr, z);
    forall z: nat {
      OpsSitAtTheirRow(transient, prev, curr, z);
    }
    FrameOpsCollect(transient, prev, curr, h, hi);
    ReplayIsRowwise(m, h, hi, y);
  }

  /** A row's operation turns its old stable text into its new one, unless the row entered
      above the old window. */
  lemma RowOpPatches(transient: Transient, prev: Snapshot, curr: Snapshot, y: nat, recorded: Option<string>)
    requires StableText(transient, curr, y).Some?
    requires StableText(transient, prev, y).Some? ==> recorded == StableText(transient, prev, y)
    requires prev.Has(y) || y >= prev.startY
    ensures RowAfter(recorded, RowOp(transient, prev, curr, y)) == StableText(transient, curr, y)
  {
    match StableText(transient, prev, y)
    case None =>
    case Some(before) =>
      var after := StableText(transient, curr, y).value;
      if before < after {
        assert before + after[|before|..] == after;
      }
  }

  /** One frame keeps every right transcript right if and only if it hides no stable row. */
  lemma FrameKeepsAgreement(transient: Transient, prev: Snapshot, curr: Snapshot)
    ensures (forall m ::
               Agrees(transient, m, prev) ==> Agrees(transient, ReplayOps(m, Ops(transient, prev, curr)), curr))
       <==> !HidesStableRow(transient, prev, curr)
  {
    if HidesStableRow(transient, prev, curr) {
      var y: nat :| StableText(transient, curr, y).Some? && y < prev.startY;
      var m := Truth(transient, prev) - {y};
      TruthAgrees(transient, prev);
      assert StableText(transient, prev, y) == None;
      FrameReplay(transient, m, prev, curr, y);
      assert Agrees(transient, m, prev);
      assert !Agrees(transient, ReplayOps(m, Ops(transient, prev, curr)), curr);
    } else {
      forall m | Agrees(transient, m, prev)
        ensures Agrees(transient, ReplayOps(m, Ops(transient, prev, curr)), curr)
      {
        FrameAgrees(transient, m, prev, curr);
      }
    }
  }

  lemma FrameAgrees(transient: Transient, m: Transcript, prev: Snapshot, curr: Snapshot)
    requires Agrees(transient, m, prev) && !HidesStableRow(transient, prev, curr)
    ensures Agrees(transient, ReplayOps(m, Ops(transient, prev, curr)), curr)
  {
    forall y: nat | StableText(transient, curr, y).Some?
      ensures Recorded(ReplayOps(m, Ops(transient, prev, curr)), y) == StableText(transient, curr, y)
    {
      FrameReplay(transient, m, prev, curr, y);
      RowOpPatches(transient, prev, curr, y, Recorded(m, y));
    }
  }

  /** The transcript of a single screen. */
  ghost function Truth(transient: Transient, s: Snapshot): Transcript {
    map y: nat | y < s.EndY() && StableText(transient, s, y).Some? :: StableText(transient, s, y).value
  }

  lemma TruthAgrees(transient: Transient, s: Snapshot)
    ensures Agrees(transient, Truth(transient, s), s)
  {
  }

  // ---------- Whole runs ----------

  function Before(frames: seq<Snapshot>): Snapshot {
    if frames == [] then NO_ROWS else frames[|frames| - 1]
  }

  /** All operations emitted over a run, frame by frame. */
  function RunOps(transient: Transient, frames: seq<Snapshot>): seq<StableTextOp> {
    if frames == [] then []
    else
      var past := frames[..|frames| - 1];
      RunOps(transient, past) + Ops(transient, Before(past), frames[|frames| - 1])
  }

  lemma {:induction false} ReplayConcat(m: Transcript, a: seq<StableTextOp>, b: seq<StableTextOp>)
    ensures ReplayOps(m, a + b) == ReplayOps(ReplayOps(m, a), b)
  {
    if b == [] {
      assert a + b == a;
    } else {
      assert (a + b)[..|a + b| - 1] == a + b[..|b| - 1];
      ReplayConcat(m, a, b[..|b| - 1]);
    }
  }

  ghost predicate NeverHides(transient: Transient, frames: seq<Snapshot>) {
    forall i :: 0 < i < |frames| ==> !HidesStableRow(transient, frames[i - 1], frames[i])
  }

  ghost predicate StartNeverDecreases(frames: seq<Snapshot>) {
    forall i :: 0 < i < |frames| ==> frames[i - 1].startY <= frames[i].startY
  }

  /** Patch correctness: replaying everything emitted over a run gives the text of every
      stable row of the latest screen, whatever the rows went through in between. */
  lemma {:induction false} RunAgrees(transient: Transient, frames: seq<Snapshot>)
    requires NeverHides(transient, frames)
    ensures Agrees(transient, ReplayOps(map[], RunOps(transient, frames)), Before(frames))
  {
    if frames == [] {
    } else {
      var past, last := frames[..|frames| - 1], frames[|frames| - 1];
      RunAgrees(transient, past);
      ReplayConcat(map[], RunOps(transient, past), Ops(transient, Before(past), last));
      if past != [] {
        assert past[|past| - 1] == frames[|frames| - 2];
      }
      FrameAgrees(transient, ReplayOps(map[], RunOps(transient, past)), Before(past), last);
    }
  }

  /** In particular when the top of the window never moves up. */
  lemma MonotoneRunAgrees(transient: Transient, frames: seq<Snapshot>)
    requires StartNeverDecreases(frames)
    ensures Agrees(transient, ReplayOps(map[], RunOps(transient, frames)), Before(frames))
  {
    forall i | 0 < i < |frames|
      ensures !HidesStableRow(transient, frames[i - 1], frames[i])
    {
      assert forall y: nat :: StableText(transient, frames[i], y).Some? ==> y >= frames[i].startY;
    }
    RunAgrees(transient, frames);
  }

  /** Rows whose transcript entry may be wrong: exposed above the old window while stable, and
      since then neither set nor replaced. */
  ghost predicate IsSkipped(transient: Transient, frames: seq<Snapshot>, y: nat) {
    frames != []
    && var past, curr := frames[..|frames| - 1], frames[|frames| - 1];
       var op := RowOp(transient, Before(past), curr, y);
       && StableText(transient, curr, y).Some?
       && (y < Before(past).startY || (IsSkipped(transient, past, y) && (op == None || op.value.Append?)))
  }

  /** Without any assumption on the run: every stable row of the latest screen that is not
      skipped has exactly its text in the transcript. */
  lemma {:induction false} UnskippedRowsAreRight(transient: Transient, frames: seq<Snapshot>, y: nat)
    requires StableText(transient, Before(frames), y).Some? && !IsSkipped(transient, frames, y)
    ensures Recorded(ReplayOps(map[], RunOps(transient, frames)), y) == StableText(transient, Before(frames), y)
  {
    if frames == [] {
    } else {
      var past, curr := frames[..|frames| - 1], frames[|frames| - 1];
      var prev := Before(past);
      var m := ReplayOps(map[], RunOps(transient, past));
      ReplayConcat(map[], RunOps(transient, past), Ops(transient, prev, curr));
      FrameReplay(transient, m, prev, curr, y);
      if StableText(transient, prev, y).Some? {
        if !IsSkipped(transient, past, y) {
          UnskippedRowsAreRight(transient, past, y);
          RowOpPatches(transient, prev, curr, y, Recorded(m, y));
        }
      } else {
        RowOpPatches(transient, prev, curr, y, Recorded(m, y));
      }
    }
  }
}
