/** Assembling a text from row operations, and when the streamed text is the final screen. */
module Assembling {
  import opened Text
  import opened FrameDiff
  import opened Replay

  /** What applying `op` adds to the end of `buffer`. */
  function Chunk(buffer: string, op: StableTextOp): string {
    if op.text == "" || op.Append? then op.text
    else if buffer != "" && buffer[|buffer| - 1] != '\n' && !op.isWrapped then "\n" + op.text
    else op.text
  }

  function Assemble(buffer: string, ops: seq<StableTextOp>): string {
    if ops == [] then buffer
    else
      var before := Assemble(buffer, ops[..|ops| - 1]);
      before + Chunk(before, ops[|ops| - 1])
  }

  /** A row as the stream shows it: its text, and whether it continues the row above it. */
  datatype ShownRow = ShownRow(text: string, isWrapped: bool)

  /** Rows joined by newlines, except that a wrapped row follows the row above it directly. */
  function JoinRows(rows: seq<ShownRow>): string {
    if rows == [] then ""
    else if |rows| == 1 then rows[0].text
    else
      var last := rows[|rows| - 1];
      JoinRows(rows[..|rows| - 1]) + (if last.isWrapped then "" else "\n") + last.text
  }

  type RowsShown = nat -> Option<ShownRow>

  /** The rows shown below `hi`, in row order. */
  function Rows(f: RowsShown, hi: nat): seq<ShownRow> {
    if hi == 0 then [] else Push(Rows(f, hi - 1), f(hi - 1))
  }

  /** Whether row `y` was a wrapped continuation when it last became stable. */
  function EnteredWrapped(transient: Transient, frames: seq<Snapshot>, y: nat): bool {
    frames != []
    && var past, curr := frames[..|frames| - 1], frames[|frames| - 1];
       if StableText(transient, Before(past), y).Some? then EnteredWrapped(transient, past, y) else IsWrappedAt(curr, y)
  }

  /** What a run shows of row `y`: its stable text on the latest screen. */
  function ShownAt(transient: Transient, frames: seq<Snapshot>, y: nat): Option<ShownRow> {
    match StableText(transient, Before(frames), y)
    case None => None
    case Some(text) => Some(ShownRow(text, EnteredWrapped(transient, frames, y)))
  }

  /** The stable rows of the latest screen from top to bottom. */
  function StableRows(transient: Transient, frames: seq<Snapshot>): seq<ShownRow> {
    Rows((y: nat) => ShownAt(transient, frames, y), Before(frames).EndY())
  }

  /** From `prev` to `curr` only the lowest stable row grows, and new stable rows appear below it. */
  ghost predicate ExtendsBottom(transient: Transient, prev: Snapshot, curr: Snapshot) {
    && !HidesStableRow(transient, prev, curr)
    && (forall y: nat :: StableText(transient, prev, y).Some? ==>
          && StableText(transient, curr, y).Some?
          && StableText(transient, prev, y).value <= StableText(transient, curr, y).value)
    && (forall y: nat, z: nat ::
          y < z && StableText(transient, prev, y).Some? && StableText(transient, prev, z).Some? ==>
          StableText(transient, curr, y) == StableText(transient, prev, y))
    && (forall y: nat, z: nat ::
          y < z && StableText(transient, curr, y).Some? && StableText(transient, prev, z).Some? ==>
          StableText(transient, prev, y).Some?)
  }

  ghost predicate StreamsDown(transient: Transient, frames: seq<Snapshot>) {
    forall i :: 0 <= i < |frames| ==> ExtendsBottom(transient, Before(frames[..i]), frames[i])
  }

  // ---------- One frame, seen as row functions ----------

  predicate EndsInText(s: string) {
    s != "" && !IsWhitespace(s[|s| - 1])
  }

  /** The operation is the one that leads from the row shown before to the row shown after. */
  predicate Leads(p: Option<ShownRow>, c: Option<ShownRow>, op: Option<StableTextOp>) {
    match c
    case None => op == None
    case Some(after) =>
      match p
      case None => op.Some? && !op.value.Append? && op.value.text == after.text && op.value.isWrapped == after.isWrapped
      case Some(before) =>
        && before.isWrapped == after.isWrapped
        && if before.text == after.text then op == None
           else before.text < after.text && op.Some? && op.value.Append? && op.value.text == after.text[|before.text|..]
  }

  ghost predicate RowsExtend(p: RowsShown, c: RowsShown, f: RowFunction) {
    && (forall y :: Leads(p(y), c(y), f(y)))
    && (forall y :: p(y).Some? ==> c(y).Some?)
    && (forall y, z :: y < z && p(y).Some? && p(z).Some? ==> c(y) == p(y))
    && (forall y, z :: y < z && c(y).Some? && p(z).Some? ==> p(y).Some?)
    && (forall y :: c(y).Some? ==> EndsInText(c(y).value.text))
    && (forall y :: p(y).Some? ==> EndsInText(p(y).value.text))
  }

  ghost predicate NoneFrom(p: RowsShown, lo: nat) {
    forall z :: z >= lo ==> p(z) == None
  }

  lemma {:induction false} RowsPastEnd(p: RowsShown, lo: nat, hi: nat)
    requires lo <= hi && NoneFrom(p, lo)
    ensures Rows(p, hi) == Rows(p, lo)
  {
    if lo == hi {
    } else {
      RowsPastEnd(p, lo, hi - 1);
    }
  }

  lemma {:induction false} LowestRow(p: RowsShown, end: nat) returns (low: Option<nat>)
    requires NoneFrom(p, end)
    ensures low == None ==> NoneFrom(p, 0)
    ensures low.Some? ==> low.value < end && p(low.value).Some? && NoneFrom(p, low.value + 1)
  {
    if end == 0 {
      low := None;
    } else if p(end - 1).Some? {
      low := Some(end - 1);
    } else {
      low := LowestRow(p, end - 1);
    }
  }

  lemma {:induction false} SameRows(p: RowsShown, c: RowsShown, hi: nat)
    requires forall y: nat :: y < hi ==> p(y) == c(y)
    ensures Rows(p, hi) == Rows(c, hi)
  {
    if hi == 0 {
    } else {
      SameRows(p, c, hi - 1);
    }
  }

  lemma {:induction false} JoinedEndsInText(f: RowsShown, hi: nat)
    requires forall y :: f(y).Some? ==> EndsInText(f(y).value.text)
    ensures Rows(f, hi) == [] || EndsInText(JoinRows(Rows(f, hi)))
  {
    if hi == 0 {
    } else {
      JoinedEndsInText(f, hi - 1);
    }
  }

  lemma RowPushed(rows: seq<ShownRow>, row: ShownRow)
    ensures JoinRows(rows + [row])
         == if rows == [] then row.text else JoinRows(rows) + (if row.isWrapped then "" else "\n") + row.text
  {
    assert (rows + [row])[..|rows|] == rows;
  }

  /** Growing the last row of a joined text appends to it. */
  lemma JoinGrows(rows: seq<ShownRow>, before: string, after: string, isWrapped: bool)
    requires before <= after
    ensures JoinRows(rows + [ShownRow(after, isWrapped)])
         == JoinRows(rows + [ShownRow(before, isWrapped)]) + after[|before|..]
  {
    hide JoinRows;
    assert before + after[|before|..] == after;
    RowPushed(rows, ShownRow(before, isWrapped));
    RowPushed(rows, ShownRow(after, isWrapped));
  }

  lemma AssemblePushed(buffer: string, ops: seq<StableTextOp>, op: StableTextOp)
    ensures Assemble(buffer, ops + [op]) == Assemble(buffer, ops) + Chunk(Assemble(buffer, ops), op)
  {
    assert (ops + [op])[..|ops|] == ops;
  }

  /** Above a row shown before, old and new rows are the same. */
  lemma SameRowsAbove(p: RowsShown, c: RowsShown, f: RowFunction, y: nat)
    requires RowsExtend(p, c, f) && p(y).Some?
    ensures Rows(p, y) == Rows(c, y)
  {
    forall x: nat | x < y
      ensures p(x) == c(x)
    {
    }
    SameRows(p, c, y);
  }

  /** Above the lowest old row a frame emits nothing. */
  lemma {:induction false} NothingAboveOldRow(p: RowsShown, c: RowsShown, f: RowFunction, low: nat, hi: nat)
    requires RowsExtend(p, c, f) && p(low).Some? && hi <= low
    ensures Collect(f, hi) == []
  {
    if hi == 0 {
    } else {
      NothingAboveOldRow(p, c, f, low, hi - 1);
      assert Leads(p(hi - 1), c(hi - 1), f(hi - 1));
    }
  }

  lemma LowestRowGrows(p: RowsShown, c: RowsShown, f: RowFunction, low: nat)
    requires RowsExtend(p, c, f) && p(low).Some?
    ensures Assemble(JoinRows(Rows(p, low + 1)), Collect(f, low + 1)) == JoinRows(Rows(c, low + 1))
  {
    SameRowsAbove(p, c, f, low);
    JoinGrows(Rows(c, low), p(low).value.text, c(low).value.text, c(low).value.isWrapped);
    NothingAboveOldRow(p, c, f, low, low);
    assert Leads(p(low), c(low), f(low));
    if f(low).Some? {
      AssemblePushed(JoinRows(Rows(p, low + 1)), [], f(low).value);
      assert [] + [f(low).value] == [f(low).value];
    }
  }

  lemma NewRowStartsLine(c: RowsShown, f: RowFunction, start: string, y: nat)
    requires Leads(None, c(y), f(y))
    requires forall x :: c(x).Some? ==> EndsInText(c(x).value.text)
    requires Assemble(start, Collect(f, y)) == JoinRows(Rows(c, y))
    ensures Assemble(start, Collect(f, y + 1)) == JoinRows(Rows(c, y + 1))
  {
    hide Assemble, JoinRows;
    if c(y).Some? {
      JoinedEndsInText(c, y);
      AssemblePushed(start, Collect(f, y), f(y).value);
      RowPushed(Rows(c, y), c(y).value);
      BufferOfRows(Rows(c, y));
    }
  }

  lemma BufferOfRows(rows: seq<ShownRow>)
    ensures rows == [] ==> JoinRows(rows) == ""
  {
  }

  /** From a row on below which there is no old text, every operation starts a line. */
  lemma {:induction false} NewRowsStartLines(c: RowsShown, f: RowFunction, start: string, lo: nat, hi: nat)
    requires forall y :: y >= lo ==> Leads(None, c(y), f(y))
    requires forall x :: c(x).Some? ==> EndsInText(c(x).value.text)
    requires Assemble(start, Collect(f, lo)) == JoinRows(Rows(c, lo)) && lo <= hi
    ensures Assemble(start, Collect(f, hi)) == JoinRows(Rows(c, hi))
  {
    hide Assemble, Collect, Rows, JoinRows;
    if lo == hi {
    } else {
      NewRowsStartLines(c, f, start, lo, hi - 1);
      NewRowStartsLine(c, f, start, hi - 1);
    }
  }

  lemma RowsBelowZero(p: RowsShown, c: RowsShown, f: RowFunction)
    ensures Assemble(JoinRows(Rows(p, 0)), Collect(f, 0)) == JoinRows(Rows(c, 0))
  {
  }

  lemma AssembleRows(p: RowsShown, c: RowsShown, f: RowFunction, end: nat, hi: nat)
    requires RowsExtend(p, c, f) && NoneFrom(p, end) && end <= hi
    ensures Assemble(JoinRows(Rows(p, end)), Collect(f, hi)) == JoinRows(Rows(c, hi))
  {
    RowsBelowZero(p, c, f);
    hide Assemble, Collect, Rows, JoinRows;
    var low := LowestRow(p, end);
    var lo := if low.Some? then low.value + 1 else 0;
    RowsPastEnd(p, lo, end);
    forall y | y >= lo
      ensures Leads(None, c(y), f(y))
    {
      assert Leads(p(y), c(y), f(y));
    }
    if low.Some? {
      LowestRowGrows(p, c, f, low.value);
    }
    NewRowsStartLines(c, f, JoinRows(Rows(p, end)), lo, hi);
  }

  // ---------- Streaming equals batch ----------

  lemma StableTextEndsInText(transient: Transient, s: Snapshot, y: nat)
    requires StableText(transient, s, y).Some?
    ensures EndsInText(StableText(transient, s, y).value)
  {
    var text := s.Row(y).value.text;
    StableAfterTrimEnd(transient, text);
    var right := TrimEndSplit(text);
    if TrimEnd(text) == "" {
      TrimBlank(TrimEnd(text));
      assert false;
    }
  }

  lemma FrameStreams(transient: Transient, past: seq<Snapshot>, curr: Snapshot)
    requires ExtendsBottom(transient, Before(past), curr)
    ensures Assemble(JoinRows(StableRows(transient, past)), Ops(transient, Before(past), curr))
         == JoinRows(StableRows(transient, past + [curr]))
  {
    var prev, frames := Before(past), past + [curr];
    var p: RowsShown := (y: nat) => ShownAt(transient, past, y);
    var c: RowsShown := (y: nat) => ShownAt(transient, frames, y);
    var f: RowFunction := (y: nat) => RowOp(transient, prev, curr, y);
    FrameRowsExtend(transient, past, curr, p, c, f);
    NothingShownBelow(transient, past, p);
    NothingShownBelow(transient, frames, c);
    hide Assemble, JoinRows, RowOp, ShownAt, RowsExtend;
    var hi := Max(prev.EndY(), curr.EndY());
    FrameOpsCollect(transient, prev, curr, f, hi);
    AssembleRows(p, c, f, prev.EndY(), hi);
    RowsPastEnd(c, curr.EndY(), hi);
  }

  /** The rows of the latest screen, by any name for the function that shows them. */
  lemma NothingShownBelow(transient: Transient, frames: seq<Snapshot>, p: RowsShown)
    requires forall y :: p(y) == ShownAt(transient, frames, y)
    ensures NoneFrom(p, Before(frames).EndY())
    ensures StableRows(transient, frames) == Rows(p, Before(frames).EndY())
  {
    SameRows(p, (y: nat) => ShownAt(transient, frames, y), Before(frames).EndY());
  }

  lemma FrameRowsExtend(transient: Transient, past: seq<Snapshot>, curr: Snapshot,
                        p: RowsShown, c: RowsShown, f: RowFunction)
    requires ExtendsBottom(transient, Before(past), curr)
    requires forall y :: p(y) == ShownAt(transient, past, y)
    requires forall y :: c(y) == ShownAt(transient, past + [curr], y)
    requires forall y :: f(y) == RowOp(transient, Before(past), curr, y)
    ensures RowsExtend(p, c, f)
  {
    var frames := past + [curr];
    assert frames[..|past|] == past;
    forall y: nat
      ensures Leads(p(y), c(y), f(y))
    {
      assert c(y).Some? ==> c(y).value.isWrapped == EnteredWrapped(transient, frames, y);
    }
    forall y: nat
      ensures c(y).Some? ==> EndsInText(c(y).value.text)
      ensures p(y).Some? ==> EndsInText(p(y).value.text)
    {
      if c(y).Some? { StableTextEndsInText(transient, curr, y); }
      if p(y).Some? { StableTextEndsInText(transient, Before(past), y); }
    }
  }

  lemma {:induction false} AssembleConcat(buffer: string, a: seq<StableTextOp>, b: seq<StableTextOp>)
    ensures Assemble(buffer, a + b) == Assemble(Assemble(buffer, a), b)
  {
    if b == [] {
      assert a + b == a;
    } else {
      assert (a + b)[..|a + b| - 1] == a + b[..|b| - 1];
      AssembleConcat(buffer, a, b[..|b| - 1]);
    }
  }

  /** Streaming equals batch: on a run that only grows at the bottom, the text assembled from
      every frame's operations is the latest screen's stable rows, joined by newlines except
      before rows that entered as wrapped continuations. */
  lemma {:induction false} StreamingEqualsBatch(transient: Transient, frames: seq<Snapshot>)
    requires StreamsDown(transient, frames)
    ensures Assemble("", RunOps(transient, frames)) == JoinRows(StableRows(transient, frames))
  {
    if frames == [] {
    } else {
      var past, last := frames[..|frames| - 1], frames[|frames| - 1];
      assert ExtendsBottom(transient, Before(past), last);
      assert StreamsDown(transient, past) by {
        forall i | 0 <= i < |past|
          ensures ExtendsBottom(transient, Before(past[..i]), past[i])
        {
          assert past[..i] == frames[..i];
        }
      }
      StreamingEqualsBatch(transient, past);
      AssembleConcat("", RunOps(transient, past), Ops(transient, Before(past), last));
      FrameStreams(transient, past, last);
      assert frames == past + [last];
    }
  }

  // ---------- Wrapped rows ----------

  /** No row changes between wrapped and not wrapped while it is stable. */
  ghost predicate KeepsWraps(transient: Transient, frames: seq<Snapshot>) {
    forall i :: 0 < i < |frames| ==> SameWraps(transient, frames[i - 1], frames[i])
  }

  ghost predicate SameWraps(transient: Transient, prev: Snapshot, curr: Snapshot) {
    forall y: nat :: StableText(transient, prev, y).Some? ==> IsWrappedAt(curr, y) == IsWrappedAt(prev, y)
  }

  /** Then the rows are joined by the wrap flags of the latest screen. */
  lemma {:induction false} WrapsAreCurrent(transient: Transient, frames: seq<Snapshot>, y: nat)
    requires KeepsWraps(transient, frames) && frames != []
    ensures EnteredWrapped(transient, frames, y) == IsWrappedAt(Before(frames), y)
  {
    var past := frames[..|frames| - 1];
    if past == [] {
    } else if StableText(transient, Before(past), y).Some? {
      assert SameWraps(transient, frames[|frames| - 2], frames[|frames| - 1]);
      assert Before(past) == frames[|frames| - 2];
      assert KeepsWraps(transient, past) by {
        assert forall i :: 0 <= i < |past| ==> past[i] == frames[i];
      }
      WrapsAreCurrent(transient, past, y);
    }
  }

  function TextsOf(rows: seq<ShownRow>): seq<string> {
    if rows == [] then [] else TextsOf(rows[..|rows| - 1]) + [rows[|rows| - 1].text]
  }

  /** Without wrapped rows the text is the rows joined by newlines. */
  lemma {:induction false} UnwrappedRowsAreLines(rows: seq<ShownRow>)
    requires forall row <- rows :: !row.isWrapped
    ensures JoinRows(rows) == Join(TextsOf(rows), "\n")
  {
    if rows == [] {
    } else {
      var front, last := rows[..|rows| - 1], rows[|rows| - 1];
      UnwrappedRowsAreLines(front);
      assert last in rows && rows == front + [last];
      RowPushed(front, last);
      JoinPushed(TextsOf(front), "\n", last.text);
      assert front != [] ==> TextsOf(front) != [];
    }
  }
}
