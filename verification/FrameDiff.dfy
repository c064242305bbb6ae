/** Screens, the row operations between two screens, and the two passes and the sort that
    compute them. */
module FrameDiff {
  import opened Sorting
  import opened Text

  datatype LineData = LineData(text: string, isWrapped: bool)

  /** A captured window of rows; row `startY + i` of the terminal is `lines[i]`. */
  datatype Snapshot = Snapshot(startY: nat, lines: seq<LineData>) {
    function EndY(): nat {
      startY + |lines|
    }

    predicate Has(y: nat) {
      startY <= y < EndY()
    }

    function Row(y: nat): Option<LineData> {
      if Has(y) then Some(lines[y - startY]) else None
    }
  }

  /** Before the first capture there is a window without rows. */
  const NO_ROWS := Snapshot(0, [])

  datatype AddedLine = AddedLine(y: nat, text: string, isWrapped: bool)
  datatype ModifiedLine = ModifiedLine(y: nat, oldText: string, newText: string, isWrapped: bool)

  datatype StableTextOp =
    | Line(y: nat, text: string, isWrapped: bool)
    | Replace(y: nat, text: string, isWrapped: bool)
    | Append(y: nat, text: string)

  /** Whether trimmed text is spinner, separator, status bar or bare prompt: the regular
      expressions of the extractor, taken as a parameter. */
  type Transient = string -> bool

  predicate IsStableLine(transient: Transient, text: string) {
    var trimmed := Trim(text);
    trimmed != "" && !transient(trimmed)
  }

  /** What row `y` of a screen contributes to the transcript: its end-trimmed text if stable. */
  function StableText(transient: Transient, s: Snapshot, y: nat): Option<string> {
    match s.Row(y)
    case Some(line) => if IsStableLine(transient, line.text) then Some(TrimEnd(line.text)) else None
    case None => None
  }

  predicate IsWrappedAt(s: Snapshot, y: nat) {
    s.Row(y).Some? && s.Row(y).value.isWrapped
  }

  // ---------- What the two passes of the extractor collect ----------

  function Push<T>(s: seq<T>, x: Option<T>): seq<T> {
    match x
    case None => s
    case Some(v) => s + [v]
  }

  /** A nonblank row that entered the window, unless above the old window. */
  function AddedAt(prev: Snapshot, curr: Snapshot, y: nat): Option<AddedLine> {
    match (prev.Row(y), curr.Row(y))
    case (None, Some(line)) =>
      if y < prev.startY || Trim(line.text) == "" then None else Some(AddedLine(y, line.text, line.isWrapped))
    case _ => None
  }

  function ModifiedAt(prev: Snapshot, curr: Snapshot, y: nat): Option<ModifiedLine> {
    match (prev.Row(y), curr.Row(y))
    case (Some(was), Some(line)) =>
      if was.text == line.text || Trim(line.text) == "" then None
      else Some(ModifiedLine(y, was.text, line.text, line.isWrapped))
    case _ => None
  }

  /** Added rows below `hi`, in row order. */
  function Added(prev: Snapshot, curr: Snapshot, hi: nat): seq<AddedLine> {
    if hi == 0 then [] else Push(Added(prev, curr, hi - 1), AddedAt(prev, curr, hi - 1))
  }

  /** Modified rows below `hi`, in row order. */
  function Modified(prev: Snapshot, curr: Snapshot, hi: nat): seq<ModifiedLine> {
    if hi == 0 then [] else Push(Modified(prev, curr, hi - 1), ModifiedAt(prev, curr, hi - 1))
  }

  function OpOfAdded(transient: Transient, line: AddedLine): Option<StableTextOp> {
    var text := TrimEnd(line.text);
    if IsStableLine(transient, text) then Some(Line(line.y, text, line.isWrapped)) else None
  }

  function OpOfModified(transient: Transient, line: ModifiedLine): Option<StableTextOp> {
    var newText, oldText := TrimEnd(line.newText), TrimEnd(line.oldText);
    if !IsStableLine(transient, newText) then None
    else if !IsStableLine(transient, oldText) then Some(Replace(line.y, newText, line.isWrapped))
    else if oldText < newText then Some(Append(line.y, newText[|oldText|..]))
    else if newText != oldText then Some(Replace(line.y, newText, line.isWrapped))
    else None
  }

  function OpsOfAdded(transient: Transient, lines: seq<AddedLine>): seq<StableTextOp> {
    if lines == [] then []
    else Push(OpsOfAdded(transient, lines[..|lines| - 1]), OpOfAdded(transient, lines[|lines| - 1]))
  }

  function OpsOfModified(transient: Transient, lines: seq<ModifiedLine>): seq<StableTextOp> {
    if lines == [] then []
    else Push(OpsOfModified(transient, lines[..|lines| - 1]), OpOfModified(transient, lines[|lines| - 1]))
  }

  // ---------- Sorting operations by row ----------

  /** Row first; within a row, line and replace before append. */
  predicate SortsBefore(a: StableTextOp, b: StableTextOp) {
    a.y < b.y || (a.y == b.y && !a.Append? && b.Append?)
  }

  function SortOps(ops: seq<StableTextOp>): seq<StableTextOp> {
    StableSort(ops, SortsBefore)
  }

  // ---------- The operations of a frame, row by row ----------

  /** The operation row `y` needs, judged only by its stable text before and after. */
  function RowOp(transient: Transient, prev: Snapshot, curr: Snapshot, y: nat): Option<StableTextOp> {
    match StableText(transient, curr, y)
    case None => None
    case Some(after) =>
      if !prev.Has(y) then
        if y < prev.startY then None else Some(Line(y, after, IsWrappedAt(curr, y)))
      else
        match StableText(transient, prev, y)
        case None => Some(Replace(y, after, IsWrappedAt(curr, y)))
        case Some(before) =>
          if before == after then None
          else if before < after then Some(Append(y, after[|before|..]))
          else Some(Replace(y, after, IsWrappedAt(curr, y)))
  }

  /** The row operations below `hi` in row order: at most one a row. */
  function FrameOps(transient: Transient, prev: Snapshot, curr: Snapshot, hi: nat): seq<StableTextOp> {
    if hi == 0 then [] else Push(FrameOps(transient, prev, curr, hi - 1), RowOp(transient, prev, curr, hi - 1))
  }

  function Max(a: nat, b: nat): nat {
    if a < b then b else a
  }

  function Min(a: nat, b: nat): nat {
    if a < b then a else b
  }

  function Ops(transient: Transient, prev: Snapshot, curr: Snapshot): seq<StableTextOp> {
    FrameOps(transient, prev, curr, Max(prev.EndY(), curr.EndY()))
  }

  // ---------- The two passes and the sort compute the row operations ----------

  ghost predicate AllBelow(ops: seq<StableTextOp>, hi: nat) {
    ops == [] || (ops[|ops| - 1].y < hi && AllBelow(ops[..|ops| - 1], hi))
  }

  lemma {:induction false} BelowPushed(ops: seq<StableTextOp>, op: StableTextOp, hi: nat)
    requires AllBelow(ops, hi) && op.y < hi
    ensures AllBelow(ops + [op], hi)
  {
    assert (ops + [op])[..|ops|] == ops;
  }

  lemma {:induction false} BelowWeaken(ops: seq<StableTextOp>, lo: nat, hi: nat)
    requires AllBelow(ops, lo) && lo <= hi
    ensures AllBelow(ops, hi)
  {
    if ops == [] {
    } else {
      BelowWeaken(ops[..|ops| - 1], lo, hi);
    }
  }

  lemma {:induction false} BelowAppend(a: seq<StableTextOp>, b: seq<StableTextOp>, hi: nat)
    requires AllBelow(a, hi) && AllBelow(b, hi)
    ensures AllBelow(a + b, hi)
  {
    if b == [] {
      assert a + b == a;
    } else {
      assert (a + b)[..|a + b| - 1] == a + b[..|b| - 1];
      BelowAppend(a, b[..|b| - 1], hi);
    }
  }

  lemma {:induction false} InsertKeepsBelow(ops: seq<StableTextOp>, op: StableTextOp, hi: nat)
    requires AllBelow(ops, hi) && op.y < hi
    ensures AllBelow(Insert(ops, op, SortsBefore), hi)
  {
    if ops != [] && SortsBefore(op, ops[|ops| - 1]) {
      InsertKeepsBelow(ops[..|ops| - 1], op, hi);
      BelowPushed(Insert(ops[..|ops| - 1], op, SortsBefore), ops[|ops| - 1], hi);
    } else {
      BelowPushed(ops, op, hi);
    }
  }

  lemma {:induction false} SortKeepsBelow(ops: seq<StableTextOp>, hi: nat)
    requires AllBelow(ops, hi)
    ensures AllBelow(SortOps(ops), hi)
  {
    if ops == [] {
    } else {
      SortKeepsBelow(ops[..|ops| - 1], hi);
      InsertKeepsBelow(SortOps(ops[..|ops| - 1]), ops[|ops| - 1], hi);
    }
  }

  lemma SortPushed(ops: seq<StableTextOp>, op: StableTextOp)
    ensures SortOps(ops + [op]) == Insert(SortOps(ops), op, SortsBefore)
  {
    assert (ops + [op])[..|ops|] == ops;
  }

  /** An operation on a row below all others ends up last, wherever it was pushed. */
  lemma {:induction false} SortMovesGreatestLast(a: seq<StableTextOp>, x: StableTextOp, b: seq<StableTextOp>)
    requires AllBelow(a, x.y) && AllBelow(b, x.y)
    ensures SortOps(a + [x] + b) == SortOps(a + b) + [x]
  {
    if b == [] {
      assert a + [x] + b == a + [x] && a + b == a;
      SortPushed(a, x);
      SortKeepsBelow(a, x.y);
    } else {
      var b', z := b[..|b| - 1], b[|b| - 1];
      assert a + [x] + b == (a + [x] + b') + [z];
      assert a + b == (a + b') + [z];
      SortPushed(a + [x] + b', z);
      SortPushed(a + b', z);
      SortMovesGreatestLast(a, x, b');
      var s := SortOps(a + b');
      assert (s + [x])[..|s|] == s;
    }
  }

  lemma SortPushedByFirstPass(a: seq<StableTextOp>, x: Option<StableTextOp>, b: seq<StableTextOp>, y: nat)
    requires AllBelow(a, y) && AllBelow(b, y) && (x.Some? ==> x.value.y == y)
    ensures SortOps(Push(a, x) + b) == Push(SortOps(a + b), x)
  {
    if x.Some? {
      SortMovesGreatestLast(a, x.value, b);
    }
  }

  lemma SortPushedBySecondPass(a: seq<StableTextOp>, b: seq<StableTextOp>, x: Option<StableTextOp>, y: nat)
    requires AllBelow(a, y) && AllBelow(b, y) && (x.Some? ==> x.value.y == y)
    ensures SortOps(a + Push(b, x)) == Push(SortOps(a + b), x)
  {
    if x.Some? {
      BelowAppend(a, b, y);
      SortMovesGreatestLast(a + b, x.value, []);
      assert a + Push(b, x) == a + b + [x.value] + [];
      assert a + b + [] == a + b;
    }
  }

  function AddedOpAt(transient: Transient, prev: Snapshot, curr: Snapshot, y: nat): Option<StableTextOp> {
    match AddedAt(prev, curr, y)
    case None => None
    case Some(line) => OpOfAdded(transient, line)
  }

  function ModifiedOpAt(transient: Transient, prev: Snapshot, curr: Snapshot, y: nat): Option<StableTextOp> {
    match ModifiedAt(prev, curr, y)
    case None => None
    case Some(line) => OpOfModified(transient, line)
  }

  lemma StableAfterTrimEnd(transient: Transient, text: string)
    ensures IsStableLine(transient, TrimEnd(text)) == IsStableLine(transient, text)
  {
    TrimAfterTrimEnd(text);
  }

  lemma OpsSitAtTheirRow(transient: Transient, prev: Snapshot, curr: Snapshot, y: nat)
    ensures var a, m := AddedOpAt(transient, prev, curr, y), ModifiedOpAt(transient, prev, curr, y);
            var r := RowOp(transient, prev, curr, y);
            && (a.Some? ==> a.value.y == y)
            && (m.Some? ==> m.value.y == y)
            && (r.Some? ==> r.value.y == y)
  {
  }

  lemma RowOpFromPasses(transient: Transient, prev: Snapshot, curr: Snapshot, y: nat)
    ensures var a, m := AddedOpAt(transient, prev, curr, y), ModifiedOpAt(transient, prev, curr, y);
            && (a == None || m == None)
            && RowOp(transient, prev, curr, y) == if a.Some? then a else m
  {
    match (prev.Row(y), curr.Row(y))
    case (_, None) =>
    case (None, Some(line)) =>
      StableAfterTrimEnd(transient, line.text);
    case (Some(was), Some(line)) =>
      StableAfterTrimEnd(transient, line.text);
      StableAfterTrimEnd(transient, was.text);
  }

  lemma OpsOfAddedPushed(transient: Transient, prev: Snapshot, curr: Snapshot, hi: nat)
    requires hi > 0
    ensures OpsOfAdded(transient, Added(prev, curr, hi))
         == Push(OpsOfAdded(transient, Added(prev, curr, hi - 1)), AddedOpAt(transient, prev, curr, hi - 1))
  {
    var a := Added(prev, curr, hi - 1);
    if AddedAt(prev, curr, hi - 1).Some? {
      assert (a + [AddedAt(prev, curr, hi - 1).value])[..|a|] == a;
    }
  }

  lemma OpsOfModifiedPushed(transient: Transient, prev: Snapshot, curr: Snapshot, hi: nat)
    requires hi > 0
    ensures OpsOfModified(transient, Modified(prev, curr, hi))
         == Push(OpsOfModified(transient, Modified(prev, curr, hi - 1)), ModifiedOpAt(transient, prev, curr, hi - 1))
  {
    var m := Modified(prev, curr, hi - 1);
    if ModifiedAt(prev, curr, hi - 1).Some? {
      assert (m + [ModifiedAt(prev, curr, hi - 1).value])[..|m|] == m;
    }
  }

  // ---------- Which rows are added and modified ----------

  /** The row came into view, not above the old window, and is not blank. */
  predicate Entered(prev: Snapshot, curr: Snapshot, line: AddedLine) {
    && curr.Has(line.y) && prev.EndY() <= line.y
    && curr.lines[line.y - curr.startY] == LineData(line.text, line.isWrapped)
    && Trim(line.text) != ""
  }

  /** The row was in view, shows another text now, and is not blank. */
  predicate Changed(prev: Snapshot, curr: Snapshot, line: ModifiedLine) {
    && curr.Has(line.y) && prev.Has(line.y)
    && curr.lines[line.y - curr.startY] == LineData(line.newText, line.isWrapped)
    && prev.lines[line.y - prev.startY].text == line.oldText != line.newText
    && Trim(line.newText) != ""
  }

  /** Exactly the rows that came into view are added, from top to bottom. */
  lemma {:induction false} AddedAreEntered(prev: Snapshot, curr: Snapshot, hi: nat)
    ensures forall line :: line in Added(prev, curr, hi) <==> line.y < hi && Entered(prev, curr, line)
    ensures forall i, j :: 0 <= i < j < |Added(prev, curr, hi)| ==>
              Added(prev, curr, hi)[i].y < Added(prev, curr, hi)[j].y
  {
    if hi == 0 {
    } else {
      AddedAreEntered(prev, curr, hi - 1);
      AddedAtIsEntered(prev, curr, hi - 1);
      hide Entered, AddedAt;
      var front := Added(prev, curr, hi - 1);
      assert forall i :: 0 <= i < |front| ==> front[i] in front;
    }
  }

  lemma AddedAtIsEntered(prev: Snapshot, curr: Snapshot, y: nat)
    ensures forall line :: AddedAt(prev, curr, y) == Some(line) <==> line.y == y && Entered(prev, curr, line)
  {
    hide Trim;
  }

  /** Exactly the rows whose text changed are modified, from top to bottom. */
  lemma {:induction false} ModifiedAreChanged(prev: Snapshot, curr: Snapshot, hi: nat)
    ensures forall line :: line in Modified(prev, curr, hi) <==> line.y < hi && Changed(prev, curr, line)
    ensures forall i, j :: 0 <= i < j < |Modified(prev, curr, hi)| ==>
              Modified(prev, curr, hi)[i].y < Modified(prev, curr, hi)[j].y
  {
    if hi == 0 {
    } else {
      ModifiedAreChanged(prev, curr, hi - 1);
      ModifiedAtIsChanged(prev, curr, hi - 1);
      hide Changed, ModifiedAt;
      var front := Modified(prev, curr, hi - 1);
      assert forall i :: 0 <= i < |front| ==> front[i] in front;
    }
  }

  lemma ModifiedAtIsChanged(prev: Snapshot, curr: Snapshot, y: nat)
    ensures forall line :: ModifiedAt(prev, curr, y) == Some(line) <==> line.y == y && Changed(prev, curr, line)
  {
    hide Trim;
  }

  /** A row gets an operation exactly if it is stable and its stable text is new; an append
      exactly if the old text goes on, and else the row's own wrap flag. */
  lemma RowOpWhenTextIsNew(transient: Transient, prev: Snapshot, curr: Snapshot, y: nat)
    requires y >= prev.startY
    ensures var was, now := StableText(transient, prev, y), StableText(transient, curr, y);
            var op := RowOp(transient, prev, curr, y);
            && (op.Some? <==> now.Some? && now != was)
            && (op.Some? ==>
                  && (op.value.Append? <==> was.Some? && was.value <= now.value)
                  && (op.value.Line? <==> !prev.Has(y))
                  && (!op.value.Append? ==> op.value.text == now.value && op.value.isWrapped == IsWrappedAt(curr, y)))
  {
    hide IsStableLine, TrimEnd;
  }

  // ---------- Collecting at most one operation per row ----------

  type RowFunction = nat -> Option<StableTextOp>

  /** The operations `f` gives for the rows below `hi`, in row order. */
  function Collect(f: RowFunction, hi: nat): seq<StableTextOp> {
    if hi == 0 then [] else Push(Collect(f, hi - 1), f(hi - 1))
  }

  ghost predicate AtTheirRow(f: RowFunction) {
    forall y :: f(y).Some? ==> f(y).value.y == y
  }

  lemma {:induction false} CollectBelow(f: RowFunction, hi: nat)
    requires AtTheirRow(f)
    ensures AllBelow(Collect(f, hi), hi)
  {
    if hi == 0 {
    } else {
      var ops := Collect(f, hi - 1);
      CollectBelow(f, hi - 1);
      BelowWeaken(ops, hi - 1, hi);
      if f(hi - 1).Some? {
        BelowPushed(ops, f(hi - 1).value, hi);
      }
    }
  }

  /** Two passes that never both fire on one row, sorted, are one pass in row order. */
  lemma {:induction false} SortMergesPasses(f: RowFunction, g: RowFunction, h: RowFunction, hi: nat)
    requires AtTheirRow(f) && AtTheirRow(g)
    requires forall y :: (f(y) == None || g(y) == None) && h(y) == if f(y).Some? then f(y) else g(y)
    ensures SortOps(Collect(f, hi) + Collect(g, hi)) == Collect(h, hi)
  {
    if hi == 0 {
    } else {
      var a, b := Collect(f, hi - 1), Collect(g, hi - 1);
      SortMergesPasses(f, g, h, hi - 1);
      CollectBelow(f, hi - 1);
      CollectBelow(g, hi - 1);
      if f(hi - 1).Some? {
        SortPushedByFirstPass(a, f(hi - 1), b, hi - 1);
      } else {
        SortPushedBySecondPass(a, b, g(hi - 1), hi - 1);
      }
    }
  }

  lemma {:induction false} AddedPassCollects(transient: Transient, prev: Snapshot, curr: Snapshot,
                                             f: RowFunction, hi: nat)
    requires forall y :: f(y) == AddedOpAt(transient, prev, curr, y)
    ensures OpsOfAdded(transient, Added(prev, curr, hi)) == Collect(f, hi)
  {
    hide AddedOpAt;
    if hi == 0 {
    } else {
      AddedPassCollects(transient, prev, curr, f, hi - 1);
      OpsOfAddedPushed(transient, prev, curr, hi);
    }
  }

  lemma {:induction false} ModifiedPassCollects(transient: Transient, prev: Snapshot, curr: Snapshot,
                                                f: RowFunction, hi: nat)
    requires forall y :: f(y) == ModifiedOpAt(transient, prev, curr, y)
    ensures OpsOfModified(transient, Modified(prev, curr, hi)) == Collect(f, hi)
  {
    hide ModifiedOpAt;
    if hi == 0 {
    } else {
      ModifiedPassCollects(transient, prev, curr, f, hi - 1);
      OpsOfModifiedPushed(transient, prev, curr, hi);
    }
  }

  lemma {:induction false} FrameOpsCollect(transient: Transient, prev: Snapshot, curr: Snapshot,
                                           f: RowFunction, hi: nat)
    requires forall y :: f(y) == RowOp(transient, prev, curr, y)
    ensures FrameOps(transient, prev, curr, hi) == Collect(f, hi)
  {
    hide RowOp;
    if hi == 0 {
    } else {
      FrameOpsCollect(transient, prev, curr, f, hi - 1);
    }
  }

  /** Collecting added rows, then modified rows, then sorting, gives exactly the row
      operations in row order. */
  lemma SortedPassesAreRowOps(transient: Transient, prev: Snapshot, curr: Snapshot, hi: nat)
    ensures SortOps(OpsOfAdded(transient, Added(prev, curr, hi)) + OpsOfModified(transient, Modified(prev, curr, hi)))
         == FrameOps(transient, prev, curr, hi)
  {
    var f: RowFunction := (y: nat) => AddedOpAt(transient, prev, curr, y);
    var g: RowFunction := (y: nat) => ModifiedOpAt(transient, prev, curr, y);
    var h: RowFunction := (y: nat) => RowOp(transient, prev, curr, y);
    AddedPassCollects(transient, prev, curr, f, hi);
    ModifiedPassCollects(transient, prev, curr, g, hi);
    FrameOpsCollect(transient, prev, curr, h, hi);
    PassesMerge(transient, prev, curr, f, g, h, hi);
  }

  lemma PassesMerge(transient: Transient, prev: Snapshot, curr: Snapshot,
                    f: RowFunction, g: RowFunction, h: RowFunction, hi: nat)
    requires forall y :: f(y) == AddedOpAt(transient, prev, curr, y)
    requires forall y :: g(y) == ModifiedOpAt(transient, prev, curr, y)
    requires forall y :: h(y) == RowOp(transient, prev, curr, y)
    ensures SortOps(Collect(f, hi) + Collect(g, hi)) == Collect(h, hi)
  {
    forall y: nat
      ensures (f(y) == None || g(y) == None) && h(y) == if f(y).Some? then f(y) else g(y)
      ensures (f(y).Some? ==> f(y).value.y == y) && (g(y).Some? ==> g(y).value.y == y)
    {
      RowOpFromPasses(transient, prev, curr, y);
      OpsSitAtTheirRow(transient, prev, curr, y);
    }
    SortMergesPasses(f, g, h, hi);
  }

  /** A frame has at most one operation per row, in strictly increasing row order. */
  lemma FrameOpsIncrease(transient: Transient, prev: Snapshot, curr: Snapshot, hi: nat)
    ensures var ops := FrameOps(transient, prev, curr, hi);
            forall i, j :: 0 <= i < j < |ops| ==> ops[i].y < ops[j].y
  {
    var h: RowFunction := (y: nat) => RowOp(transient, prev, curr, y);
    forall y: nat {
      OpsSitAtTheirRow(transient, prev, curr, y);
    }
    FrameOpsCollect(transient, prev, curr, h, hi);
    CollectIncreases(h, hi);
  }

  lemma {:induction false} CollectIncreases(f: RowFunction, hi: nat)
    requires AtTheirRow(f)
    ensures forall i :: 0 <= i < |Collect(f, hi)| ==> Collect(f, hi)[i].y < hi
    ensures forall i, j :: 0 <= i < j < |Collect(f, hi)| ==> Collect(f, hi)[i].y < Collect(f, hi)[j].y
  {
    if hi == 0 {
    } else {
      CollectIncreases(f, hi - 1);
    }
  }
}
