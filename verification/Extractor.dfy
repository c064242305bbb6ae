/** The incremental extractor and the text assembler as stateful objects. */
module Extractor {
  import opened Text
  import opened FrameDiff
  import opened Replay
  import opened Assembling
  import opened Selection

  /** A terminal cell: its character, and whether it pads a wide character or marks a wrapped row. */
  datatype Cell = Cell(c: char, wideSpacer: bool, wrapline: bool)

  type Grid = seq<seq<Cell>>

  function RowText(row: seq<Cell>): string {
    if row == [] then ""
    else RowText(row[..|row| - 1]) + (if row[|row| - 1].wideSpacer then "" else [row[|row| - 1].c])
  }

  /** The text is the characters of exactly the cells that are no spacers, in column order. */
  ghost predicate ReadsCells(row: seq<Cell>, text: string) {
    exists cells: seq<Cell>, pos: seq<nat> :: Selects(row, cells, pos) && SkipsSpacers(row, pos) && Spells(cells, text)
  }

  ghost predicate SkipsSpacers(row: seq<Cell>, pos: seq<nat>) {
    forall i :: 0 <= i < |row| ==> (i in pos <==> !row[i].wideSpacer)
  }

  ghost predicate Spells(cells: seq<Cell>, text: string) {
    |text| == |cells| && forall k :: 0 <= k < |text| ==> text[k] == cells[k].c
  }

  lemma RowTextPushed(row: seq<Cell>, cell: Cell)
    ensures RowText(row + [cell]) == RowText(row) + (if cell.wideSpacer then "" else [cell.c])
  {
    assert (row + [cell])[..|row|] == row;
  }

  lemma {:induction false} RowTextReadsCells(row: seq<Cell>)
    ensures ReadsCells(row, RowText(row))
  {
    hide ReadsCells;
    if row == [] {
      NoCellsRead();
    } else {
      var front, last := row[..|row| - 1], row[|row| - 1];
      RowTextReadsCells(front);
      assert row == front + [last];
      RowTextPushed(front, last);
      hide RowText;
      ReadsPushed(front, RowText(front), last);
    }
  }

  lemma NoCellsRead()
    ensures ReadsCells([], "")
  {
    assert Selects<Cell>([], [], []) && SkipsSpacers([], []) && Spells([], "");
  }

  lemma ReadsPushed(row: seq<Cell>, text: string, cell: Cell)
    requires ReadsCells(row, text)
    ensures ReadsCells(row + [cell], text + (if cell.wideSpacer then "" else [cell.c]))
  {
    var cells: seq<Cell>, pos: seq<nat> :| Selects(row, cells, pos) && SkipsSpacers(row, pos) && Spells(cells, text);
    hide Selects, SkipsSpacers, Spells;
    var more := SelectsPushed(row, cells, pos, cell, !cell.wideSpacer);
    SkipsPushed(row, pos, cell, more);
    SpellsPushed(cells, text, cell);
    assert cell.wideSpacer ==> text + "" == text;
  }

  lemma SpellsPushed(cells: seq<Cell>, text: string, cell: Cell)
    requires Spells(cells, text)
    ensures Spells(cells + [cell], text + [cell.c])
  {
  }

  lemma SkipsPushed(row: seq<Cell>, pos: seq<nat>, cell: Cell, more: seq<nat>)
    requires SkipsSpacers(row, pos) && forall i: nat :: i in pos ==> i < |row|
    requires forall i: nat :: i in more <==> i in pos || (!cell.wideSpacer && i == |row|)
    ensures SkipsSpacers(row + [cell], more)
  {
  }

  lemma {:induction false} RowTextConcat(a: seq<Cell>, b: seq<Cell>)
    ensures RowText(a + b) == RowText(a) + RowText(b)
  {
    if b == [] {
      assert a + b == a;
    } else {
      var front, last := b[..|b| - 1], b[|b| - 1];
      assert a + b == (a + front) + [last] && b == front + [last];
      RowTextPushed(a + front, last);
      RowTextPushed(front, last);
      hide RowText;
      RowTextConcat(a, front);
    }
  }

  /** A spacer leaves no trace; without spacers every cell gives its character. */
  lemma SpacersVanish(row: seq<Cell>, i: nat)
    requires i < |row| && row[i].wideSpacer
    ensures RowText(row) == RowText(row[..i] + row[i + 1..])
  {
    hide RowText;
    var head, tail := row[..i], row[i + 1..];
    assert row == (head + [row[i]]) + tail;
    RowTextPushed(head, row[i]);
    RowTextConcat(head + [row[i]], tail);
    RowTextConcat(head, tail);
  }

  lemma {:induction false} PlainRowText(row: seq<Cell>)
    requires forall i :: 0 <= i < |row| ==> !row[i].wideSpacer
    ensures Spells(row, RowText(row))
  {
    if row == [] {
    } else {
      PlainRowText(row[..|row| - 1]);
    }
  }

  function CapturedRow(row: seq<Cell>): LineData {
    LineData(TrimEnd(RowText(row)), row != [] && row[0].wrapline)
  }

  function TopOfWindow(grid: Grid, windowLines: nat): nat {
    if |grid| > windowLines then |grid| - windowLines else 0
  }

  /** The bottom `windowLines` rows of the grid. */
  function Captured(grid: Grid, windowLines: nat): Snapshot {
    var top := TopOfWindow(grid, windowLines);
    Snapshot(top, seq(|grid| - top, i requires 0 <= i < |grid| - top => CapturedRow(grid[top + i])))
  }

  /** The snapshot has one line for each of the bottom rows: the end-trimmed text of the cells
      that are no spacers, wrapped if the row's first cell says so. */
  ghost predicate ShowsGrid(s: Snapshot, grid: Grid, windowLines: nat) {
    && s.EndY() == |grid| && |s.lines| == Min(|grid|, windowLines)
    && forall y :: s.startY <= y < |grid| ==> ShowsRow(s.lines[y - s.startY], grid[y])
  }

  ghost predicate ShowsRow(line: LineData, row: seq<Cell>) {
    && (exists text :: ReadsCells(row, text) && line.text == TrimEnd(text))
    && line.isWrapped == (row != [] && row[0].wrapline)
  }

  lemma CapturedShowsGrid(grid: Grid, windowLines: nat)
    ensures ShowsGrid(Captured(grid, windowLines), grid, windowLines)
  {
    hide ReadsCells, RowText, TrimEnd, ShowsRow;
    forall y | 0 <= y < |grid|
      ensures ShowsRow(CapturedRow(grid[y]), grid[y])
    {
      CapturedRowShows(grid[y]);
    }
  }

  lemma CapturedRowShows(row: seq<Cell>)
    ensures ShowsRow(CapturedRow(row), row)
  {
    RowTextReadsCells(row);
  }

  /** While the grid keeps its height, or only grows, no stable row is ever hidden. */
  lemma GrowingGridNeverHides(transient: Transient, before: Grid, after: Grid, windowLines: nat)
    requires |before| <= |after| || |before| <= windowLines
    ensures !HidesStableRow(transient, Captured(before, windowLines), Captured(after, windowLines))
  {
  }

  /** When the grid shrinks, a row shown to the user can be missing from the transcript: with a
      window of one row, two blank rows give way to the single row "a". */
  lemma ShrinkingGridLosesRow(transient: Transient)
    requires IsStableLine(transient, "a")
    ensures var frames := [Captured([[], []], 1), Captured([[Cell('a', false, false)]], 1)];
            && StableText(transient, frames[1], 0) == Some("a")
            && Recorded(ReplayOps(map[], RunOps(transient, frames)), 0) == None
  {
    BlankRowsCaptured();
    LetterCaptured();
    LetterIsStable(transient);
    NothingIsEmitted(transient);
    hide Captured, StableText, RunOps, IsStableLine;
  }

  const BLANK_SCREEN := Snapshot(1, [LineData("", false)])
  const LETTER_SCREEN := Snapshot(0, [LineData("a", false)])

  lemma LetterIsStable(transient: Transient)
    requires IsStableLine(transient, "a")
    ensures StableText(transient, LETTER_SCREEN, 0) == Some("a")
  {
    assert TrimEnd("a") == "a";
  }

  lemma NothingIsEmitted(transient: Transient)
    ensures RunOps(transient, [BLANK_SCREEN, LETTER_SCREEN]) == []
  {
    hide RowOp, FrameOps;
    NothingForBlank(transient, 0);
    NothingForBlank(transient, 1);
    NothingForLetter(transient, 0);
    NothingForLetter(transient, 1);
    NothingEmitted(transient, NO_ROWS, BLANK_SCREEN, 2);
    NothingEmitted(transient, BLANK_SCREEN, LETTER_SCREEN, 2);
    hide RunOps;
    RunOfTwo(transient, BLANK_SCREEN, LETTER_SCREEN);
  }

  lemma NothingForBlank(transient: Transient, y: nat)
    ensures RowOp(transient, NO_ROWS, BLANK_SCREEN, y) == None
  {
    BlankIsNotStable(transient);
    hide IsStableLine;
  }

  lemma NothingForLetter(transient: Transient, y: nat)
    ensures RowOp(transient, BLANK_SCREEN, LETTER_SCREEN, y) == None
  {
  }

  lemma {:induction false} NothingEmitted(transient: Transient, prev: Snapshot, curr: Snapshot, hi: nat)
    requires forall y: nat :: y < hi ==> RowOp(transient, prev, curr, y) == None
    ensures FrameOps(transient, prev, curr, hi) == []
  {
    hide RowOp;
    if hi == 0 {
    } else {
      NothingEmitted(transient, prev, curr, hi - 1);
    }
  }

  lemma BlankRowsCaptured()
    ensures Captured([[], []], 1) == BLANK_SCREEN
  {
    assert CapturedRow([]) == LineData("", false);
  }

  lemma LetterCaptured()
    ensures Captured([[Cell('a', false, false)]], 1) == LETTER_SCREEN
  {
    var a := [Cell('a', false, false)];
    assert TrimEnd("a") == "a";
    PlainRowText(a);
    hide RowText, TrimEnd;
    assert RowText(a) == "a";
    assert CapturedRow(a) == LineData("a", false);
  }

  lemma BlankIsNotStable(transient: Transient)
    ensures !IsStableLine(transient, "")
  {
  }

  lemma RunOfTwo(transient: Transient, f1: Snapshot, f2: Snapshot)
    ensures RunOps(transient, [f1, f2]) == Ops(transient, NO_ROWS, f1) + Ops(transient, f1, f2)
  {
    hide Ops;
    assert [f1, f2][..1] == [f1] && [f1][..0] == [];
    assert RunOps(transient, [f1]) == Ops(transient, NO_ROWS, f1);
  }

  datatype FrameDelta = FrameDelta(
    addedLines: seq<AddedLine>,
    modifiedLines: seq<ModifiedLine>,
    stableOps: seq<StableTextOp>,
    window: (nat, nat))

  lemma {:induction false} NothingBelowBothWindows(prev: Snapshot, curr: Snapshot, y: nat)
    requires y <= curr.startY && (y <= prev.startY || prev.lines == [])
    ensures Added(prev, curr, y) == [] && Modified(prev, curr, y) == []
  {
    if y == 0 {
    } else {
      NothingBelowBothWindows(prev, curr, y - 1);
    }
  }

  lemma {:induction false} NothingModifiedAtFirst(curr: Snapshot, y: nat)
    ensures Modified(NO_ROWS, curr, y) == []
  {
    if y == 0 {
    } else {
      NothingModifiedAtFirst(curr, y - 1);
    }
  }

  class IncrementalExtractor {
    const windowLines: nat
    const transient: Transient
    var lastSnapshot: Option<Snapshot>

    /** The screens seen since construction or the last reset. */
    ghost var frames: seq<Snapshot>
    /** The operations handed out for them. */
    ghost var emitted: seq<StableTextOp>

    ghost predicate Valid()
      reads this
    {
      && lastSnapshot == (if frames == [] then None else Some(frames[|frames| - 1]))
      && emitted == RunOps(transient, frames)
    }

    constructor (rows: nat, windowLines: Option<nat>, transient: Transient)
      ensures Valid() && frames == [] && this.transient == transient
      ensures this.windowLines == if windowLines.Some? then windowLines.value else Max(rows * 20, 800)
    {
      this.windowLines := match windowLines case Some(w) => w case None => Max(rows * 20, 800);
      this.transient := transient;
      lastSnapshot := None;
      frames, emitted := [], [];
    }

    /** Records the screen and returns what changed: the operations a transcript needs. */
    method Extract(grid: Grid) returns (delta: FrameDelta)
      requires Valid()
      modifies this
      ensures Valid()
      ensures frames == old(frames) + [Captured(grid, windowLines)]
      ensures emitted == old(emitted) + delta.stableOps
      ensures delta.stableOps == Ops(transient, Before(old(frames)), Captured(grid, windowLines))
    {
      var current := CaptureScreen(grid);
      delta := ComputeDelta(lastSnapshot, current);
      lastSnapshot := Some(current);
      frames, emitted := frames + [current], emitted + delta.stableOps;
      assert frames[..|frames| - 1] == old(frames);
    }

    method Reset()
      modifies this
      ensures Valid() && frames == []
    {
      lastSnapshot := None;
      frames, emitted := [], [];
    }

    method CaptureScreen(grid: Grid) returns (snapshot: Snapshot)
      ensures snapshot == Captured(grid, windowLines)
      ensures ShowsGrid(snapshot, grid, windowLines)
    {
      hide RowText, TrimEnd, ShowsGrid;
      var top := if |grid| > windowLines then |grid| - windowLines else 0;
      var lines: seq<LineData> := [];
      for y := top to |grid|
        invariant lines == Captured(grid, windowLines).lines[..y - top]
      {
        var row := grid[y];
        var text := TrimEnd(RowText(row));
        var isWrapped := if |row| > 0 then row[0].wrapline else false;
        lines := lines + [LineData(text, isWrapped)];
        assert Captured(grid, windowLines).lines[y - top] == CapturedRow(row);
      }
      snapshot := Snapshot(top, lines);
      CapturedShowsGrid(grid, windowLines);
    }

    method ComputeDelta(prev: Option<Snapshot>, curr: Snapshot) returns (delta: FrameDelta)
      ensures var was := if prev.Some? then prev.value else NO_ROWS;
              var end := Max(was.EndY(), curr.EndY());
              && delta.addedLines == Added(was, curr, end)
              && delta.modifiedLines == Modified(was, curr, end)
              && delta.stableOps == Ops(transient, was, curr)
              && delta.window == (curr.startY, curr.EndY())
    {
      ghost var was := if prev.Some? then prev.value else NO_ROWS;
      var added, modified;
      match prev {
        case None =>
          added := AllRows(curr);
          modified := [];
          NothingModifiedAtFirst(curr, curr.EndY());
        case Some(before) =>
          added, modified := CompareLines(before, curr);
      }
      var ops := ExtractStableOps(added, modified);
      SortedPassesAreRowOps(transient, was, curr, Max(was.EndY(), curr.EndY()));
      delta := FrameDelta(added, modified, ops, (curr.startY, curr.EndY()));
    }

    /** First capture: all nonblank rows are new. */
    method AllRows(curr: Snapshot) returns (added: seq<AddedLine>)
      ensures added == Added(NO_ROWS, curr, curr.EndY())
    {
      added := [];
      NothingBelowBothWindows(NO_ROWS, curr, curr.startY);
      for localY := 0 to |curr.lines|
        invariant added == Added(NO_ROWS, curr, curr.startY + localY)
      {
        var line := curr.lines[localY];
        if Trim(line.text) != "" {
          added := added + [AddedLine(curr.startY + localY, line.text, line.isWrapped)];
        }
      }
    }

    method CompareLines(prev: Snapshot, curr: Snapshot) returns (added: seq<AddedLine>, modified: seq<ModifiedLine>)
      ensures var end := Max(prev.EndY(), curr.EndY());
              added == Added(prev, curr, end) && modified == Modified(prev, curr, end)
    {
      added, modified := [], [];
      var startY, endY := Min(prev.startY, curr.startY), Max(prev.EndY(), curr.EndY());
      NothingBelowBothWindows(prev, curr, startY);
      for y := startY to endY
        invariant added == Added(prev, curr, y)
        invariant modified == Modified(prev, curr, y)
      {
        var prevLine, currLine := prev.Row(y), curr.Row(y);
        if prevLine.None? && currLine.Some? {
          // Top-expansion of the window: not replayed.
          if y < prev.startY {
            continue;
          }
          if Trim(currLine.value.text) != "" {
            added := added + [AddedLine(y, currLine.value.text, currLine.value.isWrapped)];
          }
          continue;
        }
        if && prevLine.Some? && currLine.Some?
           && prevLine.value.text != currLine.value.text && Trim(currLine.value.text) != ""
        {
          modified := modified + [ModifiedLine(y, prevLine.value.text, currLine.value.text, currLine.value.isWrapped)];
        }
      }
    }

    method ExtractStableOps(added: seq<AddedLine>, modified: seq<ModifiedLine>) returns (ops: seq<StableTextOp>)
      ensures ops == SortOps(OpsOfAdded(transient, added) + OpsOfModified(transient, modified))
    {
      hide IsStableLine, SortOps, Trim, TrimEnd;
      ops := [];
      for i := 0 to |added|
        invariant ops == OpsOfAdded(transient, added[..i])
      {
        var line := added[i];
        var text := TrimEnd(line.text);
        assert added[..i + 1][..i] == added[..i];
        if IsStableLine(transient, text) {
          ops := ops + [Line(line.y, text, line.isWrapped)];
        }
      }
      assert added[..|added|] == added;
      hide OpsOfAdded;
      for i := 0 to |modified|
        invariant ops == OpsOfAdded(transient, added) + OpsOfModified(transient, modified[..i])
      {
        var line := modified[i];
        var newText, oldText := TrimEnd(line.newText), TrimEnd(line.oldText);
        assert modified[..i + 1][..i] == modified[..i];
        if IsStableLine(transient, newText) && !IsStableLine(transient, oldText) {
          ops := ops + [Replace(line.y, newText, line.isWrapped)];
          continue;
        }
        if IsStableLine(transient, newText) && IsStableLine(transient, oldText) {
          if oldText <= newText && |newText| > |oldText| {
            var appended := newText[|oldText|..];
            if appended != "" {
              ops := ops + [Append(line.y, appended)];
            }
          } else if newText != oldText {
            ops := ops + [Replace(line.y, newText, line.isWrapped)];
          }
        }
      }
      assert modified[..|modified|] == modified;
      hide OpsOfModified;
      ops := SortOps(ops);
    }

    /** On a run that hid no stable row, the operations handed out rebuild the latest screen. */
    lemma TranscriptIsRight()
      requires Valid() && NeverHides(transient, frames)
      ensures Agrees(transient, ReplayOps(map[], emitted), Before(frames))
    {
      RunAgrees(transient, frames);
    }

    /** On a run that only grew at the bottom, assembling them gives the latest screen. */
    lemma StreamIsTheScreen()
      requires Valid() && StreamsDown(transient, frames)
      ensures Assemble("", emitted) == JoinRows(StableRows(transient, frames))
    {
      StreamingEqualsBatch(transient, frames);
    }
  }

  class TextAssembler {
    var buffer: string

    /** The operations applied since construction or the last reset. */
    ghost var applied: seq<StableTextOp>

    ghost predicate Valid()
      reads this
    {
      buffer == Assemble("", applied)
    }

    constructor ()
      ensures Valid() && applied == []
    {
      buffer := "";
      applied := [];
    }

    method Reset()
      modifies this
      ensures Valid() && applied == []
    {
      buffer := "";
      applied := [];
    }

    method ApplyOp(op: StableTextOp) returns (chunk: string)
      requires Valid()
      modifies this
      ensures Valid() && applied == old(applied) + [op]
      ensures chunk == Chunk(old(buffer), op) && buffer == old(buffer) + chunk
    {
      applied := applied + [op];
      AssemblePushed("", old(applied), op);
      hide Assemble;
      if op.text == "" {
        return "";
      }
      match op {
        case Append(_, text) =>
          buffer := buffer + text;
          chunk := text;
        case _ =>
          var needsNewline := buffer != "" && buffer[|buffer| - 1] != '\n' && !op.isWrapped;
          chunk := if needsNewline then "\n" + op.text else op.text;
          buffer := buffer + chunk;
      }
    }

    method ApplyAll(ops: seq<StableTextOp>) returns (appended: string)
      requires Valid()
      modifies this
      ensures Valid() && applied == old(applied) + ops
      ensures buffer == old(buffer) + appended == Assemble(old(buffer), ops)
    {
      hide Chunk, Assemble;
      appended := "";
      for i := 0 to |ops|
        invariant Valid() && applied == old(applied) + ops[..i]
        invariant buffer == old(buffer) + appended
      {
        assert ops[..i + 1] == ops[..i] + [ops[i]];
        var chunk := ApplyOp(ops[i]);
        appended := appended + chunk;
      }
      assert ops[..|ops|] == ops;
      AssembleConcat("", old(applied), ops);
    }

    /** The assembled text: after the operations of a run that only grew at the bottom, it is the
        latest screen's stable rows. */
    method Finalize() returns (text: string)
      requires Valid()
      ensures text == Assemble("", applied)
      ensures forall transient: Transient, frames: seq<Snapshot> ::
                applied == RunOps(transient, frames) && StreamsDown(transient, frames) ==>
                  text == JoinRows(StableRows(transient, frames))
    {
      text := buffer;
      forall transient: Transient, frames: seq<Snapshot>
        | applied == RunOps(transient, frames) && StreamsDown(transient, frames)
        ensures text == JoinRows(StableRows(transient, frames))
      {
        StreamingEqualsBatch(transient, frames);
      }
    }
  }
}
