/** Run-length encoding of a styled terminal row. */
module StyledRow {

  type Rgb = (nat, nat, nat)

  datatype Flags = Flags(
    bold: bool, dim: bool, italic: bool, underline: bool, inverse: bool, hidden: bool, strikeout: bool)

  datatype Style = Style(fg: Rgb, bg: Rgb, flags: Flags)

  datatype Cell = Cell(c: char, style: Style, isSpacer: bool)

  datatype Span = Span(text: string, style: Style)

  predicate IsVisible(cell: Cell) {
    cell.c != ' ' && !cell.isSpacer
  }

  /** `end` is just past the last visible cell. */
  ghost predicate EndsVisible(cells: seq<Cell>, end: nat) {
    && end <= |cells|
    && (forall i :: end <= i < |cells| ==> !IsVisible(cells[i]))
    && (end > 0 ==> IsVisible(cells[end - 1]))
  }

  function Chars(cells: seq<Cell>): string {
    seq(|cells|, i requires 0 <= i < |cells| => cells[i].c)
  }

  /** Every character of a span with the span's style. */
  function Styled(text: string, style: Style): seq<(char, Style)> {
    seq(|text|, i requires 0 <= i < |text| => (text[i], style))
  }

  function Expand(spans: seq<Span>): seq<(char, Style)> {
    if spans == [] then [] else Expand(spans[..|spans| - 1]) + Styled(spans[|spans| - 1].text, spans[|spans| - 1].style)
  }

  function Looks(cells: seq<Cell>): seq<(char, Style)> {
    seq(|cells|, i requires 0 <= i < |cells| => (cells[i].c, cells[i].style))
  }

  /** No span is empty and neighbouring spans differ in style. */
  ghost predicate IsMaximal(spans: seq<Span>) {
    && (forall i :: 0 <= i < |spans| ==> spans[i].text != "")
    && (forall i :: 0 < i < |spans| ==> spans[i - 1].style != spans[i].style)
  }

  lemma ExpandPushed(spans: seq<Span>, span: Span)
    ensures Expand(spans + [span]) == Expand(spans) + Styled(span.text, span.style)
  {
    assert (spans + [span])[..|spans|] == spans;
  }

  /** Spans expand one after the other, each to its characters in its style. */
  lemma {:induction false} ExpandConcat(a: seq<Span>, b: seq<Span>)
    ensures Expand(a + b) == Expand(a) + Expand(b)
  {
    hide Expand, Styled;
    if b == [] {
      assert a + b == a;
      ExpandNothing();
    } else {
      var front, last := b[..|b| - 1], b[|b| - 1];
      assert a + b == (a + front) + [last] && b == front + [last];
      ExpandPushed(a + front, last);
      ExpandPushed(front, last);
      ExpandConcat(a, front);
    }
  }

  lemma ExpandNothing()
    ensures Expand([]) == []
  {
  }

  lemma ExpandOne(span: Span)
    ensures |Expand([span])| == |span.text|
    ensures forall i :: 0 <= i < |span.text| ==> Expand([span])[i] == (span.text[i], span.style)
  {
    assert [span][..0] == [];
  }

  /** The row up to its last visible cell: its text, and the styles as spans. The encoding is
      lossless, cell by cell, and as short as it can be. */
  method StyledLineFromCells(cells: seq<Cell>) returns (text: string, spans: seq<Span>, ghost end: nat)
    ensures EndsVisible(cells, end) && text == Chars(cells[..end])
    ensures Expand(spans) == Looks(cells[..end]) && IsMaximal(spans)
    ensures |text| == |Expand(spans)| == end
    ensures forall i :: 0 <= i < end ==> text[i] == cells[i].c && Expand(spans)[i] == (cells[i].c, cells[i].style)
  {
    var last := |cells|;
    while last > 0 && !IsVisible(cells[last - 1])
      invariant 0 <= last <= |cells|
      invariant forall i :: last <= i < |cells| ==> !IsVisible(cells[i])
    {
      last := last - 1;
    }
    end := last;
    var row := cells[..last];
    text := Chars(row);
    spans := [];
    for i := 0 to |row|
      invariant Expand(spans) == Looks(row[..i]) && IsMaximal(spans)
    {
      spans := AddCell(spans, row[i], row[..i]);
      assert row[..i + 1] == row[..i] + [row[i]];
    }
    assert row[..|row|] == row;
  }

  method AddCell(before: seq<Span>, cell: Cell, ghost seen: seq<Cell>) returns (spans: seq<Span>)
    requires Expand(before) == Looks(seen) && IsMaximal(before)
    ensures Expand(spans) == Looks(seen + [cell]) && IsMaximal(spans)
  {
    LooksPushed(seen, cell);
    hide Expand, Looks, IsMaximal;
    if before != [] {
      var front, last := before[..|before| - 1], before[|before| - 1];
      if last.style == cell.style {
        assert before == front + [last];
        LongerSpan(front, last, cell.c);
        return front + [Span(last.text + [cell.c], last.style)];
      }
    }
    NewSpan(before, Span([cell.c], cell.style));
    assert Styled([cell.c], cell.style) == [(cell.c, cell.style)];
    spans := before + [Span([cell.c], cell.style)];
  }

  lemma LooksPushed(seen: seq<Cell>, cell: Cell)
    ensures Looks(seen + [cell]) == Looks(seen) + [(cell.c, cell.style)]
  {
  }

  lemma NewSpan(before: seq<Span>, span: Span)
    requires IsMaximal(before) && span.text != "" && (before != [] ==> before[|before| - 1].style != span.style)
    ensures IsMaximal(before + [span]) && Expand(before + [span]) == Expand(before) + Styled(span.text, span.style)
  {
    ExpandPushed(before, span);
    hide Expand, Styled;
    var longer := before + [span];
    assert forall i :: 0 <= i < |before| ==> longer[i] == before[i];
    assert longer[|before|] == span;
  }

  lemma LongerSpan(front: seq<Span>, last: Span, c: char)
    requires IsMaximal(front + [last])
    ensures IsMaximal(front + [Span(last.text + [c], last.style)])
    ensures Expand(front + [Span(last.text + [c], last.style)]) == Expand(front + [last]) + [(c, last.style)]
  {
    ExpandPushed(front, last);
    ExpandPushed(front, Span(last.text + [c], last.style));
    hide Expand;
    assert Styled(last.text + [c], last.style) == Styled(last.text, last.style) + [(c, last.style)];
    var short := front + [last];
    assert forall i :: 0 <= i < |front| ==> short[i] == front[i];
    assert short[|front|] == last;
  }

  /** A maximal encoding is the only one: two with the same expansion are equal. */
  lemma {:induction false} MaximalIsUnique(a: seq<Span>, b: seq<Span>)
    requires IsMaximal(a) && IsMaximal(b) && Expand(a) == Expand(b)
    ensures a == b
    decreases |a|
  {
    if a == [] || b == [] {
      NonemptyExpands(a);
      NonemptyExpands(b);
    } else {
      var fa, la, fb, lb := a[..|a| - 1], a[|a| - 1], b[..|b| - 1], b[|b| - 1];
      hide Expand, Styled;
      LastSpansAgree(a, b);
      FrontIsMaximal(a);
      FrontIsMaximal(b);
      hide IsMaximal;
      MaximalIsUnique(fa, fb);
      assert a == fa + [la] && b == fb + [lb];
    }
  }

  lemma FrontIsMaximal(a: seq<Span>)
    requires IsMaximal(a) && a != []
    ensures IsMaximal(a[..|a| - 1])
  {
    var front := a[..|a| - 1];
    assert forall i :: 0 <= i < |front| ==> front[i] == a[i];
  }

  lemma LastSpansAgree(a: seq<Span>, b: seq<Span>)
    requires IsMaximal(a) && IsMaximal(b) && a != [] && b != [] && Expand(a) == Expand(b)
    ensures a[|a| - 1] == b[|b| - 1] && Expand(a[..|a| - 1]) == Expand(b[..|b| - 1])
  {
    var la, lb := a[|a| - 1], b[|b| - 1];
    LastStylesAgree(a, b);
    LastRunIsWhole(a, b);
    LastRunIsWhole(b, a);
    SameEnd(Expand(a[..|a| - 1]), Styled(la.text, la.style), Expand(b[..|b| - 1]), Styled(lb.text, lb.style));
    StyledTexts(la, lb);
  }

  lemma LastStylesAgree(a: seq<Span>, b: seq<Span>)
    requires IsMaximal(a) && IsMaximal(b) && a != [] && b != [] && Expand(a) == Expand(b)
    ensures a[|a| - 1].style == b[|b| - 1].style
  {
    ExpandEndsIn(a);
    ExpandEndsIn(b);
  }

  lemma ExpandEndsIn(a: seq<Span>)
    requires a != [] && a[|a| - 1].text != ""
    ensures Expand(a) != [] && Expand(a)[|Expand(a)| - 1].1 == a[|a| - 1].style
  {
    var last := a[|a| - 1];
    assert Styled(last.text, last.style)[|last.text| - 1] == (last.text[|last.text| - 1], last.style);
  }

  lemma StyledTexts(x: Span, y: Span)
    requires Styled(x.text, x.style) == Styled(y.text, y.style)
    ensures x.text == y.text
  {
    var n := |Styled(x.text, x.style)|;
    assert |x.text| == n == |y.text|;
    forall i | 0 <= i < n
      ensures x.text[i] == y.text[i]
    {
      assert Styled(x.text, x.style)[i] == Styled(y.text, y.style)[i];
    }
  }

  lemma SameEnd<T>(a: seq<T>, x: seq<T>, b: seq<T>, y: seq<T>)
    requires a + x == b + y && |x| == |y|
    ensures a == b && x == y
  {
    assert (a + x)[..|a|] == a && (b + y)[..|b|] == b;
    assert (a + x)[|a|..] == x && (b + y)[|b|..] == y;
  }

  lemma NonemptyExpands(a: seq<Span>)
    requires IsMaximal(a)
    ensures a == [] <==> Expand(a) == []
  {
    if a != [] {
      assert |Styled(a[|a| - 1].text, a[|a| - 1].style)| > 0;
    }
  }

  /** The last span of one encoding is no longer than that of the other. */
  lemma LastRunIsWhole(a: seq<Span>, b: seq<Span>)
    requires IsMaximal(a) && IsMaximal(b) && a != [] && b != [] && Expand(a) == Expand(b)
    requires a[|a| - 1].style == b[|b| - 1].style
    ensures |a[|a| - 1].text| <= |b[|b| - 1].text|
  {
    var all, la, lb := Expand(a), a[|a| - 1], b[|b| - 1];
    var k := |all| - |lb.text| - 1;
    if |b| == 1 {
      assert Expand(b[..0]) == [];
    } else {
      var prev := b[|b| - 2];
      assert b[..|b| - 1][..|b| - 2] == b[..|b| - 2];
      assert Expand(b[..|b| - 1]) == Expand(b[..|b| - 2]) + Styled(prev.text, prev.style);
      assert all[k] == Expand(b[..|b| - 1])[k] == (prev.text[|prev.text| - 1], prev.style);
      assert forall i :: |all| - |la.text| <= i < |all| ==>
               all[i] == Styled(la.text, la.style)[i - (|all| - |la.text|)];
    }
  }
}
