/** Splitting an argument list at commas outside quotes, with backslash escapes. */
module SplitArgs {
  import opened Selection
  import opened Text

  /** The scanner's two flags. */
  datatype Mode = Mode(inQuotes: bool, escapeNext: bool)

  const PLAIN := Mode(false, false)

  function Next(m: Mode, c: char): Mode {
    if m.escapeNext then Mode(m.inQuotes, false)
    else if c == '\\' then Mode(m.inQuotes, true)
    else if c == '"' then Mode(!m.inQuotes, false)
    else m
  }

  predicate Cuts(m: Mode, c: char) {
    c == ',' && m == PLAIN
  }

  function ModeAfter(m: Mode, s: string): Mode {
    if s == "" then m else Next(ModeAfter(m, s[..|s| - 1]), s[|s| - 1])
  }

  /** The pieces between the commas that cut, untrimmed. */
  function Segments(m: Mode, s: string): (r: seq<string>)
    ensures |r| >= 1
    decreases |s|
  {
    if s == "" then [""]
    else
      var rest := Segments(Next(m, s[0]), s[1..]);
      if Cuts(m, s[0]) then [""] + rest else [[s[0]] + rest[0]] + rest[1..]
  }

  /** The pieces that are kept: trimmed, and only if not blank. */
  function Kept(segments: seq<string>): seq<string> {
    if segments == [] then []
    else (if Trim(segments[0]) == "" then [] else [Trim(segments[0])]) + Kept(segments[1..])
  }

  function Split(input: string): seq<string> {
    Kept(Segments(PLAIN, input))
  }

  lemma KeptCons(first: string, rest: seq<string>)
    ensures Kept([first] + rest) == (if Trim(first) == "" then [] else [Trim(first)]) + Kept(rest)
  {
    assert ([first] + rest)[1..] == rest;
  }

  /** `parts` are the trimmed pieces that are not blank, all of them, in their order. */
  ghost predicate KeepsPieces(segments: seq<string>, parts: seq<string>) {
    exists pieces: seq<string>, pos: seq<nat> ::
      Selects(segments, pieces, pos) && SkipsBlank(segments, pos) && AreTrimmed(pieces, parts)
  }

  ghost predicate SkipsBlank(segments: seq<string>, pos: seq<nat>) {
    forall i: nat :: i < |segments| ==> (i in pos <==> !IsBlank(segments[i]))
  }

  ghost predicate AreTrimmed(pieces: seq<string>, parts: seq<string>) {
    |parts| == |pieces| && forall k :: 0 <= k < |parts| ==> parts[k] == Trim(pieces[k])
  }

  lemma {:induction false} KeptPushed(segments: seq<string>, last: string)
    ensures Kept(segments + [last]) == Kept(segments) + (if IsBlank(last) then [] else [Trim(last)])
  {
    TrimBlank(last);
    hide Trim, IsBlank;
    if segments == [] {
      assert segments + [last] == [last] && [last][1..] == [];
    } else {
      KeptPushed(segments[1..], last);
      assert (segments + [last])[1..] == segments[1..] + [last];
    }
  }

  lemma {:induction false} KeptKeepsPieces(segments: seq<string>)
    ensures KeepsPieces(segments, Kept(segments))
  {
    hide *;
    if segments == [] {
      NothingKept();
    } else {
      var front, last := segments[..|segments| - 1], segments[|segments| - 1];
      KeptKeepsPieces(front);
      KeptPushed(front, last);
      KeepsPushed(front, Kept(front), last);
      assert segments == front + [last];
    }
  }

  lemma NothingKept()
    ensures KeepsPieces([], Kept([]))
  {
    assert Selects<string>([], [], []) && SkipsBlank([], []) && AreTrimmed([], []);
  }

  lemma KeepsPushed(segments: seq<string>, parts: seq<string>, last: string)
    requires KeepsPieces(segments, parts)
    ensures KeepsPieces(segments + [last], parts + (if IsBlank(last) then [] else [Trim(last)]))
  {
    var pieces: seq<string>, pos: seq<nat> :|
      Selects(segments, pieces, pos) && SkipsBlank(segments, pos) && AreTrimmed(pieces, parts);
    hide Selects, IsBlank, Trim, AreTrimmed, SkipsBlank;
    var more := SelectsPushed(segments, pieces, pos, last, !IsBlank(last));
    SkipsPushed(segments, pos, last, more);
    TrimmedPushed(pieces, parts, last);
    assert parts + [] == parts;
  }

  lemma SkipsPushed(segments: seq<string>, pos: seq<nat>, last: string, more: seq<nat>)
    requires SkipsBlank(segments, pos) && forall i: nat :: i in pos ==> i < |segments|
    requires forall i: nat :: i in more <==> i in pos || (!IsBlank(last) && i == |segments|)
    ensures SkipsBlank(segments + [last], more)
  {
    hide IsBlank;
  }

  lemma TrimmedPushed(pieces: seq<string>, parts: seq<string>, last: string)
    requires AreTrimmed(pieces, parts)
    ensures AreTrimmed(pieces + [last], parts + [Trim(last)])
  {
  }

  /** What is still to come, given the text of the current piece and the unread input. */
  function Remaining(current: string, m: Mode, unread: string): seq<string> {
    var rest := Segments(m, unread);
    Kept([current + rest[0]] + rest[1..])
  }

  lemma RemainingAtEnd(current: string, m: Mode)
    ensures Remaining(current, m, "") == if Trim(current) == "" then [] else [Trim(current)]
  {
    assert current + "" == current && [current] + [] == [current];
    KeptCons(current, []);
  }

  lemma RemainingPushed(current: string, m: Mode, c: char, unread: string)
    requires !Cuts(m, c)
    ensures Remaining(current, m, [c] + unread) == Remaining(current + [c], Next(m, c), unread)
  {
    assert ([c] + unread)[1..] == unread;
    var rest := Segments(Next(m, c), unread);
    assert current + ([c] + rest[0]) == (current + [c]) + rest[0];
  }

  lemma RemainingCut(current: string, unread: string)
    ensures Remaining(current, PLAIN, "," + unread)
         == (if Trim(current) == "" then [] else [Trim(current)]) + Remaining("", PLAIN, unread)
  {
    assert ("," + unread)[1..] == unread;
    var rest := Segments(PLAIN, unread);
    assert [rest[0]] + rest[1..] == rest && "" + rest[0] == rest[0] && current + "" == current;
    KeptCons(current, rest);
  }

  method SplitArgs(input: string) returns (parts: seq<string>)
    ensures parts == Split(input)
  {
    parts := [];
    var current, inQuotes, escapeNext := "", false, false;
    assert input[0..] == input;
    RemainingFromStart(input);
    hide Remaining, Split, Trim, Segments, Kept, IsWhitespace;
    for i := 0 to |input|
      invariant parts + Remaining(current, Mode(inQuotes, escapeNext), input[i..]) == Split(input)
    {
      var c := input[i];
      ghost var m, unread := Mode(inQuotes, escapeNext), input[i + 1..];
      assert input[i..] == [c] + unread;
      if escapeNext {
        RemainingPushed(current, m, c, unread);
        current := current + [c];
        escapeNext := false;
        continue;
      }
      if c == '\\' {
        RemainingPushed(current, m, c, unread);
        current := current + [c];
        escapeNext := true;
      } else if c == '"' {
        RemainingPushed(current, m, c, unread);
        current := current + [c];
        inQuotes := !inQuotes;
      } else if c == ',' && !inQuotes {
        RemainingCut(current, unread);
        var trimmed := Trim(current);
        if trimmed != "" {
          parts := parts + [trimmed];
        }
        current := "";
      } else {
        RemainingPushed(current, m, c, unread);
        current := current + [c];
      }
    }
    RemainingAtEnd(current, Mode(inQuotes, escapeNext));
    assert input[|input|..] == "";
    var trimmed := Trim(current);
    if trimmed != "" {
      parts := parts + [trimmed];
    }
  }

  lemma RemainingFromStart(input: string)
    ensures Remaining("", PLAIN, input) == Split(input)
  {
    var rest := Segments(PLAIN, input);
    assert "" + rest[0] == rest[0] && [rest[0]] + rest[1..] == rest;
  }

  // ---------- Where the commas cut ----------

  /** The length of the run of backslashes at the end of a text. */
  function TrailingBackslashes(s: string): nat {
    if s == "" || s[|s| - 1] != '\\' then 0 else 1 + TrailingBackslashes(s[..|s| - 1])
  }

  /** A character is escaped when an odd number of backslashes stands before it. */
  predicate IsEscaped(s: string, i: nat)
    requires i <= |s|
  {
    TrailingBackslashes(s[..i]) % 2 == 1
  }

  /** How many unescaped quotes a text has. */
  function Quotes(s: string): nat {
    if s == "" then 0
    else Quotes(s[..|s| - 1]) + (if s[|s| - 1] == '"' && !IsEscaped(s, |s| - 1) then 1 else 0)
  }

  predicate IsQuoted(s: string, i: nat)
    requires i <= |s|
  {
    Quotes(s[..i]) % 2 == 1
  }

  /** A comma that is neither escaped nor inside quotes. */
  predicate IsBareComma(s: string, i: nat) {
    i < |s| && s[i] == ',' && !IsEscaped(s, i) && !IsQuoted(s, i)
  }

  /** The scanner's flags are the parities of backslash runs and of unescaped quotes. */
  lemma {:induction false} ScannerCountsParities(s: string)
    ensures ModeAfter(PLAIN, s) == Mode(Quotes(s) % 2 == 1, TrailingBackslashes(s) % 2 == 1)
  {
    if s == "" {
    } else {
      var front := s[..|s| - 1];
      ScannerCountsParities(front);
      assert s[..|s| - 1] == front;
    }
  }

  /** The positions of the removed commas, if the segments were laid out again from `offset`. */
  function CutPositions(segments: seq<string>, offset: nat): seq<nat> {
    if |segments| <= 1 then []
    else [offset + |segments[0]|] + CutPositions(segments[1..], offset + |segments[0]| + 1)
  }

  /** Nothing is lost: the segments joined by commas are the input. */
  lemma {:induction false} SegmentsRejoin(m: Mode, s: string)
    ensures Join(Segments(m, s), ",") == s
    decreases |s|
  {
    if s == "" {
    } else {
      var rest := Segments(Next(m, s[0]), s[1..]);
      SegmentsRejoin(Next(m, s[0]), s[1..]);
      if Cuts(m, s[0]) {
        assert ([""] + rest)[1..] == rest;
        assert "" + "," + Join(rest, ",") == s;
      } else {
        var longer := [[s[0]] + rest[0]] + rest[1..];
        assert longer[1..] == rest[1..];
        assert Join(longer, ",") == [s[0]] + Join(rest, ",");
      }
    }
  }

  lemma {:induction false} CutsWhereScannerCuts(m: Mode, s: string, offset: nat, i: nat)
    ensures i in CutPositions(Segments(m, s), offset)
       <==> offset <= i < offset + |s| && Cuts(ModeAfter(m, s[..i - offset]), s[i - offset])
    decreases |s|
  {
    if s == "" {
    } else {
      var rest := Segments(Next(m, s[0]), s[1..]);
      CutsWhereScannerCuts(Next(m, s[0]), s[1..], offset + 1, i);
      if offset < i < offset + |s| {
        var k := i - offset;
        assert s[..k] == [s[0]] + s[1..][..k - 1];
        ModeAfterCons(m, s[0], s[1..][..k - 1]);
      }
      if Cuts(m, s[0]) {
        assert ([""] + rest)[1..] == rest;
        CutsBeyond(rest, offset + 1, i);
      } else {
        var longer := [[s[0]] + rest[0]] + rest[1..];
        assert longer[1..] == rest[1..];
        CutsBeyond(rest, offset + 1, i);
      }
    }
  }

  lemma {:induction false} CutsBeyond(segments: seq<string>, offset: nat, i: nat)
    ensures i in CutPositions(segments, offset) ==> i >= offset
  {
    if |segments| > 1 {
      CutsBeyond(segments[1..], offset + |segments[0]| + 1, i);
    }
  }

  lemma {:induction false} ModeAfterCons(m: Mode, c: char, s: string)
    ensures ModeAfter(m, [c] + s) == ModeAfter(Next(m, c), s)
  {
    if s == "" {
      assert [c] + s == [c] && [c][..0] == "";
    } else {
      assert ([c] + s)[..|s|] == [c] + s[..|s| - 1];
      ModeAfterCons(m, c, s[..|s| - 1]);
    }
  }

  /** For every input the segments are exactly the pieces between its bare commas: no comma
      inside quotes or after a backslash splits, and every other one does. */
  lemma CommasCutExactlyWhenBare(input: string, i: nat)
    ensures i in CutPositions(Segments(PLAIN, input), 0) <==> IsBareComma(input, i)
  {
    CutsWhereScannerCuts(PLAIN, input, 0, i);
    if i < |input| {
      ScannerCountsParities(input[..i]);
    }
  }

  // ---------- Round trip ----------

  predicate NoCuts(m: Mode, s: string)
    decreases |s|
  {
    s == "" || (!Cuts(m, s[0]) && NoCuts(Next(m, s[0]), s[1..]))
  }

  lemma {:induction false} NoCutsMeansNoBareComma(s: string)
    ensures NoCuts(PLAIN, s) <==> forall i: nat :: !IsBareComma(s, i)
  {
    NoCutsIsOneSegment(PLAIN, s);
    if NoCuts(PLAIN, s) {
      forall i: nat
        ensures !IsBareComma(s, i)
      {
        CommasCutExactlyWhenBare(s, i);
      }
    } else {
      var segments := Segments(PLAIN, s);
      assert |segments[0]| in CutPositions(segments, 0);
      CommasCutExactlyWhenBare(s, |segments[0]|);
    }
  }

  lemma {:induction false} NoCutsIsOneSegment(m: Mode, s: string)
    ensures NoCuts(m, s) <==> |Segments(m, s)| == 1
    ensures NoCuts(m, s) ==> Segments(m, s) == [s]
    decreases |s|
  {
    if s == "" {
    } else {
      NoCutsIsOneSegment(Next(m, s[0]), s[1..]);
      assert [s[0]] + s[1..] == s;
    }
  }

  /** A prefix without cuts becomes the start of the first segment. */
  lemma {:induction false} SegmentsAfterPrefix(m: Mode, a: string, b: string)
    requires NoCuts(m, a)
    ensures var rest := Segments(ModeAfter(m, a), b); Segments(m, a + b) == [a + rest[0]] + rest[1..]
    decreases |a|
  {
    if a == "" {
      var rest := Segments(m, b);
      assert a + b == b && "" + rest[0] == rest[0] && [rest[0]] + rest[1..] == rest;
    } else {
      assert (a + b)[1..] == a[1..] + b;
      SegmentsAfterPrefix(Next(m, a[0]), a[1..], b);
      ModeAfterCons(m, a[0], a[1..]);
      assert [a[0]] + a[1..] == a;
      var rest := Segments(ModeAfter(m, a), b);
      assert [a[0]] + (a[1..] + rest[0]) == a + rest[0];
    }
  }

  /** What a caller can check of the parts: each is trimmed, not empty and without a bare
      comma, and all but the last leave the scanner outside quotes and escapes. */
  ghost predicate Splittable(parts: seq<string>) {
    parts == []
    || (&& parts[0] != "" && IsTrimmed(parts[0])
        && (forall i: nat :: !IsBareComma(parts[0], i))
        && (|parts| > 1 ==> Quotes(parts[0]) % 2 == 0 && TrailingBackslashes(parts[0]) % 2 == 0)
        && Splittable(parts[1..]))
  }

  /** One closed part in front of a list is split off whole. */
  lemma SplitOffPart(p: string, rest: string)
    requires p != "" && IsTrimmed(p) && NoCuts(PLAIN, p) && ModeAfter(PLAIN, p) == PLAIN
    ensures Split(p + ", " + rest) == [p] + Split(rest)
  {
    SegmentsOfJoined(p, rest);
    var tail := Segments(PLAIN, rest);
    TrimOfTrimmed(p);
    TrimStartSkips(" ", tail[0]);
    hide Trim;
    KeptCons(p, [" " + tail[0]] + tail[1..]);
    KeptCons(" " + tail[0], tail[1..]);
    KeptCons(tail[0], tail[1..]);
    assert [tail[0]] + tail[1..] == tail;
  }

  lemma SegmentsOfJoined(p: string, rest: string)
    requires NoCuts(PLAIN, p) && ModeAfter(PLAIN, p) == PLAIN
    ensures var tail := Segments(PLAIN, rest); Segments(PLAIN, p + ", " + rest) == [p] + ([" " + tail[0]] + tail[1..])
  {
    var tail := Segments(PLAIN, rest);
    assert p + ", " + rest == p + (", " + rest);
    SegmentsAfterPrefix(PLAIN, p, ", " + rest);
    assert (", " + rest)[0] == ',' && (", " + rest)[1..] == " " + rest;
    assert (" " + rest)[1..] == rest;
    assert Segments(PLAIN, " " + rest) == [" " + tail[0]] + tail[1..];
    assert Segments(PLAIN, ", " + rest) == [""] + Segments(PLAIN, " " + rest);
    assert Segments(PLAIN, p + ", " + rest) == [p] + ([" " + tail[0]] + tail[1..]) by {
      assert p + "" == p;
      assert ([""] + ([" " + tail[0]] + tail[1..]))[1..] == [" " + tail[0]] + tail[1..];
    }
  }

  /** A part without bare commas that leaves quotes or an escape open swallows the comma. */
  lemma OpenPartSwallowsComma(p: string, rest: string)
    requires p != "" && IsTrimmed(p) && NoCuts(PLAIN, p) && ModeAfter(PLAIN, p) != PLAIN
    ensures Split(p + ", " + rest) != [] && Split(p + ", " + rest)[0] != p
  {
    var m := ModeAfter(PLAIN, p);
    assert p + ", " + rest == p + (", " + rest);
    SegmentsAfterPrefix(PLAIN, p, ", " + rest);
    var tail := Segments(m, ", " + rest);
    assert (", " + rest)[0] == ',';
    assert tail[0][0] == ',';
    var first := p + tail[0];
    TrimKeepsCore(p, tail[0]);
    KeptCons(first, tail[1..]);
  }

  lemma TrimKeepsCore(p: string, q: string)
    requires p != "" && !IsWhitespace(p[0]) && q != "" && q[0] == ','
    ensures |Trim(p + q)| > |p|
  {
    var s := p + q;
    assert TrimStart(s) == s;
    var right := TrimEndSplit(s);
    if |TrimEnd(s)| <= |p| {
      assert right == s[|TrimEnd(s)|..];
      assert right[|p| - |TrimEnd(s)|] == s[|p|] == ',';
      BlankAt(right, |p| - |TrimEnd(s)|);
    }
  }

  lemma {:induction false} BlankAt(s: string, i: nat)
    requires IsBlank(s) && i < |s|
    ensures IsWhitespace(s[i])
  {
    if i == 0 {
    } else {
      BlankAt(s[1..], i - 1);
    }
  }

  /** Segments hold no cutting comma themselves. */
  lemma {:induction false} SegmentsAreClean(m: Mode, s: string)
    ensures NoCuts(m, Segments(m, s)[0])
    ensures forall i :: 0 < i < |Segments(m, s)| ==> NoCuts(PLAIN, Segments(m, s)[i])
    decreases |s|
  {
    if s == "" {
    } else {
      var rest := Segments(Next(m, s[0]), s[1..]);
      SegmentsAreClean(Next(m, s[0]), s[1..]);
      if Cuts(m, s[0]) {
        assert Next(m, s[0]) == PLAIN;
      } else {
        assert ([s[0]] + rest[0])[1..] == rest[0];
      }
    }
  }

  lemma {:induction false} CleanStartsWithoutComma(s: string)
    requires NoCuts(PLAIN, s) && TrimStart(s) != ""
    ensures TrimStart(s)[0] != ','
  {
    if IsWhitespace(s[0]) {
      CleanStartsWithoutComma(s[1..]);
    }
  }

  lemma {:induction false} KeptNeverStartWithComma(segments: seq<string>)
    requires forall i :: 0 <= i < |segments| ==> NoCuts(PLAIN, segments[i])
    ensures forall p <- Kept(segments) :: p != "" && IsTrimmed(p) && p[0] != ','
  {
    if segments == [] {
    } else {
      KeptNeverStartWithComma(segments[1..]);
      var s := segments[0];
      TrimIsTrimmed(s);
      if Trim(s) != "" {
        var right := TrimEndSplit(TrimStart(s));
        assert TrimStart(s)[0] == Trim(s)[0];
        CleanStartsWithoutComma(s);
      }
    }
  }

  lemma SplitPartsAreTrimmed(input: string)
    ensures forall p <- Split(input) :: p != "" && IsTrimmed(p) && p[0] != ','
  {
    SegmentsAreClean(PLAIN, input);
    KeptNeverStartWithComma(Segments(PLAIN, input));
  }

  /** A part with a bare comma inside never comes back whole. */
  lemma CutPartComesApart(p: string, rest: string)
    requires p != "" && IsTrimmed(p) && !NoCuts(PLAIN, p)
    ensures Split(p + rest) == [] || Split(p + rest)[0] != p
  {
    SplitPartsAreTrimmed(p + rest);
    if p[0] != ',' {
      FirstSegmentShort(PLAIN, p, rest);
      var segments := Segments(PLAIN, p + rest);
      FirstSegmentStarts(p, rest);
      TrimIsTrimmed(segments[0]);
      KeptCons(segments[0], segments[1..]);
      assert [segments[0]] + segments[1..] == segments;
      TrimBlank(segments[0]);
    }
  }

  lemma {:induction false} FirstSegmentShort(m: Mode, p: string, rest: string)
    requires !NoCuts(m, p)
    ensures |Segments(m, p + rest)[0]| < |p|
    decreases |p|
  {
    assert (p + rest)[0] == p[0] && (p + rest)[1..] == p[1..] + rest;
    if !Cuts(m, p[0]) {
      FirstSegmentShort(Next(m, p[0]), p[1..], rest);
    }
  }

  lemma FirstSegmentStarts(p: string, rest: string)
    requires p != "" && p[0] != ',' && !IsWhitespace(p[0])
    ensures var first := Segments(PLAIN, p + rest)[0]; first != "" && first[0] == p[0]
  {
    assert (p + rest)[0] == p[0];
  }

  /** The caller's view of a part agrees with the scanner's. */
  lemma PartConditions(p: string)
    ensures (forall i: nat :: !IsBareComma(p, i)) <==> NoCuts(PLAIN, p)
    ensures Quotes(p) % 2 == 0 && TrailingBackslashes(p) % 2 == 0 <==> ModeAfter(PLAIN, p) == PLAIN
  {
    NoCutsMeansNoBareComma(p);
    ScannerCountsParities(p);
  }

  /** Split/join round trip, exactly: joining parts with ", " and splitting again gives the
      parts back if and only if they are splittable. */
  lemma {:induction false} SplitJoinRoundTrip(parts: seq<string>)
    ensures Split(Join(parts, ", ")) == parts <==> Splittable(parts)
  {
    if parts == [] {
      RemainingFromStart("");
      RemainingAtEnd("", PLAIN);
    } else {
      SplitJoinRoundTrip(parts[1..]);
      SplitJoinStep(parts);
    }
  }

  lemma SplitJoinStep(parts: seq<string>)
    requires parts != []
    requires Split(Join(parts[1..], ", ")) == parts[1..] <==> Splittable(parts[1..])
    ensures Split(Join(parts, ", ")) == parts <==> Splittable(parts)
  {
    hide Split, NoCuts, IsBareComma, ModeAfter, Quotes, TrailingBackslashes, IsWhitespace;
    var p, ps := parts[0], parts[1..];
    PartConditions(p);
    SplitPartsAreTrimmed(Join(parts, ", "));
    assert p in parts && parts == [p] + ps;
    if p != "" && IsTrimmed(p) {
      if ps == [] {
        SplitSingle(p);
      } else {
        SplitInFront(p, ps);
      }
    }
  }

  lemma SplitSingle(p: string)
    requires p != "" && IsTrimmed(p)
    ensures Split(p) == [p] <==> NoCuts(PLAIN, p)
  {
    if NoCuts(PLAIN, p) {
      NoCutsIsOneSegment(PLAIN, p);
      TrimOfTrimmed(p);
      KeptCons(p, []);
      assert [p] + [] == [p];
    } else {
      CutPartComesApart(p, "");
      assert p + "" == p;
    }
  }

  lemma SplitInFront(p: string, ps: seq<string>)
    requires p != "" && IsTrimmed(p) && ps != []
    requires Split(Join(ps, ", ")) == ps <==> Splittable(ps)
    ensures Split(p + ", " + Join(ps, ", ")) == [p] + ps
       <==> NoCuts(PLAIN, p) && ModeAfter(PLAIN, p) == PLAIN && Splittable(ps)
  {
    var rest := Join(ps, ", ");
    if !NoCuts(PLAIN, p) {
      CutPartComesApart(p, ", " + rest);
      assert p + (", " + rest) == p + ", " + rest;
    } else if ModeAfter(PLAIN, p) != PLAIN {
      OpenPartSwallowsComma(p, rest);
    } else {
      SplitOffPart(p, rest);
      assert ([p] + ps)[1..] == ps && ([p] + Split(rest))[1..] == Split(rest);
    }
  }
}
