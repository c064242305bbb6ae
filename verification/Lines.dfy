/** Splitting text into lines the way Rust's `str::lines` does, and searching for a substring. */
module Lines {
  import opened Text

  /** The index of the first line feed, or the length of the text. */
  function LineEnd(s: string): (k: nat)
    ensures k <= |s| && (k < |s| ==> s[k] == '\n')
    ensures '\n' !in s[..k]
  {
    if s == "" || s[0] == '\n' then 0
    else
      var k := 1 + LineEnd(s[1..]);
      assert s[..k] == [s[0]] + s[1..][..k - 1];
      k
  }

  /** A carriage return just before the line feed belongs to the line ending. */
  function StripCr(line: string): string {
    if line != "" && line[|line| - 1] == '\r' then line[..|line| - 1] else line
  }

  /** The lines of a text; a text that ends in a line feed has no further empty line. */
  function SplitLines(s: string): seq<string>
    decreases |s|
  {
    if s == "" then []
    else
      var k := LineEnd(s);
      if k == |s| then [s] else [StripCr(s[..k])] + SplitLines(s[k + 1..])
  }

  function Unlines(lines: seq<string>): string {
    if lines == [] then "" else lines[0] + "\n" + Unlines(lines[1..])
  }

  predicate EndsLine(s: string) {
    s == "" || s[|s| - 1] == '\n'
  }

  lemma {:induction false} FirstLine(line: string, rest: string)
    requires '\n' !in line
    ensures LineEnd(line + "\n" + rest) == |line|
    ensures SplitLines(line + "\n" + rest) == [StripCr(line)] + SplitLines(rest)
  {
    var s := line + "\n" + rest;
    var k := LineEnd(s);
    assert s[|line|] == '\n';
    assert forall i :: 0 <= i < |line| ==> s[i] == line[i] && line[i] != '\n';
    assert forall i :: 0 <= i < k ==> s[i] == s[..k][i] && s[i] != '\n';
    assert s[..k] == line && s[k + 1..] == rest;
  }

  lemma {:induction false} SplitConcat(a: string, b: string)
    requires EndsLine(a)
    ensures SplitLines(a + b) == SplitLines(a) + SplitLines(b)
    decreases |a|
  {
    assert SplitLines("") == [];
    hide SplitLines;
    if a == "" {
      assert a + b == b;
    } else {
      var line, rest := SplitFirst(a);
      SplitConcat(rest, b);
      SplitStep(line, rest, b);
    }
  }

  lemma SplitStep(line: string, rest: string, b: string)
    requires '\n' !in line
    requires SplitLines(rest + b) == SplitLines(rest) + SplitLines(b)
    ensures SplitLines(line + "\n" + rest + b) == SplitLines(line + "\n" + rest) + SplitLines(b)
  {
    hide SplitLines;
    FirstLine(line, rest);
    FirstLine(line, rest + b);
    assert line + "\n" + rest + b == line + "\n" + (rest + b);
    assert [StripCr(line)] + (SplitLines(rest) + SplitLines(b)) == [StripCr(line)] + SplitLines(rest) + SplitLines(b);
  }

  /** A nonempty text that ends a line starts with a complete line. */
  lemma SplitFirst(a: string) returns (line: string, rest: string)
    requires a != "" && EndsLine(a)
    ensures '\n' !in line && EndsLine(rest) && a == line + "\n" + rest
  {
    var k := LineEnd(a);
    assert forall i :: 0 <= i < k ==> a[i] == a[..k][i] && a[i] != '\n';
    line, rest := a[..k], a[k + 1..];
    assert rest != "" ==> rest[|rest| - 1] == a[|a| - 1];
  }

  lemma {:induction false} LinesHaveNoBreak(s: string)
    ensures forall line <- SplitLines(s) :: '\n' !in line
    decreases |s|
  {
    if s == "" {
    } else {
      var k := LineEnd(s);
      if k < |s| {
        LinesHaveNoBreak(s[k + 1..]);
        assert forall c <- StripCr(s[..k]) :: c in s[..k];
      } else {
        assert s[..k] == s;
      }
    }
  }

  predicate HasCrLf(s: string) {
    exists i :: 0 < i < |s| && s[i] == '\n' && s[i - 1] == '\r'
  }

  /** Lines followed by a line feed each rebuild the text, unless a carriage return was dropped;
      then the result is shorter. */
  lemma {:induction false} UnlinesRebuilds(s: string)
    requires EndsLine(s)
    ensures if HasCrLf(s) then |Unlines(SplitLines(s))| < |s| else Unlines(SplitLines(s)) == s
    decreases |s|
  {
    if s == "" {
    } else {
      var line, rest := SplitFirst(s);
      FirstLine(line, rest);
      UnlinesRebuilds(rest);
      CrLfInFirstLine(line, rest);
      assert Unlines(SplitLines(s)) == StripCr(line) + "\n" + Unlines(SplitLines(rest));
    }
  }

  lemma CrLfInFirstLine(line: string, rest: string)
    requires '\n' !in line
    ensures HasCrLf(line + "\n" + rest) <==> StripCr(line) != line || HasCrLf(rest)
  {
    var s := line + "\n" + rest;
    if HasCrLf(rest) {
      var i :| 0 < i < |rest| && rest[i] == '\n' && rest[i - 1] == '\r';
      assert s[|line| + 1 + i] == '\n' && s[|line| + i] == '\r';
    }
    if StripCr(line) != line {
      assert s[|line|] == '\n' && s[|line| - 1] == '\r';
    }
    assert forall i :: 0 <= i < |line| ==> s[i] == line[i] && s[i] != '\n';
    if HasCrLf(s) {
      var i :| 0 < i < |s| && s[i] == '\n' && s[i - 1] == '\r';
      assert i == |line| ==> StripCr(line) != line;
      assert i > |line| + 1 ==> s[i] == rest[i - |line| - 1] && s[i - 1] == rest[i - |line| - 2];
    }
  }

  lemma {:induction false} UnlinesConcat(a: seq<string>, b: seq<string>)
    ensures Unlines(a + b) == Unlines(a) + Unlines(b)
  {
    if a == [] {
      assert a + b == b;
    } else {
      assert (a + b)[1..] == a[1..] + b;
      UnlinesConcat(a[1..], b);
    }
  }

  lemma SameHeadAndTail(x: string, a: seq<string>, y: string, b: seq<string>)
    ensures [x] + a == [y] + b <==> x == y && a == b
  {
    assert ([x] + a)[0] == x && ([x] + a)[1..] == a;
    assert ([y] + b)[0] == y && ([y] + b)[1..] == b;
  }

  /** Lines that are written out come back if and only if each is a single line. */
  lemma {:induction false} SplitUnlinesIff(lines: seq<string>)
    ensures SplitLines(Unlines(lines)) == lines <==> forall line <- lines :: '\n' !in line && StripCr(line) == line
  {
    if lines == [] {
      assert SplitLines("") == [];
    } else {
      var line, rest := lines[0], lines[1..];
      SplitUnlinesIff(rest);
      assert Unlines(lines) == line + "\n" + Unlines(rest);
      assert lines == [line] + rest;
      hide SplitLines, Unlines, StripCr;
      if SplitLines(Unlines(lines)) == lines {
        LinesHaveNoBreak(Unlines(lines));
        assert line in lines;
      }
      if '\n' !in line {
        FirstLine(line, Unlines(rest));
        SameHeadAndTail(StripCr(line), SplitLines(Unlines(rest)), line, rest);
      }
    }
  }

  /** Writing the lines of a text out adds at most a final line feed. */
  lemma {:induction false} UnlinesSplitLength(s: string)
    ensures |Unlines(SplitLines(s))| <= |s| + 1
    decreases |s|
  {
    if s == "" {
    } else {
      var k := LineEnd(s);
      if k < |s| {
        UnlinesSplitLength(s[k + 1..]);
        hide StripCr;
        StripCrLength(s[..k]);
      }
    }
  }

  lemma StripCrLength(line: string)
    ensures |StripCr(line)| <= |line|
  {
  }

  // ---------- Substring search ----------

  predicate OccursAt(s: string, pattern: string, i: nat) {
    i + |pattern| <= |s| && s[i..i + |pattern|] == pattern
  }

  /** The position of the first occurrence of `pattern`. */
  lemma OccursOneLater(s: string, pattern: string)
    requires s != ""
    ensures forall i: nat :: i > 0 ==> (OccursAt(s, pattern, i) <==> OccursAt(s[1..], pattern, i - 1))
  {
    forall i: nat | i > 0
      ensures OccursAt(s, pattern, i) <==> OccursAt(s[1..], pattern, i - 1)
    {
      if i + |pattern| <= |s| {
        assert s[1..][i - 1..i - 1 + |pattern|] == s[i..i + |pattern|];
      }
    }
  }

  function Find(s: string, pattern: string): (r: Option<nat>)
    ensures r.Some? ==> OccursAt(s, pattern, r.value) && forall i: nat :: i < r.value ==> !OccursAt(s, pattern, i)
    ensures r.None? ==> forall i: nat :: !OccursAt(s, pattern, i)
  {
    if |s| < |pattern| then None
    else if s[..|pattern|] == pattern then Some(0)
    else
      OccursOneLater(s, pattern);
      assert !OccursAt(s, pattern, 0);
      match Find(s[1..], pattern)
      case None => None
      case Some(k) => Some(k + 1)
  }
}
