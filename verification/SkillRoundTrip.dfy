/** When a materialized skill file reads back as the sections it was written from. */
module SkillRoundTrip {
  import opened Text
  import opened Lines
  import opened SkillText

  // ---------- Reading in pieces ----------

  lemma {:induction false} ReadConcat(r: Reader, a: seq<string>, b: seq<string>)
    ensures ReadLines(r, a + b) == ReadLines(ReadLines(r, a), b)
    decreases |a|
  {
    if a == [] {
      assert a + b == b;
    } else {
      assert (a + b)[1..] == a[1..] + b;
      ReadConcat(ReadLine(r, a[0]), a[1..], b);
    }
  }

  /** Finished sections are only ever appended to. */
  lemma {:induction false} ReadAppends(done: seq<Section>, open: Option<OpenSection>, lines: seq<string>)
    ensures ReadLines(Reader(done, open), lines)
         == Reader(done + ReadLines(Reader([], open), lines).done, ReadLines(Reader([], open), lines).open)
    decreases |lines|
  {
    if lines == [] {
    } else {
      var next, alone := ReadLine(Reader(done, open), lines[0]), ReadLine(Reader([], open), lines[0]);
      assert next == Reader(done + alone.done, alone.open);
      ReadAppends(next.done, next.open, lines[1..]);
      ReadAppends(alone.done, alone.open, lines[1..]);
      var tail := ReadLines(Reader([], alone.open), lines[1..]).done;
      assert (done + alone.done) + tail == done + (alone.done + tail);
    }
  }

  lemma HeadingStartsWithHash(line: string)
    ensures IsHeading(line) ==> line != "" && line[0] == '#'
  {
  }

  /** A heading is one or two hashes followed by a blank. */
  lemma HeadingIff(line: string)
    ensures IsHeading(line)
       <==> || (|line| >= 2 && line[0] == '#' && line[1] == ' ')
            || (|line| >= 3 && line[0] == '#' && line[1] == '#' && line[2] == ' ')
  {
    assert "# " <= line <==> |line| >= 2 && line[..2] == "# ";
    assert "## " <= line <==> |line| >= 3 && line[..3] == "## ";
    assert "### " <= line ==> line[2] == '#';
  }

  predicate IsPlain(line: string) {
    !IsHeading(line) && line != "---"
  }

  predicate AllPlain(lines: seq<string>) {
    forall line <- lines :: IsPlain(line)
  }

  predicate NoHeading(lines: seq<string>) {
    forall line <- lines :: !IsHeading(line)
  }

  lemma {:induction false} ReadPlain(o: OpenSection, lines: seq<string>)
    requires AllPlain(lines)
    ensures ReadLines(Reader([], Some(o)), lines) == Reader([], Some(OpenSection(o.title, o.text + Unlines(lines))))
    decreases |lines|
  {
    if lines == [] {
      assert o.text + Unlines(lines) == o.text;
    } else {
      var o' := OpenSection(o.title, o.text + lines[0] + "\n");
      assert lines[0] in lines;
      assert ReadLine(Reader([], Some(o)), lines[0]) == Reader([], Some(o'));
      ReadPlain(o', lines[1..]);
      assert o'.text + Unlines(lines[1..]) == o.text + (lines[0] + "\n" + Unlines(lines[1..]));
    }
  }

  lemma {:induction false} ReadOutside(lines: seq<string>)
    requires NoHeading(lines)
    ensures ReadLines(START, lines) == START
    decreases |lines|
  {
    if lines == [] {
    } else {
      ReadOutside(lines[1..]);
    }
  }

  // ---------- One written section ----------

  const RULE := ["---", ""]

  /** A written section up to its closing rule. */
  function InnerText(b: SkillBlock): string {
    (match b.title case Some(title) => title + "\n" case None => "")
    + (if b.content != "" then b.content + "\n\n" else "")
  }

  function Inner(b: SkillBlock): seq<string> {
    SplitLines(InnerText(b))
  }

  lemma RuleLines()
    ensures SplitLines("---\n\n") == RULE && SplitLines("\n") == [""]
  {
    FirstLine("", "");
    FirstLine("---", "\n");
    assert "" + "\n" + "" == "\n";
    assert "---" + "\n" + "\n" == "---\n\n";
    assert SplitLines("") == [];
  }

  lemma SectionLines(b: SkillBlock)
    ensures EndsLine(SectionText(b)) && SplitLines(SectionText(b)) == Inner(b) + RULE
  {
    RuleLines();
    hide SplitLines;
    SplitConcat(InnerText(b), "---\n\n");
  }

  /** A section is written as its title line if it has a title, its content and a blank line if it
      is not empty, a rule, and a blank line. */
  lemma SectionTextIsLines(b: SkillBlock)
    ensures SectionText(b)
         == Unlines((match b.title case Some(title) => [title] case None => [])
                    + (if b.content != "" then [b.content, ""] else []) + ["---", ""])
  {
    var head := match b.title case Some(title) => [title] case None => [];
    var body := if b.content != "" then [b.content, ""] else [];
    UnlinesConcat(head + body, ["---", ""]);
    UnlinesConcat(head, body);
    TwoLines("---", "");
    TwoLines(b.content, "");
    hide Unlines;
    if b.title.Some? {
      OneLineOut(b.title.value);
    }
    NoLines();
  }

  lemma TwoLines(a: string, b: string)
    ensures Unlines([a, b]) == a + "\n" + (b + "\n")
  {
    OneLineOut(b);
    assert [a, b][1..] == [b];
  }

  lemma OneLineOut(a: string)
    ensures Unlines([a]) == a + "\n"
  {
    assert [a][1..] == [];
  }

  lemma NoLines()
    ensures Unlines([]) == ""
  {
  }

  /** What reading one written section yields. */
  function Yield(b: SkillBlock): seq<Section> {
    ReadLines(START, Inner(b) + RULE).done
  }

  lemma RuleCloses(r: Reader)
    ensures ReadLines(r, RULE) == Reader(Flushed(r), None)
  {
    HeadingStartsWithHash("---");
    HeadingStartsWithHash("");
    var closed := ReadLine(r, "---");
    assert closed == Reader(Flushed(r), None);
    assert RULE[0] == "---" && RULE[1..] == [""];
    assert ReadLines(r, RULE) == ReadLines(closed, [""]);
    assert [""][1..] == [];
    assert ReadLines(closed, [""]) == ReadLines(ReadLine(closed, ""), []);
  }

  lemma SectionIsClosed(b: SkillBlock)
    ensures ReadLines(START, Inner(b) + RULE) == Reader(Flushed(ReadLines(START, Inner(b))), None)
  {
    ReadConcat(START, Inner(b), RULE);
    RuleCloses(ReadLines(START, Inner(b)));
  }

  function Yields(blocks: seq<SkillBlock>): seq<Section> {
    if blocks == [] then [] else Yields(blocks[..|blocks| - 1]) + Yield(blocks[|blocks| - 1])
  }

  /** Written sections are read independently of each other. */
  lemma {:induction false} SectionsReadApart(blocks: seq<SkillBlock>)
    ensures EndsLine(SectionTexts(blocks))
    ensures ReadLines(START, SplitLines(SectionTexts(blocks))) == Reader(Yields(blocks), None)
  {
    if blocks != [] {
      var front, b := blocks[..|blocks| - 1], blocks[|blocks| - 1];
      SectionsReadApart(front);
      SectionLines(b);
      SplitConcat(SectionTexts(front), SectionText(b));
      ReadConcat(START, SplitLines(SectionTexts(front)), SplitLines(SectionText(b)));
      ReadAppends(Yields(front), None, Inner(b) + RULE);
      SectionIsClosed(b);
    } else {
      assert SplitLines("") == [];
    }
  }

  // ---------- Well-formed sections ----------

  /** What a caller can check of a block: its title is one heading line, its content is
      trimmed, uses plain line feeds, and has no line that reads as heading or rule. */
  predicate WellFormed(b: SkillBlock) {
    && b.title.Some?
    && IsHeading(b.title.value) && '\n' !in b.title.value && StripCr(b.title.value) == b.title.value
    && IsTrimmed(b.content)
    && !HasCrLf(b.content)
    && AllPlain(SplitLines(b.content))
  }

  predicate ReadsBack(b: SkillBlock) {
    b.title.Some? && Yield(b) == [Section(b.title.value, b.content)]
  }

  lemma HeadingKeepsCr(title: string)
    requires IsHeading(title)
    ensures IsHeading(StripCr(title))
  {
    var t := StripCr(title);
    if t != title {
      assert title == t + ['\r'];
      assert "# " <= title ==> title[..2] == "# ";
      assert "## " <= title ==> title[..3] == "## ";
      assert |title| > 2 && |t| >= 2;
      assert "## " <= title ==> title[2] == ' ';
    }
  }

  /** The lines of a section whose title is a single line. */
  lemma TitledLines(b: SkillBlock)
    requires b.title.Some? && '\n' !in b.title.value
    ensures Inner(b) == [StripCr(b.title.value)] + (if b.content == "" then [] else SplitLines(b.content + "\n\n"))
  {
    var rest := if b.content != "" then b.content + "\n\n" else "";
    FirstLine(b.title.value, rest);
    assert SplitLines("") == [];
  }

  lemma ContentLines(content: string)
    requires content != "" && IsTrimmed(content)
    ensures SplitLines(content + "\n\n") == SplitLines(content) + [""]
    ensures EndsLine(content + "\n") && SplitLines(content + "\n") == SplitLines(content)
    ensures HasCrLf(content + "\n") == HasCrLf(content)
  {
    RuleLines();
    hide SplitLines;
    LastLineOpen(content);
    SplitConcat(content + "\n", "\n");
    assert content + "\n\n" == (content + "\n") + "\n";
    var s := content + "\n";
    assert forall i :: 0 <= i < |content| ==> s[i] == content[i];
  }

  /** Ending the last line of a text that does not end in a line ending changes no line. */
  lemma {:induction false} LastLineOpen(s: string)
    requires s != "" && s[|s| - 1] != '\n' && s[|s| - 1] != '\r'
    ensures SplitLines(s + "\n") == SplitLines(s)
    decreases |s|
  {
    var k := LineEnd(s);
    if k == |s| {
      assert s[..k] == s;
      FirstLine(s, "");
      assert s + "\n" + "" == s + "\n";
    } else {
      var line, rest := s[..k], s[k + 1..];
      assert s == line + "\n" + rest;
      assert rest != "" && rest[|rest| - 1] == s[|s| - 1];
      FirstLine(line, rest + "\n");
      assert s + "\n" == line + "\n" + (rest + "\n");
      LastLineOpen(rest);
    }
  }

  /** Reading a titled section: the title line opens it, the content lines follow. */
  lemma ReadTitled(b: SkillBlock)
    requires b.title.Some? && IsHeading(b.title.value) && '\n' !in b.title.value
    ensures var o := OpenSection(StripCr(b.title.value), "");
            Yield(b)
            == Flushed(ReadLines(Reader([], Some(o)), if b.content == "" then [] else SplitLines(b.content + "\n\n")))
  {
    hide SplitLines;
    var t := StripCr(b.title.value);
    var ls := if b.content == "" then [] else SplitLines(b.content + "\n\n");
    HeadingKeepsCr(b.title.value);
    TitledLines(b);
    SectionIsClosed(b);
    assert ([t] + ls)[0] == t && ([t] + ls)[1..] == ls;
    assert ReadLine(START, t) == Reader([], Some(OpenSection(t, "")));
  }

  lemma WellFormedReadsBack(b: SkillBlock)
    requires WellFormed(b)
    ensures ReadsBack(b)
  {
    var t, c := b.title.value, b.content;
    ReadTitled(b);
    if c != "" {
      ContentLines(c);
      UnlinesRebuilds(c + "\n");
      TextOfContent(c);
      hide SplitLines, Trim;
      HeadingStartsWithHash("");
      ReadPlain(OpenSection(t, ""), SplitLines(c) + [""]);
      assert "" + (c + "\n\n") == c + "\n\n";
    }
  }

  lemma TextOfContent(c: string)
    requires IsTrimmed(c)
    requires Unlines(SplitLines(c)) == c + "\n"
    ensures Unlines(SplitLines(c) + [""]) == c + "\n\n" && Trim(c + "\n\n") == c
  {
    UnlinesConcat(SplitLines(c), [""]);
    assert [""][1..] == [];
    TrimPadded("", c, "\n\n");
    assert "" + c + "\n\n" == c + "\n\n";
  }

  // ---------- Only well-formed sections read back ----------

  predicate IsReadable(s: Section) {
    IsHeading(s.title) && '\n' !in s.title && IsTrimmed(s.content)
  }

  /** Whatever is read has single-line headings as titles and trimmed contents. */
  lemma {:induction false} ReadYieldsReadable(r: Reader, lines: seq<string>)
    requires forall s <- r.done :: IsReadable(s)
    requires r.open.Some? ==> IsHeading(r.open.value.title) && '\n' !in r.open.value.title
    requires forall line <- lines :: '\n' !in line
    ensures forall s <- Flushed(ReadLines(r, lines)) :: IsReadable(s)
    decreases |lines|
  {
    if r.open.Some? {
      TrimIsTrimmed(r.open.value.text);
    }
    if lines == [] {
    } else {
      assert lines[0] in lines;
      ReadYieldsReadable(ReadLine(r, lines[0]), lines[1..]);
    }
  }

  /** Once a section is open, at least that section is read. A further heading makes it at
      least two, and a rule cuts its text short. */
  lemma {:induction false} OpenSectionIsRead(o: OpenSection, lines: seq<string>)
    ensures var read := Flushed(ReadLines(Reader([], Some(o)), lines));
            && |read| >= 1 && read[0].title == o.title
            && (!NoHeading(lines) ==> |read| >= 2)
            && (NoHeading(lines) && !AllPlain(lines) ==> |read[0].content| + 4 <= |o.text| + |Unlines(lines)|)
    decreases |lines|
  {
    if lines == [] {
    } else {
      assert lines[0] in lines;
      var r := Reader([], Some(o));
      if IsHeading(lines[0]) {
        var next := OpenSection(lines[0], "");
        assert ReadLine(r, lines[0]) == Reader([Close(o)], Some(next));
        ReadAppends([Close(o)], Some(next), lines[1..]);
        OpenSectionIsRead(next, lines[1..]);
      } else if lines[0] == "---" {
        assert ReadLine(r, lines[0]) == Reader([Close(o)], None);
        ReadAppends([Close(o)], None, lines[1..]);
        TrimIsTrimmed(o.text);
        if NoHeading(lines) {
          ReadOutside(lines[1..]);
        } else {
          HeadingIsRead(lines[1..]);
        }
      } else {
        OpenSectionIsRead(OpenSection(o.title, o.text + lines[0] + "\n"), lines[1..]);
      }
    }
  }

  lemma {:induction false} HeadingIsRead(lines: seq<string>)
    requires !NoHeading(lines)
    ensures |Flushed(ReadLines(START, lines))| >= 1
    decreases |lines|
  {
    if IsHeading(lines[0]) {
      OpenSectionIsRead(OpenSection(lines[0], ""), lines[1..]);
    } else {
      HeadingIsRead(lines[1..]);
    }
  }

  lemma UnlinesEndsLine(lines: seq<string>) returns (text: string)
    requires lines != []
    ensures Unlines(lines) == text + "\n"
  {
    var front, last := lines[..|lines| - 1], lines[|lines| - 1];
    assert lines == front + [last];
    UnlinesConcat(front, [last]);
    assert [last][1..] == [];
    text := Unlines(front) + last;
  }

  /** A content that comes back has only plain lines and plain line feeds. */
  lemma ContentComesBack(o: OpenSection, c: string)
    requires c != "" && IsTrimmed(c) && o.text == ""
    requires Flushed(ReadLines(Reader([], Some(o)), SplitLines(c + "\n\n"))) == [Section(o.title, c)]
    ensures AllPlain(SplitLines(c)) && !HasCrLf(c)
  {
    ContentLines(c);
    UnlinesRebuilds(c + "\n");
    var lines := SplitLines(c) + [""];
    UnlinesConcat(SplitLines(c), [""]);
    assert [""][1..] == [] && Unlines([""]) == "\n";
    assert SplitLines(c) != [];
    hide SplitLines, Trim;
    OpenSectionIsRead(o, lines);
    assert AllPlain(lines);
    assert forall line <- SplitLines(c) :: line in lines;
    ReadPlain(o, lines);
    var text := UnlinesEndsLine(SplitLines(c));
    TrimDropsTail(text, "\n\n");
    assert o.text + Unlines(lines) == text + "\n\n";
  }

  lemma YieldIsReadable(b: SkillBlock)
    ensures forall s <- Yield(b) :: IsReadable(s)
  {
    LinesHaveNoBreak(InnerText(b));
    SectionIsClosed(b);
    ReadYieldsReadable(START, Inner(b));
  }

  /** The exact condition: a written section reads back as itself if and only if it is well formed. */
  lemma ReadsBackIffWellFormed(b: SkillBlock)
    ensures ReadsBack(b) <==> WellFormed(b)
  {
    if WellFormed(b) {
      WellFormedReadsBack(b);
    }
    if ReadsBack(b) {
      ReadsBackWellFormed(b);
    }
  }

  lemma ReadsBackWellFormed(b: SkillBlock)
    requires ReadsBack(b)
    ensures WellFormed(b)
  {
    YieldIsReadable(b);
    var s := Section(b.title.value, b.content);
    assert Yield(b)[0] == s && s in Yield(b);
    hide Yield, IsHeading, ReadLines;
    ReadTitled(b);
    var o := OpenSection(StripCr(b.title.value), "");
    var lines := if b.content == "" then [] else SplitLines(b.content + "\n\n");
    OpenSectionIsRead(o, lines);
    var read := Flushed(ReadLines(Reader([], Some(o)), lines));
    assert read == [s] && read[0].title == o.title;
    if b.content != "" {
      ContentComesBack(o, b.content);
    } else {
      assert SplitLines("") == [];
    }
  }
}
