/** The round trip of a whole skill file: front matter, sections and fragments. */
module SkillFile {
  import opened Text
  import opened Lines
  import opened SkillText
  import opened SkillRoundTrip

  // ---------- Sections ----------

  function Expected(b: SkillBlock): Section {
    Section(match b.title case Some(title) => title case None => "", b.content)
  }

  function ExpectedAll(blocks: seq<SkillBlock>): seq<Section> {
    if blocks == [] then [] else ExpectedAll(blocks[..|blocks| - 1]) + [Expected(blocks[|blocks| - 1])]
  }

  predicate AllWellFormed(blocks: seq<SkillBlock>) {
    blocks == [] || (AllWellFormed(blocks[..|blocks| - 1]) && WellFormed(blocks[|blocks| - 1]))
  }

  lemma {:induction false} AllWellFormedMeansEach(blocks: seq<SkillBlock>)
    ensures AllWellFormed(blocks) <==> forall b <- blocks :: WellFormed(b)
  {
    if blocks == [] {
    } else {
      AllWellFormedMeansEach(blocks[..|blocks| - 1]);
      assert forall b :: b in blocks <==> b in blocks[..|blocks| - 1] || b == blocks[|blocks| - 1];
    }
  }

  lemma {:induction false} YieldsAreReadable(blocks: seq<SkillBlock>)
    ensures forall s <- Yields(blocks) :: IsReadable(s)
  {
    if blocks == [] {
    } else {
      YieldsAreReadable(blocks[..|blocks| - 1]);
      YieldIsReadable(blocks[|blocks| - 1]);
    }
  }

  lemma {:induction false} ExpectedLength(blocks: seq<SkillBlock>)
    ensures |ExpectedAll(blocks)| == |blocks|
  {
    if blocks == [] {
    } else {
      ExpectedLength(blocks[..|blocks| - 1]);
    }
  }

  lemma HeadedYields(b: SkillBlock)
    requires IsReadable(Expected(b))
    ensures |Yield(b)| >= 1
  {
    ReadTitled(b);
    OpenSectionIsRead(OpenSection(StripCr(b.title.value), ""),
                      if b.content == "" then [] else SplitLines(b.content + "\n\n"));
  }

  lemma {:induction false} HeadedSectionsYield(blocks: seq<SkillBlock>)
    requires forall s <- ExpectedAll(blocks) :: IsReadable(s)
    ensures |Yields(blocks)| >= |blocks|
  {
    if blocks == [] {
    } else {
      var front, last := blocks[..|blocks| - 1], blocks[|blocks| - 1];
      assert forall s <- ExpectedAll(front) :: s in ExpectedAll(blocks);
      assert Expected(last) in ExpectedAll(blocks);
      HeadedSectionsYield(front);
      HeadedYields(last);
    }
  }

  /** The written sections read back as themselves if and only if each is well formed. */
  lemma {:induction false} SectionsReadBackIffWellFormed(blocks: seq<SkillBlock>)
    ensures Yields(blocks) == ExpectedAll(blocks) <==> AllWellFormed(blocks)
  {
    if blocks == [] {
    } else {
      var front, last := blocks[..|blocks| - 1], blocks[|blocks| - 1];
      SectionsReadBackIffWellFormed(front);
      ReadsBackIffWellFormed(last);
      if Yields(blocks) == ExpectedAll(blocks) {
        LastYieldIsLast(front, last);
      }
    }
  }

  lemma LastYieldIsLast(front: seq<SkillBlock>, last: SkillBlock)
    requires Yields(front) + Yield(last) == ExpectedAll(front) + [Expected(last)]
    ensures Yields(front) == ExpectedAll(front) && ReadsBack(last)
  {
    var all := Yields(front) + Yield(last);
    YieldsAreReadable(front);
    YieldIsReadable(last);
    assert forall s <- all :: IsReadable(s);
    assert forall s <- ExpectedAll(front) :: s in all;
    assert Expected(last) in all;
    HeadedSectionsYield(front);
    HeadedYields(last);
    ExpectedLength(front);
    assert all[..|front|] == Yields(front) && all[..|front|] == ExpectedAll(front);
    assert all[|front|..] == Yield(last) && all[|front|..] == [Expected(last)];
  }

  // ---------- Fragments ----------

  /** All fragments come back as the content of one section. */
  function FragmentSections(fragments: seq<SkillBlock>): seq<Section> {
    if fragments == [] then []
    else [Section(FRAGMENTS_TITLE, Trim(Unlines([""] + SplitLines(FragmentLines(fragments)))))]
  }

  lemma {:induction false} FragmentLinesArePlain(fragments: seq<SkillBlock>)
    ensures EndsLine(FragmentLines(fragments)) && AllPlain(SplitLines(FragmentLines(fragments)))
  {
    if fragments == [] {
      assert SplitLines("") == [];
    } else {
      var front, last := fragments[..|fragments| - 1], fragments[|fragments| - 1];
      FragmentLinesArePlain(front);
      hide SplitLines;
      var line := "- " + OneLine(last.content);
      Regroup3(FragmentLines(front), "- ", OneLine(last.content), "\n");
      SplitConcat(FragmentLines(front), line + "\n");
      DashLineIsPlain(line);
    }
  }

  lemma Regroup3(a: string, b: string, c: string, d: string)
    ensures a + b + c + d == a + (b + c + d)
  {
  }

  lemma DashLineIsPlain(line: string)
    requires |line| >= 2 && line[0] == '-' && line[1] == ' ' && '\n' !in line
    ensures SplitLines(line + "\n") == [StripCr(line)] && IsPlain(StripCr(line))
  {
    FirstLine(line, "");
    assert line + "\n" + "" == line + "\n" && SplitLines("") == [];
    HeadingStartsWithHash(StripCr(line));
    assert "---"[1] == '-';
  }

  lemma FragmentsTitleIsHeading()
    ensures IsHeading(FRAGMENTS_TITLE) && '\n' !in FRAGMENTS_TITLE && StripCr(FRAGMENTS_TITLE) == FRAGMENTS_TITLE
  {
    assert FRAGMENTS_TITLE[..3] == "## " && FRAGMENTS_TITLE[2] == ' ';
  }

  lemma FragmentsTextLines(tail: string)
    ensures SplitLines(FRAGMENTS_TITLE + "\n\n" + tail) == [FRAGMENTS_TITLE] + ([""] + SplitLines(tail))
  {
    FragmentsTitleIsHeading();
    hide SplitLines;
    assert FRAGMENTS_TITLE + "\n\n" + tail == FRAGMENTS_TITLE + "\n" + ("\n" + tail);
    assert "\n" + tail == "" + "\n" + tail;
    FirstLine("", tail);
    FirstLine(FRAGMENTS_TITLE, "\n" + tail);
  }

  lemma FragmentsRead(fragments: seq<SkillBlock>)
    ensures Flushed(ReadLines(START, SplitLines(FragmentsText(fragments)))) == FragmentSections(fragments)
  {
    if fragments == [] {
      assert SplitLines("") == [];
    } else {
      var lines := [""] + SplitLines(FragmentLines(fragments));
      FragmentsTextLines(FragmentLines(fragments));
      FragmentLinesArePlain(fragments);
      FragmentsTitleIsHeading();
      HeadingStartsWithHash("");
      assert AllPlain(lines);
      hide SplitLines, FragmentLines, IsHeading, Trim;
      TitledTextRead(FRAGMENTS_TITLE, lines);
    }
  }

  lemma TitledTextRead(title: string, lines: seq<string>)
    requires IsHeading(title) && AllPlain(lines)
    ensures Flushed(ReadLines(START, [title] + lines)) == [Section(title, Trim(Unlines(lines)))]
  {
    var o := OpenSection(title, "");
    ReadPlain(o, lines);
    assert ([title] + lines)[1..] == lines;
    assert ReadLine(START, title) == Reader([], Some(o));
    assert "" + Unlines(lines) == Unlines(lines);
  }

  // ---------- Front matter ----------

  /** Everything after the opening rule up to the closing one. */
  function FrontmatterBody(t: SkillTopic): string {
    "\n" + FrontmatterFields(t)
  }

  /** What front matter is left in the text after stripping: nothing, unless a value contains
      the rule itself. */
  function Leftover(t: SkillTopic): Option<string> {
    match Find(FrontmatterBody(t), "---")
    case None => None
    case Some(k) => Some(FrontmatterBody(t)[k + 3..])
  }

  lemma FieldsEndLine(t: SkillTopic)
    ensures FrontmatterBody(t)[|FrontmatterBody(t)| - 1] == '\n'
  {
    assert EndsLine(Field("name", Some(t.topic))) && EndsLine(Field("description", t.description));
    assert EndsLine(Field("allowed-tools", t.allowedTools)) && EndsLine(Field("aka", AkaField(t)));
  }

  /** A pattern without line feeds does not overlap the end of a text that ends a line. */
  lemma PatternStaysInside(g: string, tail: string, p: string, i: nat)
    requires g != "" && g[|g| - 1] == '\n' && '\n' !in p && i < |g|
    ensures OccursAt(g + tail, p, i) <==> OccursAt(g, p, i)
  {
    var s := g + tail;
    if i + |p| <= |g| {
      assert s[i..i + |p|] == g[i..i + |p|];
    } else {
      assert i + |p| <= |s| ==> s[i..i + |p|][|g| - 1 - i] == s[|g| - 1] == '\n';
    }
  }

  lemma FindIs(s: string, p: string, k: nat)
    requires OccursAt(s, p, k) && forall i: nat :: i < k ==> !OccursAt(s, p, i)
    ensures Find(s, p) == Some(k)
  {
    hide OccursAt;
  }

  lemma FirstPattern(g: string, tail: string, p: string)
    requires g != "" && g[|g| - 1] == '\n' && p != "" && '\n' !in p && p <= tail
    ensures Find(g + tail, p) == match Find(g, p) case None => Some(|g|) case Some(i) => Some(i)
  {
    var s := g + tail;
    assert OccursAt(s, p, |g|) by {
      assert s[|g|..|g| + |p|] == tail[..|p|];
    }
    assert forall i: nat :: OccursAt(g, p, i) ==> i < |g|;
    hide OccursAt;
    forall i: nat | i < |g|
      ensures OccursAt(s, p, i) <==> OccursAt(g, p, i)
    {
      PatternStaysInside(g, tail, p, i);
    }
    match Find(g, p)
    case None => FindIs(s, p, |g|);
    case Some(i) => FindIs(s, p, i);
  }

  /** Stripping ends at the first rule: the closing one, or an earlier one inside a value. */
  lemma StripRendered(t: SkillTopic, rest: string)
    ensures StripFrontmatter("---\n" + FrontmatterFields(t) + "---\n\n" + rest)
         == match Leftover(t) case None => "\n\n" + rest case Some(left) => left + ("---\n\n" + rest)
    ensures Leftover(t).Some? ==> EndsLine(Leftover(t).value)
  {
    hide *;
    var g, tail := FrontmatterBody(t), "---\n\n" + rest;
    BodyAndLeftover(t);
    FieldsEndLine(t);
    ClosingRule(rest);
    FirstPattern(g, tail, "---");
    StripAfterRule(g, tail);
    OpeningRule(FrontmatterFields(t), rest);
  }

  lemma BodyAndLeftover(t: SkillTopic)
    ensures FrontmatterBody(t) == "\n" + FrontmatterFields(t)
    ensures match Find(FrontmatterBody(t), "---")
            case None => Leftover(t) == None
            case Some(k) => k + 3 <= |FrontmatterBody(t)| && Leftover(t) == Some(FrontmatterBody(t)[k + 3..])
  {
    hide FrontmatterFields, Find;
    if Find(FrontmatterBody(t), "---").Some? {
      assert OccursAt(FrontmatterBody(t), "---", Find(FrontmatterBody(t), "---").value);
    }
  }

  lemma ClosingRule(rest: string)
    ensures var tail := "---\n\n" + rest; "---" <= tail && tail[3..] == "\n\n" + rest
  {
    assert ("---\n\n" + rest)[..3] == "---";
  }

  lemma OpeningRule(fields: string, rest: string)
    ensures "---\n" + fields + "---\n\n" + rest == "---" + (("\n" + fields) + ("---\n\n" + rest))
  {
    assert "---\n" == "---" + "\n";
    Regroup("---", "\n", fields, "---\n\n", rest);
  }

  lemma Regroup(a: string, b: string, c: string, d: string, e: string)
    ensures (a + b) + c + d + e == a + ((b + c) + (d + e))
  {
  }

  lemma RuleThen(rest: string)
    ensures StripFrontmatter("---" + rest)
         == match Find(rest, "---") case None => "---" + rest case Some(end) => rest[end + 3..]
  {
    var content := "---" + rest;
    assert content[0] == '-' && TrimStart(content) == content;
    assert content[..3] == "---" && content[3..] == rest;
  }

  lemma StripAfterRule(g: string, tail: string)
    requires g != "" && g[|g| - 1] == '\n' && "---" <= tail
    requires Find(g + tail, "---") == match Find(g, "---") case None => Some(|g|) case Some(i) => Some(i)
    ensures StripFrontmatter("---" + (g + tail))
         == match Find(g, "---") case None => tail[3..] case Some(i) => g[i + 3..] + tail
    ensures Find(g, "---").Some? ==> EndsLine(g[Find(g, "---").value + 3..])
  {
    hide Find, StripFrontmatter;
    RuleThen(g + tail);
    match Find(g, "---")
    case None =>
      assert (g + tail)[|g| + 3..] == tail[3..];
    case Some(i) =>
      assert OccursAt(g, "---", i);
      assert (g + tail)[i + 3..] == g[i + 3..] + tail;
  }

  // ---------- The whole file ----------

  lemma BlankHead()
    ensures EndsLine("\n\n") && ReadLines(START, SplitLines("\n\n")) == START
  {
    RuleLines();
    hide SplitLines, ReadLines;
    FirstLine("", "\n");
    assert "" + "\n" + "\n" == "\n\n";
    assert SplitLines("\n\n") == ["", ""];
    HeadingStartsWithHash("");
    ReadOutside(["", ""]);
  }

  lemma RuledHead(left: string) returns (done: seq<Section>)
    requires EndsLine(left)
    ensures EndsLine(left + "---\n\n") && ReadLines(START, SplitLines(left + "---\n\n")) == Reader(done, None)
    ensures done == [] <==> NoHeading(SplitLines(left))
  {
    RuleLines();
    hide SplitLines;
    SplitConcat(left, "---\n\n");
    var lines := SplitLines(left);
    ReadConcat(START, lines, RULE);
    RuleCloses(ReadLines(START, lines));
    done := Flushed(ReadLines(START, lines));
    if NoHeading(lines) {
      ReadOutside(lines);
    } else {
      HeadingIsRead(lines);
    }
  }

  predicate HidesNoHeading(t: SkillTopic) {
    Leftover(t).Some? ==> NoHeading(SplitLines(Leftover(t).value))
  }

  /** What stripping leaves before the sections ends a line and leaves no section open. */
  lemma HeadIsClosed(t: SkillTopic, rest: string) returns (head: string, done: seq<Section>)
    ensures EndsLine(head) && StripFrontmatter("---\n" + FrontmatterFields(t) + "---\n\n" + rest) == head + rest
    ensures ReadLines(START, SplitLines(head)) == Reader(done, None)
    ensures done == [] <==> HidesNoHeading(t)
  {
    hide StripFrontmatter, SplitLines, ReadLines, Leftover, FrontmatterFields, EndsLine;
    StripRendered(t, rest);
    match Leftover(t) {
      case None =>
        head, done := "\n\n", [];
        BlankHead();
      case Some(left) =>
        head := left + "---\n\n";
        done := RuledHead(left);
        assert head + rest == left + ("---\n\n" + rest);
    }
  }

  /** A skill file is read as: sections hidden in broken front matter, then what each written
      section yields, then one section for all fragments. */
  lemma FileReads(t: SkillTopic, sections: seq<SkillBlock>, fragments: seq<SkillBlock>) returns (done: seq<Section>)
    ensures SectionsOf(StripFrontmatter(Rendered(t, sections, fragments)))
         == done + Yields(sections) + FragmentSections(fragments)
    ensures done == [] <==> HidesNoHeading(t)
  {
    var rest := SectionTexts(sections) + FragmentsText(fragments);
    hide SplitLines, ReadLines, StripFrontmatter, FrontmatterFields, SectionTexts, FragmentsText, HidesNoHeading;
    var head;
    head, done := HeadIsClosed(t, rest);
    assert Rendered(t, sections, fragments) == "---\n" + FrontmatterFields(t) + "---\n\n" + rest;
    SectionsReadApart(sections);
    FragmentsRead(fragments);
    ReadThreeParts(head, SectionTexts(sections), FragmentsText(fragments), done, Yields(sections));
  }

  lemma ReadThreeParts(head: string, middle: string, tail: string, done: seq<Section>, more: seq<Section>)
    requires EndsLine(head) && EndsLine(middle)
    requires ReadLines(START, SplitLines(head)) == Reader(done, None)
    requires ReadLines(START, SplitLines(middle)) == Reader(more, None)
    ensures SectionsOf(head + (middle + tail)) == done + more + SectionsOf(tail)
  {
    hide SplitLines, ReadLines;
    SplitConcat(head, middle + tail);
    SplitConcat(middle, tail);
    ReadConcat(START, SplitLines(head), SplitLines(middle) + SplitLines(tail));
    ReadConcat(Reader(done, None), SplitLines(middle), SplitLines(tail));
    ReadAppends(done, None, SplitLines(middle));
    ReadAppends(done + more, None, SplitLines(tail));
  }

  lemma NumberedInjective(a: seq<Section>, b: seq<Section>)
    requires Numbered(a) == Numbered(b)
    ensures a == b
  {
    assert |a| == |Numbered(a)| == |b|;
    forall i | 0 <= i < |a|
      ensures a[i] == b[i]
    {
      assert Numbered(a)[i] == ParsedSection(a[i].title, a[i].content, i);
      assert Numbered(b)[i] == ParsedSection(b[i].title, b[i].content, i);
    }
  }

  /** Print/parse round trip, exactly: stripping and parsing a materialized topic gives back
      its sections with sort orders 0, 1, 2, ... (and one section holding all fragments) if and
      only if every section is well formed and no front-matter value has a rule with a heading
      line after it. */
  lemma RoundTrip(t: SkillTopic, sections: seq<SkillBlock>, fragments: seq<SkillBlock>)
    ensures Numbered(SectionsOf(StripFrontmatter(Rendered(t, sections, fragments))))
         == Numbered(ExpectedAll(sections) + FragmentSections(fragments))
       <==> (forall b <- sections :: WellFormed(b)) && HidesNoHeading(t)
  {
    var done := FileReads(t, sections, fragments);
    var read, want, tail := done + Yields(sections), ExpectedAll(sections), FragmentSections(fragments);
    SectionsReadBackIffWellFormed(sections);
    AllWellFormedMeansEach(sections);
    hide SectionsOf, Numbered, FragmentSections, Yields, ExpectedAll, WellFormed, HidesNoHeading;
    if done == [] {
      assert read == Yields(sections);
    }
    if Numbered(read + tail) == Numbered(want + tail) {
      NumberedInjective(read + tail, want + tail);
      assert |read| == |want|;
      assert read == (read + tail)[..|read|] == want;
      ReadableYieldsFill(t, sections, done, fragments);
    }
  }

  lemma ReadableYieldsFill(t: SkillTopic, sections: seq<SkillBlock>, done: seq<Section>, fragments: seq<SkillBlock>)
    requires done + Yields(sections) == ExpectedAll(sections)
    requires SectionsOf(StripFrontmatter(Rendered(t, sections, fragments)))
         == done + Yields(sections) + FragmentSections(fragments)
    ensures done == []
  {
    var text := StripFrontmatter(Rendered(t, sections, fragments));
    LinesHaveNoBreak(text);
    ReadYieldsReadable(START, SplitLines(text));
    forall s | s in ExpectedAll(sections)
      ensures IsReadable(s)
    {
      assert s in SectionsOf(text);
    }
    HeadedSectionsYield(sections);
    ExpectedLength(sections);
  }
}
