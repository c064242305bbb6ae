/** The round trip of a topic as it is stored: a list of blocks of several types. */
module TopicFile {
  import opened Text
  import opened Lines
  import opened SkillText
  import opened SkillRoundTrip
  import opened SkillFile

  /** The text written for a list of blocks. */
  function Materialized(t: SkillTopic, blocks: seq<SkillBlock>): string {
    Rendered(t, OfType(blocks, "section"), OfType(blocks, "fragment"))
  }

  /** One line for each fragment: its content on one line, behind a dash. */
  function DashLines(fragments: seq<SkillBlock>): seq<string> {
    seq(|fragments|, i requires 0 <= i < |fragments| => StripCr("- " + OneLine(fragments[i].content)))
  }

  lemma {:induction false} FragmentLinesAre(fragments: seq<SkillBlock>)
    ensures SplitLines(FragmentLines(fragments)) == DashLines(fragments)
  {
    hide SplitLines, DashLines;
    if fragments == [] {
      NoDashLines();
    } else {
      var front, last := fragments[..|fragments| - 1], fragments[|fragments| - 1];
      FragmentLinesAre(front);
      LastFragmentLine(front, last);
      assert fragments == front + [last];
    }
  }

  lemma NoDashLines()
    ensures SplitLines(FragmentLines([])) == [] == DashLines([])
  {
  }

  lemma LastFragmentLine(front: seq<SkillBlock>, last: SkillBlock)
    ensures SplitLines(FragmentLines(front + [last]))
         == SplitLines(FragmentLines(front)) + [StripCr("- " + OneLine(last.content))]
    ensures DashLines(front + [last]) == DashLines(front) + [StripCr("- " + OneLine(last.content))]
  {
    assert (front + [last])[..|front|] == front;
    FragmentLinesArePlain(front);
    var line := "- " + OneLine(last.content);
    Regroup3(FragmentLines(front), "- ", OneLine(last.content), "\n");
    DashLineIsPlain(line);
    SplitConcat(FragmentLines(front), line + "\n");
    hide SplitLines, OneLine, StripCr;
  }

  /** The parsed sections are the stored ones in order, numbered from zero; all fragments follow as
      one more section, one line each. */
  ghost predicate ReadsAs(parsed: seq<ParsedSection>, sections: seq<SkillBlock>, fragments: seq<SkillBlock>) {
    && |parsed| == |sections| + (if fragments == [] then 0 else 1)
    && (forall i :: 0 <= i < |sections| ==>
          && sections[i].title == Some(parsed[i].title)
          && parsed[i].content == sections[i].content && parsed[i].sortOrder == i)
    && (fragments != [] ==>
          parsed[|sections|] == ParsedSection(FRAGMENTS_TITLE, Trim(Unlines(DashLines(fragments))), |sections|))
  }

  lemma {:induction false} ExpectedAt(blocks: seq<SkillBlock>)
    ensures |ExpectedAll(blocks)| == |blocks|
    ensures forall i :: 0 <= i < |blocks| ==> ExpectedAll(blocks)[i] == Expected(blocks[i])
  {
    if blocks == [] {
    } else {
      ExpectedAt(blocks[..|blocks| - 1]);
    }
  }

  lemma FragmentSectionIs(fragments: seq<SkillBlock>)
    ensures FragmentSections(fragments)
         == if fragments == [] then [] else [Section(FRAGMENTS_TITLE, Trim(Unlines(DashLines(fragments))))]
  {
    FragmentLinesAre(fragments);
    hide SplitLines, FragmentLines, Trim, DashLines;
    var lines := DashLines(fragments);
    UnlinesConcat([""], lines);
    assert [""][1..] == [] && Unlines([""]) == "\n";
    TrimLeadingBreak(Unlines(lines));
  }

  lemma TrimLeadingBreak(s: string)
    ensures Trim("\n" + s) == Trim(s)
  {
    assert IsBlank("\n"[1..]);
    TrimStartSkips("\n", s);
  }

  /** Reading back means just that: the parsed list is the expected one, and titles are present. */
  lemma ReadsAsExpected(parsed: seq<ParsedSection>, sections: seq<SkillBlock>, fragments: seq<SkillBlock>)
    ensures ReadsAs(parsed, sections, fragments)
       <==> && parsed == Numbered(ExpectedAll(sections) + FragmentSections(fragments))
            && forall b <- sections :: b.title.Some?
  {
    ExpectedAt(sections);
    FragmentSectionIs(fragments);
    hide ExpectedAll, FragmentSections, DashLines, Trim, Unlines;
    var all := ExpectedAll(sections) + FragmentSections(fragments);
    if ReadsAs(parsed, sections, fragments) {
      forall i | 0 <= i < |parsed|
        ensures parsed[i] == Numbered(all)[i]
      {
      }
      forall b | b in sections
        ensures b.title.Some?
      {
        var i :| 0 <= i < |sections| && sections[i] == b;
      }
    }
    if parsed == Numbered(all) && forall b <- sections :: b.title.Some? {
      forall i | 0 <= i < |sections|
        ensures sections[i].title == Some(parsed[i].title) && parsed[i].content == sections[i].content
      {
        assert sections[i] in sections;
      }
    }
  }

  /** The round trip of a stored topic, exactly: parsing its stripped file gives back the blocks of
      type "section" in list order with sort orders 0, 1, 2, ..., and then one section with a line
      for each block of type "fragment", if and only if every section block is well formed and no
      front-matter value has a rule with a heading line after it. */
  lemma TopicRoundTrip(t: SkillTopic, blocks: seq<SkillBlock>, sections: seq<SkillBlock>, fragments: seq<SkillBlock>)
    requires PicksType(blocks, sections, "section") && PicksType(blocks, fragments, "fragment")
    ensures ReadsAs(Numbered(SectionsOf(StripFrontmatter(Materialized(t, blocks)))), sections, fragments)
       <==> (forall b <- blocks :: b.blockType == "section" ==> WellFormed(b)) && HidesNoHeading(t)
  {
    PickedIsOfType(blocks, sections, "section");
    PickedIsOfType(blocks, fragments, "fragment");
    PickedAre(blocks, sections, "section");
    var parsed := Numbered(SectionsOf(StripFrontmatter(Materialized(t, blocks))));
    hide PicksType, OfType, Numbered, SectionsOf, StripFrontmatter, Rendered;
    hide ReadsAs, HidesNoHeading, ExpectedAll, FragmentSections;
    RoundTrip(t, sections, fragments);
    ReadsAsExpected(parsed, sections, fragments);
    forall b | b in sections && WellFormed(b)
      ensures b.title.Some?
    {
    }
  }

  lemma PickedAre(blocks: seq<SkillBlock>, kept: seq<SkillBlock>, blockType: string)
    requires PicksType(blocks, kept, blockType)
    ensures forall b :: b in kept <==> b in blocks && b.blockType == blockType
  {
    OfTypeMembers(blocks, blockType);
    PickedIsOfType(blocks, kept, blockType);
  }

  lemma {:induction false} OfTypeMembers(blocks: seq<SkillBlock>, blockType: string)
    ensures forall b :: b in OfType(blocks, blockType) <==> b in blocks && b.blockType == blockType
  {
    if blocks == [] {
    } else {
      OfTypeMembers(blocks[..|blocks| - 1], blockType);
      assert blocks == blocks[..|blocks| - 1] + [blocks[|blocks| - 1]];
    }
  }
}
