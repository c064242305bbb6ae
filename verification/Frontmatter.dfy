/** The front matter of a skill file: taking it out, taking it off, and what was written into it. */
module Frontmatter {
  import opened Text
  import opened Lines
  import opened SkillText
  import opened SkillFile

  /** The text between the first two rules, if the file starts with a rule and has another. */
  function ExtractFrontmatter(content: string): Option<string> {
    var trimmed := TrimStart(content);
    if !("---" <= trimmed) then None
    else
      var afterFirst := trimmed[3..];
      match Find(afterFirst, "---")
      case None => None
      case Some(end) => Some(afterFirst[..end])
  }

  /** The text is blank space, a rule, the front matter, the next rule after it, and the body. */
  ghost predicate IsSplit(content: string, lead: string, frontmatter: string, body: string) {
    && content == lead + ("---" + (frontmatter + ("---" + body)))
    && IsBlank(lead) && Find(frontmatter + ("---" + body), "---") == Some(|frontmatter|)
  }

  /** Extracting and stripping cut a text at its first two rules, and leave nothing else out. */
  lemma ExtractedIsSplit(content: string) returns (lead: string)
    ensures match ExtractFrontmatter(content)
            case None => StripFrontmatter(content) == content
            case Some(frontmatter) => IsSplit(content, lead, frontmatter, StripFrontmatter(content))
  {
    lead := TrimStartSplit(content);
    var trimmed := TrimStart(content);
    hide TrimStart, IsBlank, Find;
    if "---" <= trimmed {
      var afterFirst := trimmed[3..];
      assert trimmed == "---" + afterFirst;
      match Find(afterFirst, "---")
      case None =>
      case Some(end) =>
        assert OccursAt(afterFirst, "---", end);
        assert afterFirst == afterFirst[..end] + ("---" + afterFirst[end + 3..]);
    }
  }

  /** And whatever is cut that way comes apart that way. */
  lemma SplitIsExtracted(content: string, lead: string, frontmatter: string, body: string)
    requires IsSplit(content, lead, frontmatter, body)
    ensures ExtractFrontmatter(content) == Some(frontmatter) && StripFrontmatter(content) == body
  {
    var afterFirst := frontmatter + ("---" + body);
    var trimmed := "---" + afterFirst;
    TrimStartSkips(lead, trimmed);
    assert trimmed[0] == '-' && TrimStart(trimmed) == trimmed;
    hide TrimStart, IsBlank, Find;
    assert trimmed[..3] == "---" && trimmed[3..] == afterFirst;
    assert afterFirst[..|frontmatter|] == frontmatter;
    assert afterFirst[|frontmatter| + 3..] == body;
  }

  // ---------- What was written into it ----------

  /** One line for each field that is present. */
  function FieldLines(t: SkillTopic): seq<string> {
    ["name: " + t.topic]
    + (if t.description.Some? then ["description: " + t.description.value] else [])
    + (if t.allowedTools.Some? then ["allowed-tools: " + t.allowedTools.value] else [])
    + AkaLines(t)
  }

  lemma FieldLine(name: string, value: Option<string>)
    ensures Field(name, value) == Unlines(if value.Some? then [name + ": " + value.value] else [])
  {
    assert value.Some? ==> [name + ": " + value.value][1..] == [];
  }

  function AkaLines(t: SkillTopic): seq<string> {
    if t.aka.Some? && t.aka.value != [] then ["aka: [" + Join(t.aka.value, ", ") + "]"] else []
  }

  lemma AkaLine(t: SkillTopic)
    ensures Field("aka", AkaField(t)) == Unlines(AkaLines(t))
  {
    FieldLine("aka", AkaField(t));
    hide Join;
    if t.aka.Some? && t.aka.value != [] {
      var aliases := Join(t.aka.value, ", ");
      assert "aka" + ": " + ("[" + aliases + "]") == "aka: [" + aliases + "]";
    }
  }

  lemma BodyIsFieldLines(t: SkillTopic)
    ensures FrontmatterBody(t) == Unlines([""] + FieldLines(t))
  {
    FieldLine("name", Some(t.topic));
    FieldLine("description", t.description);
    FieldLine("allowed-tools", t.allowedTools);
    AkaLine(t);
    var a := ["name: " + t.topic];
    assert "name" + ": " + t.topic == "name: " + t.topic;
    var b := if t.description.Some? then ["description: " + t.description.value] else [];
    assert t.description.Some? ==> "description" + ": " + t.description.value == "description: " + t.description.value;
    var c := if t.allowedTools.Some? then ["allowed-tools: " + t.allowedTools.value] else [];
    assert t.allowedTools.Some? ==>
        "allowed-tools" + ": " + t.allowedTools.value == "allowed-tools: " + t.allowedTools.value;
    var d := AkaLines(t);
    hide Field, Unlines, AkaLines, AkaField;
    UnlinesConcat(a + b + c, d);
    UnlinesConcat(a + b, c);
    UnlinesConcat(a, b);
    UnlinesConcat([""], a + b + c + d);
    BlankLine();
  }

  lemma BlankLine()
    ensures Unlines([""]) == "\n"
  {
    assert [""][1..] == [];
  }

  /** What is extracted from a written file: everything written, unless a value holds a rule. */
  lemma ExtractRendered(t: SkillTopic, sections: seq<SkillBlock>, fragments: seq<SkillBlock>)
    ensures ExtractFrontmatter(Rendered(t, sections, fragments))
         == match Find(FrontmatterBody(t), "---")
            case None => Some(FrontmatterBody(t))
            case Some(k) => Some(FrontmatterBody(t)[..k])
  {
    var rest := SectionTexts(sections) + FragmentsText(fragments);
    hide *;
    var g, tail := FrontmatterBody(t), "---\n\n" + rest;
    FieldsEndLine(t);
    ClosingRule(rest);
    RenderedParts(t, sections, fragments);
    FirstPattern(g, tail, "---");
    ExtractAfterRule(g + tail);
    CutInFront(g, tail);
  }

  lemma RenderedParts(t: SkillTopic, sections: seq<SkillBlock>, fragments: seq<SkillBlock>)
    ensures FrontmatterBody(t) != ""
    ensures Rendered(t, sections, fragments)
         == "---" + (FrontmatterBody(t) + ("---\n\n" + (SectionTexts(sections) + FragmentsText(fragments))))
  {
    hide FrontmatterFields, SectionTexts, FragmentsText;
    var fields, a, b := FrontmatterFields(t), SectionTexts(sections), FragmentsText(fragments);
    OpeningRule(fields, a + b);
    assert "---\n" + fields + "---\n\n" + a + b == "---\n" + fields + "---\n\n" + (a + b);
  }

  lemma CutInFront(g: string, tail: string)
    ensures (g + tail)[..|g|] == g
    ensures Find(g, "---").Some? ==>
              Find(g, "---").value <= |g| && (g + tail)[..Find(g, "---").value] == g[..Find(g, "---").value]
  {
    hide Find;
    if Find(g, "---").Some? {
      assert OccursAt(g, "---", Find(g, "---").value);
    }
  }

  lemma ExtractAfterRule(rest: string)
    ensures ExtractFrontmatter("---" + rest)
         == match Find(rest, "---") case None => None case Some(end) => Some(rest[..end])
  {
    var content := "---" + rest;
    assert content[0] == '-' && TrimStart(content) == content;
    assert content[..3] == "---" && content[3..] == rest;
  }

  /** The front matter round trip, exactly: the lines extracted from a written file are the fields
      that are present, in order, if and only if no field holds a rule, a line feed, or a carriage
      return at its end. */
  lemma FrontmatterComesBackIff(t: SkillTopic, sections: seq<SkillBlock>, fragments: seq<SkillBlock>)
    ensures var fm := ExtractFrontmatter(Rendered(t, sections, fragments));
            && fm.Some?
            && (SplitLines(fm.value) == [""] + FieldLines(t)
                <==> && Find(FrontmatterBody(t), "---").None?
                     && forall line <- FieldLines(t) :: '\n' !in line && StripCr(line) == line)
  {
    ExtractRendered(t, sections, fragments);
    BodyIsFieldLines(t);
    hide ExtractFrontmatter, Rendered, FrontmatterBody, FieldLines, SplitLines, Unlines;
    var lines := [""] + FieldLines(t);
    SplitUnlinesIff(lines);
    assert forall line :: line in lines <==> line == "" || line in FieldLines(t);
    match Find(FrontmatterBody(t), "---")
    case None =>
    case Some(k) =>
      var fm := FrontmatterBody(t)[..k];
      assert OccursAt(FrontmatterBody(t), "---", k);
      UnlinesSplitLength(fm);
  }
}
