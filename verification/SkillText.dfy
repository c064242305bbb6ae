/** Reading a skill file into sections and writing sections back into a skill file. */
module SkillText {
  import opened Text
  import opened Lines
  import opened Selection

  datatype ParsedSection = ParsedSection(title: string, content: string, sortOrder: nat)

  datatype SkillBlock = SkillBlock(blockType: string, title: Option<string>, content: string)

  /** `aka` is the decoded alias list, if the stored value decodes. */
  datatype SkillTopic = SkillTopic(
    topic: string,
    description: Option<string>,
    allowedTools: Option<string>,
    aka: Option<seq<string>>)

  // ---------- Reading ----------

  predicate IsHeading(line: string) {
    ("# " <= line || "## " <= line) && !("### " <= line)
  }

  datatype Section = Section(title: string, content: string)
  datatype OpenSection = OpenSection(title: string, text: string)

  /** Sections finished so far, and the one being read. */
  datatype Reader = Reader(done: seq<Section>, open: Option<OpenSection>)

  const START := Reader([], None)

  function Close(o: OpenSection): Section {
    Section(o.title, Trim(o.text))
  }

  function Flushed(r: Reader): seq<Section> {
    match r.open
    case None => r.done
    case Some(o) => r.done + [Close(o)]
  }

  function ReadLine(r: Reader, line: string): Reader {
    if IsHeading(line) then Reader(Flushed(r), Some(OpenSection(line, "")))
    else
      match r.open
      case None => r
      case Some(o) =>
        if line == "---" then Reader(Flushed(r), None)
        else Reader(r.done, Some(OpenSection(o.title, o.text + line + "\n")))
  }

  function ReadLines(r: Reader, lines: seq<string>): Reader
    decreases |lines|
  {
    if lines == [] then r else ReadLines(ReadLine(r, lines[0]), lines[1..])
  }

  function SectionsOf(body: string): seq<Section> {
    Flushed(ReadLines(START, SplitLines(body)))
  }

  function Numbered(sections: seq<Section>): seq<ParsedSection> {
    seq(|sections|, i requires 0 <= i < |sections| => ParsedSection(sections[i].title, sections[i].content, i))
  }

  method ParseSections(body: string) returns (sections: seq<ParsedSection>)
    ensures sections == Numbered(SectionsOf(body))
    ensures forall i :: 0 <= i < |sections| ==> sections[i].sortOrder == i
  {
    hide Trim, SplitLines;
    sections := [];
    var currentTitle, currentContent, sortOrder := "", "", 0;
    var lines := SplitLines(body);
    ghost var r := START;
    for i := 0 to |lines|
      invariant ReadLines(r, lines[i..]) == ReadLines(START, lines)
      invariant sections == Numbered(r.done) && sortOrder == |sections|
      invariant r.open == if currentTitle == "" then None else Some(OpenSection(currentTitle, currentContent))
    {
      var line := lines[i];
      assert lines[i..][0] == line && lines[i..][1..] == lines[i + 1..];
      r := ReadLine(r, line);
      if ("# " <= line || "## " <= line) && !("### " <= line) {
        if currentTitle != "" {
          sections := sections + [ParsedSection(currentTitle, Trim(currentContent), sortOrder)];
          sortOrder := sortOrder + 1;
        }
        currentTitle := line;
        currentContent := "";
      } else if line == "---" && currentTitle != "" {
        sections := sections + [ParsedSection(currentTitle, Trim(currentContent), sortOrder)];
        sortOrder := sortOrder + 1;
        currentTitle := "";
        currentContent := "";
      } else {
        currentContent := currentContent + line + "\n";
      }
    }
    if currentTitle != "" {
      sections := sections + [ParsedSection(currentTitle, Trim(currentContent), sortOrder)];
    }
  }

  function StripFrontmatter(content: string): string {
    var trimmed := TrimStart(content);
    if !("---" <= trimmed) then content
    else
      var afterFirst := trimmed[3..];
      match Find(afterFirst, "---")
      case None => content
      case Some(end) => afterFirst[end + 3..]
  }

  // ---------- Writing ----------

  function Field(name: string, value: Option<string>): string {
    match value
    case None => ""
    case Some(v) => name + ": " + v + "\n"
  }

  function AkaField(t: SkillTopic): Option<string> {
    match t.aka
    case Some(aliases) => if aliases == [] then None else Some("[" + Join(aliases, ", ") + "]")
    case None => None
  }

  /** The lines between the two rules of the front matter. */
  function FrontmatterFields(t: SkillTopic): string {
    Field("name", Some(t.topic)) + Field("description", t.description)
    + Field("allowed-tools", t.allowedTools) + Field("aka", AkaField(t))
  }

  function SectionText(b: SkillBlock): string {
    (match b.title case Some(title) => title + "\n" case None => "")
    + (if b.content != "" then b.content + "\n\n" else "")
    + "---\n\n"
  }

  function SectionTexts(blocks: seq<SkillBlock>): string {
    if blocks == [] then "" else SectionTexts(blocks[..|blocks| - 1]) + SectionText(blocks[|blocks| - 1])
  }

  const FRAGMENTS_TITLE := "## 待整理碎片"

  /** Line feeds become blanks. */
  function OneLine(s: string): (line: string)
    ensures |line| == |s| && '\n' !in line
    ensures forall i :: 0 <= i < |s| ==> line[i] == s[i] || (s[i] == '\n' && line[i] == ' ')
  {
    seq(|s|, i requires 0 <= i < |s| => if s[i] == '\n' then ' ' else s[i])
  }

  function FragmentLines(blocks: seq<SkillBlock>): string {
    if blocks == [] then ""
    else FragmentLines(blocks[..|blocks| - 1]) + "- " + OneLine(blocks[|blocks| - 1].content) + "\n"
  }

  function FragmentsText(fragments: seq<SkillBlock>): string {
    if fragments == [] then "" else FRAGMENTS_TITLE + "\n\n" + FragmentLines(fragments)
  }

  function OfType(blocks: seq<SkillBlock>, blockType: string): seq<SkillBlock> {
    if blocks == [] then []
    else OfType(blocks[..|blocks| - 1], blockType)
         + (if blocks[|blocks| - 1].blockType == blockType then [blocks[|blocks| - 1]] else [])
  }

  /** `kept` are the blocks of one type, all of them, in their order. */
  ghost predicate PicksType(blocks: seq<SkillBlock>, kept: seq<SkillBlock>, blockType: string) {
    exists pos: seq<nat> ::
      && Selects(blocks, kept, pos)
      && forall i: nat :: i < |blocks| ==> (i in pos <==> blocks[i].blockType == blockType)
  }

  lemma {:induction false} OfTypePicks(blocks: seq<SkillBlock>, blockType: string)
    ensures PicksType(blocks, OfType(blocks, blockType), blockType)
  {
    hide PicksType;
    if blocks == [] {
      NothingPicked(blockType);
    } else {
      var front, last := blocks[..|blocks| - 1], blocks[|blocks| - 1];
      OfTypePicks(front, blockType);
      PicksPushed(front, OfType(front, blockType), blockType, last);
      assert blocks == front + [last];
    }
  }

  lemma NothingPicked(blockType: string)
    ensures PicksType([], [], blockType)
  {
    assert Selects<SkillBlock>([], [], []);
  }

  lemma PicksPushed(front: seq<SkillBlock>, kept: seq<SkillBlock>, blockType: string, last: SkillBlock)
    requires PicksType(front, kept, blockType)
    ensures PicksType(front + [last], kept + (if last.blockType == blockType then [last] else []), blockType)
  {
    var pos: seq<nat> :|
      && Selects(front, kept, pos)
      && forall i: nat :: i < |front| ==> (i in pos <==> front[i].blockType == blockType);
    hide Selects;
    var more := SelectsPushed(front, kept, pos, last, last.blockType == blockType);
    assert kept + [] == kept;
  }

  /** There is only one such list. */
  lemma PickedIsOfType(blocks: seq<SkillBlock>, kept: seq<SkillBlock>, blockType: string)
    requires PicksType(blocks, kept, blockType)
    ensures kept == OfType(blocks, blockType)
  {
    OfTypePicks(blocks, blockType);
    var p: seq<nat> :|
      && Selects(blocks, kept, p)
      && forall i: nat :: i < |blocks| ==> (i in p <==> blocks[i].blockType == blockType);
    var q: seq<nat> :|
      && Selects(blocks, OfType(blocks, blockType), q)
      && forall i: nat :: i < |blocks| ==> (i in q <==> blocks[i].blockType == blockType);
    hide Selects, OfType;
    SelectionIsUnique(blocks, kept, p, OfType(blocks, blockType), q);
  }

  function Rendered(t: SkillTopic, sections: seq<SkillBlock>, fragments: seq<SkillBlock>): string {
    "---\n" + FrontmatterFields(t) + "---\n\n" + SectionTexts(sections) + FragmentsText(fragments)
  }

  /** The text that materializing a topic writes to its skill file: all sections, then all
      fragments, each in the order of the blocks. */
  method MaterializeTopic(t: SkillTopic, blocks: seq<SkillBlock>) returns (output: string)
    ensures output == Rendered(t, OfType(blocks, "section"), OfType(blocks, "fragment"))
    ensures PicksType(blocks, OfType(blocks, "section"), "section")
    ensures PicksType(blocks, OfType(blocks, "fragment"), "fragment")
  {
    OfTypePicks(blocks, "section");
    OfTypePicks(blocks, "fragment");
    hide PicksType, OfType;
    output := WriteFrontmatter(t);
    output := output + "---\n\n";
    output := WriteSections(output, OfType(blocks, "section"));
    output := WriteFragments(output, OfType(blocks, "fragment"));
  }

  method WriteFrontmatter(t: SkillTopic) returns (output: string)
    ensures output == "---\n" + FrontmatterFields(t)
  {
    hide Field, AkaField;
    output := "---\n";
    output := WriteField(output, "name", Some(t.topic));
    output := WriteField(output, "description", t.description);
    output := WriteField(output, "allowed-tools", t.allowedTools);
    output := WriteField(output, "aka", AkaField(t));
  }

  method WriteField(head: string, name: string, value: Option<string>) returns (output: string)
    ensures output == head + Field(name, value)
  {
    output := head;
    if value.Some? {
      output := output + (name + ": " + value.value + "\n");
    }
  }

  method WriteSections(head: string, sections: seq<SkillBlock>) returns (output: string)
    ensures output == head + SectionTexts(sections)
  {
    output := head;
    for i := 0 to |sections|
      invariant output == head + SectionTexts(sections[..i])
    {
      var block := sections[i];
      assert sections[..i + 1][..i] == sections[..i];
      assert head + (SectionTexts(sections[..i]) + SectionText(block)) == output + SectionText(block);
      output := WriteSection(output, block);
    }
    assert sections[..|sections|] == sections;
  }

  method WriteSection(head: string, block: SkillBlock) returns (output: string)
    ensures output == head + SectionText(block)
  {
    output := head;
    if block.title.Some? {
      output := output + (block.title.value + "\n");
    }
    if block.content != "" {
      output := output + (block.content + "\n\n");
    }
    output := output + "---\n\n";
  }

  method WriteFragments(head: string, fragments: seq<SkillBlock>) returns (output: string)
    ensures output == head + FragmentsText(fragments)
  {
    output := head;
    if fragments != [] {
      output := output + (FRAGMENTS_TITLE + "\n\n");
      output := WriteFragmentLines(output, fragments);
    }
  }

  method WriteFragmentLines(head: string, fragments: seq<SkillBlock>) returns (output: string)
    ensures output == head + FragmentLines(fragments)
  {
    output := head;
    for i := 0 to |fragments|
      invariant output == head + FragmentLines(fragments[..i])
    {
      assert fragments[..i + 1][..i] == fragments[..i];
      output := output + "- " + OneLine(fragments[i].content) + "\n";
    }
    assert fragments[..|fragments|] == fragments;
  }
}
