/** Dependency sections of issue bodies: printing them, parsing them back, and rewriting `Blocks:`. */
module IssueBody {
  import opened Ordering
  import opened Text

  const BLOCKS := "Blocks:"
  const BLANK := "\n\n"
  const LINK := "- #"
  const NONE_LINE := "- None"
  const STOP := "\n\nDependency keys:"

  // ---------- numbered link lines ----------

  /** A line matched by `^- #(\d+)$`. */
  predicate IsLink(line: string) { LINK <= line && IsNumeral(line[|LINK|..]) }

  function LinkNumber(line: string): nat
    requires IsLink(line)
  {
    ParseNat(line[|LINK|..])
  }

  function LinkLine(n: nat): string { LINK + PrintNat(n) }

  function Lines(text: string): seq<string> { Split(text, "\n") }

  ghost function LinkNumbers(lines: seq<string>): set<nat> {
    set line | line in lines && IsLink(line) :: LinkNumber(line)
  }

  /** `{int(v) for v in re.findall(r"(?m)^- #(\d+)$", text)}`. */
  ghost function Numbers(text: string): set<nat> { LinkNumbers(Lines(text)) }

  function LinkLines(nums: seq<nat>): (r: seq<string>)
    ensures |r| == |nums| && forall i | 0 <= i < |nums| :: r[i] == LinkLine(nums[i])
  {
    seq(|nums|, i requires 0 <= i < |nums| => LinkLine(nums[i]))
  }

  /** The lines of a section: one per number, or `- None`. */
  function SectionLines(nums: seq<nat>): (r: seq<string>)
    ensures r != []
  {
    if nums == [] then [NONE_LINE] else LinkLines(nums)
  }

  lemma LinkLineParses(n: nat)
    ensures IsLink(LinkLine(n)) && LinkNumber(LinkLine(n)) == n
  {
    ParsePrint(n);
    assert LinkLine(n)[|LINK|..] == PrintNat(n);
  }

  lemma LinkNumbersAppend(a: seq<string>, b: seq<string>)
    ensures LinkNumbers(a + b) == LinkNumbers(a) + LinkNumbers(b)
  {
    assert forall x :: x in a + b <==> x in a || x in b;
  }

  lemma SectionNumbers(nums: seq<nat>)
    ensures LinkNumbers(SectionLines(nums)) == Elements(nums)
  {
    var lines := SectionLines(nums);
    if nums == [] {
      assert NONE_LINE[2] != LINK[2];
      assert !(LINK <= NONE_LINE);
      assert forall line | line in lines :: line == NONE_LINE;
      assert LinkNumbers(lines) == {};
    } else {
      forall n ensures n in LinkNumbers(lines) <==> n in nums {
        if n in nums {
          var i :| 0 <= i < |nums| && nums[i] == n;
          LinkLineParses(n);
          assert lines[i] in lines;
        }
        if n in LinkNumbers(lines) {
          var line :| line in lines && IsLink(line) && LinkNumber(line) == n;
          var i :| 0 <= i < |lines| && lines[i] == line;
          LinkLineParses(nums[i]);
        }
      }
      assert forall n :: n in Elements(nums) <==> n in nums;
    }
  }

  /** No blank line, no newline at either end. */
  predicate Tight(s: string) {
    s != "" && s[0] != '\n' && s[|s| - 1] != '\n' &&
    forall i | 0 <= i < |s| - 1 :: !(s[i] == '\n' && s[i + 1] == '\n')
  }

  predicate Plain(line: string) { line != "" && '\n' !in line && 'B' !in line && line[0] == '-' }

  lemma SectionLinesArePlain(nums: seq<nat>)
    ensures forall line | line in SectionLines(nums) :: Plain(line)
  {
    if nums == [] {
      assert Plain(NONE_LINE);
    } else {
      forall i | 0 <= i < |nums| ensures Plain(LinkLine(nums[i])) {
        assert forall c | c in PrintNat(nums[i]) :: IsDigit(c);
      }
    }
  }

  lemma {:induction false} JoinedLinesAreTight(lines: seq<string>)
    requires lines != [] && forall line | line in lines :: Plain(line)
    ensures Tight(Join("\n", lines)) && 'B' !in Join("\n", lines) && Join("\n", lines)[0] == '-'
  {
    var s := Join("\n", lines);
    var first := lines[0];
    assert Plain(first);
    forall i | 0 <= i < |first| ensures first[i] != '\n' { assert first[i] in first; }
    if |lines| > 1 {
      var rest := Join("\n", lines[1..]);
      JoinedLinesAreTight(lines[1..]);
      assert s == first + "\n" + rest;
    }
  }

  function SectionText(nums: seq<nat>): string { Join("\n", SectionLines(nums)) }

  lemma SectionTextFacts(nums: seq<nat>)
    ensures var s := SectionText(nums);
            && Tight(s) && 'B' !in s && s[0] == '-'
            && Lines(s) == SectionLines(nums) && Numbers(s) == Elements(nums)
  {
    SectionLinesArePlain(nums);
    JoinedLinesAreTight(SectionLines(nums));
    SplitJoin(SectionLines(nums), '\n');
    SectionNumbers(nums);
  }

  /** Lines of a text cut at a newline. */
  lemma NumbersAtNewline(a: string, b: string)
    ensures Numbers(a + "\n" + b) == Numbers(a) + Numbers(b)
  {
    SplitAtChar(a, '\n', b);
    LinkNumbersAppend(Lines(a), Lines(b));
  }

  lemma NoNumbersInEmpty()
    ensures Numbers("") == {}
  {
    assert forall line | line in Lines("") :: line == "";
  }

  // ---------- render_body and the audit that reads it back ----------

  /** The body around its dependency section; `preamble` ends with the line `Blocked by:` and `rest`
      starts with `Dependency keys:`. */
  function RenderBody(preamble: string, blockedBy: seq<nat>, blocks: seq<nat>, rest: string): string {
    preamble + (Paragraph(SectionText(blockedBy)) + (BLOCKS + (Paragraph(SectionText(blocks)) + rest)))
  }

  /** A section's lines on their own lines, then a blank line. */
  function Paragraph(text: string): string { "\n" + text + BLANK }

  function BeforeFirst(s: string, m: string): string {
    match Find(s, m) case None => s case Some(i) => s[..i]
  }

  function AfterFirst(s: string, m: string): Option<string> {
    match Find(s, m) case None => None case Some(i) => Some(s[i + |m|..])
  }

  /** The audit's `body_blocked`. */
  ghost function AuditBlockedBy(body: string): set<nat> { Numbers(BeforeFirst(body, BLOCKS)) }

  /** The audit's `body_blocks`; there is none when the body has no `Blocks:`. */
  ghost function AuditBlocks(body: string): Option<set<nat>> {
    match AfterFirst(body, BLOCKS)
    case None => None
    case Some(after) => Some(Numbers(BeforeFirst(after, BLANK)))
  }

  /** No occurrence reaches across a character the pattern does not have. */
  lemma NoStraddleForeign(a: string, b: string, m: string, j: nat)
    requires b != "" && b[0] !in m && OccursAt(a + b, m, j) && m != ""
    ensures j + |m| <= |a| || |a| < j
  {
    if j <= |a| < j + |m| {
      CharAt(a + b, m, j, |a|);
    }
  }

  lemma NoOccurrenceWithoutHead(a: string, s: string, b: string, m: string, j: nat)
    requires m != "" && m[0] !in s && |a| <= j < |a| + |s|
    ensures !OccursAt(a + (s + b), m, j)
  {
    assert (a + (s + b))[j] == s[j - |a|];
    if OccursAt(a + (s + b), m, j) { CharAt(a + (s + b), m, j, j); }
  }

  /** The first `Blocks:` of a rendered body is the heading, when the preamble has none. */
  lemma FirstBlocksIsHeading(preamble: string, gap: string, heading: string)
    requires !Contains(preamble, BLOCKS) && 'B' !in gap && gap != "" && gap[0] == '\n'
    requires OccursAt(heading, BLOCKS, 0)
    ensures Find(preamble + (gap + heading), BLOCKS) == Some(|preamble| + |gap|)
  {
    var s := preamble + (gap + heading);
    forall j: nat | j < |preamble| + |gap| ensures !OccursAt(s, BLOCKS, j) {
      NoBlocksBefore(preamble, gap, heading, j);
    }
    HeadingOccurs(preamble, gap, heading);
    FindUnique(s, BLOCKS, |preamble| + |gap|);
  }

  lemma HeadingOccurs(preamble: string, gap: string, heading: string)
    requires OccursAt(heading, BLOCKS, 0)
    ensures OccursAt(preamble + (gap + heading), BLOCKS, |preamble| + |gap|)
  {
    OccursShift(gap, heading, BLOCKS, 0);
    OccursShift(preamble, gap + heading, BLOCKS, |gap|);
  }

  lemma NoBlocksBefore(preamble: string, gap: string, heading: string, j: nat)
    requires !Contains(preamble, BLOCKS) && 'B' !in gap && gap != "" && gap[0] == '\n'
    requires j < |preamble| + |gap|
    ensures !OccursAt(preamble + (gap + heading), BLOCKS, j)
  {
    assert '\n' !in BLOCKS;
    var tail := gap + heading;
    if j < |preamble| {
      if OccursAt(preamble + tail, BLOCKS, j) {
        NoStraddleForeign(preamble, tail, BLOCKS, j);
        OccursInPrefix(preamble, tail, BLOCKS, j);
      }
    } else {
      NoOccurrenceWithoutHead(preamble, gap, heading, BLOCKS, j);
    }
  }

  /** The first blank line after a tight text is the one that ends it. */
  lemma FirstBlankEnds(a: string, text: string, m: string, after: string, j: nat)
    requires Tight(text) && BLANK <= m
    requires |a| <= j < |a| + |text|
    ensures !OccursAt(a + (text + (m + after)), m, j)
  {
    var s := a + (text + (m + after));
    assert m[0] == '\n' && m[1] == '\n';
    assert s[j] == text[j - |a|];
    assert j + 1 < |a| + |text| ==> s[j + 1] == text[j + 1 - |a|];
    if OccursAt(s, m, j) {
      CharAt(s, m, j, j);
      CharAt(s, m, j, j + 1);
    }
  }

  /** The two halves the audit cuts a rendered body into. */
  lemma BodyHalves(preamble: string, text: string, after: string)
    requires !Contains(preamble, BLOCKS) && 'B' !in text
    ensures var body := preamble + (Paragraph(text) + (BLOCKS + after));
            && BeforeFirst(body, BLOCKS) == preamble + Paragraph(text)
            && AfterFirst(body, BLOCKS) == Some(after)
  {
    var gap, heading := Paragraph(text), BLOCKS + after;
    assert heading[..|BLOCKS|] == BLOCKS && heading[|BLOCKS|..] == after;
    FirstBlocksIsHeading(preamble, gap, heading);
    var s := preamble + (gap + heading);
    assert s[..|preamble| + |gap|] == preamble + gap;
    assert s[|preamble| + |gap|..] == heading;
    assert s[|preamble| + |gap| + |BLOCKS|..] == heading[|BLOCKS|..];
  }

  lemma NumbersOfParagraph(a: string, text: string)
    ensures Numbers(a + Paragraph(text)) == Numbers(a) + Numbers(text)
  {
    var empty := "" + "\n" + "";
    assert a + Paragraph(text) == a + "\n" + (text + "\n" + empty);
    NumbersAtNewline(a, text + "\n" + empty);
    NumbersAtNewline(text, empty);
    NumbersAtNewline("", "");
    NoNumbersInEmpty();
  }

  lemma NumbersAfterNewline(text: string)
    ensures Numbers("\n" + text) == Numbers(text)
  {
    assert "\n" + text == "" + "\n" + text;
    NumbersAtNewline("", text);
    NoNumbersInEmpty();
  }

  /** Reading a rendered body as the audit does gives back the rendered numbers: Blocks exactly, and
      Blocked-by up to numbered lines in the free text above. */
  lemma AuditReadsRendering(preamble: string, blockedBy: seq<nat>, blocks: seq<nat>, rest: string)
    requires !Contains(preamble, BLOCKS)
    ensures var body := RenderBody(preamble, blockedBy, blocks, rest);
            && AuditBlocks(body) == Some(Elements(blocks))
            && AuditBlockedBy(body) == Numbers(preamble) + Elements(blockedBy)
            && (AuditBlockedBy(body) == Elements(blockedBy) <==> Numbers(preamble) <= Elements(blockedBy))
  {
    SectionTextFacts(blockedBy);
    SectionTextFacts(blocks);
    BodyHalves(preamble, SectionText(blockedBy), Paragraph(SectionText(blocks)) + rest);
    NumbersOfParagraph(preamble, SectionText(blockedBy));
    BlocksSectionReads(SectionText(blocks), rest);
    NumbersAfterNewline(SectionText(blocks));
  }

  lemma BlocksSectionReads(text: string, rest: string)
    requires Tight(text)
    ensures BeforeFirst(Paragraph(text) + rest, BLANK) == "\n" + text
  {
    var s := "\n" + (text + (BLANK + rest));
    assert s == Paragraph(text) + rest;
    forall j: nat | j < 1 + |text| ensures !OccursAt(s, BLANK, j) {
      if j == 0 {
        assert s[1] == text[0];
        if OccursAt(s, BLANK, 0) { CharAt(s, BLANK, 0, 1); }
      } else {
        FirstBlankEnds("\n", text, BLANK, rest, j);
      }
    }
    assert OccursAt(s, BLANK, 1 + |text|) by { assert s[1 + |text|..1 + |text| + 2] == BLANK; }
    FindUnique(s, BLANK, 1 + |text|);
    assert s[..1 + |text|] == "\n" + text;
  }
}
