/** `update_legacy_blocks`: adding reciprocal links to the `Blocks:` section of existing issues. */
module LegacyBlocks {
  import opened Ordering
  import opened Text
  import opened IssueBody

  // ---------- the regular expression (^Blocks:\s*\n)(.*?)(?=\n\nDependency keys:) ----------

  /** Python's `\s` on text. */
  predicate IsSpace(c: char) {
    var n := c as int;
    9 <= n <= 13 || 28 <= n <= 32 || n == 0x85 || n == 0xa0 || n == 0x1680 || 0x2000 <= n <= 0x200a
    || n == 0x2028 || n == 0x2029 || n == 0x202f || n == 0x205f || n == 0x3000
  }

  const SPACES: set<int> :=
    {0x9, 0xa, 0xb, 0xc, 0xd, 0x1c, 0x1d, 0x1e, 0x1f, 0x20, 0x85, 0xa0, 0x1680, 0x2000, 0x2001, 0x2002, 0x2003, 0x2004,
     0x2005, 0x2006, 0x2007, 0x2008, 0x2009, 0x200a, 0x2028, 0x2029, 0x202f, 0x205f, 0x3000}

  /** The characters one by one. */
  lemma SpaceCharacters(c: char)
    ensures IsSpace(c) <==> c as int in SPACES
  {
  }

  predicate LineStart(s: string, i: nat) { i <= |s| && (i == 0 || s[i - 1] == '\n') }

  /** The first group can run from `i` to `h`. */
  predicate HeaderAt(s: string, i: nat, h: nat) {
    LineStart(s, i) && OccursAt(s, BLOCKS, i) && i + |BLOCKS| < h <= |s| && s[h - 1] == '\n' &&
    forall k | i + |BLOCKS| <= k < h :: IsSpace(s[k])
  }

  /** The expression can match with the first group at `i..h` and the second at `h..e`. */
  ghost predicate Matches(s: string, i: nat, h: nat, e: nat) {
    HeaderAt(s, i, h) && h <= e && OccursAt(s, STOP, e)
  }

  datatype Section = Section(start: nat, header: nat, end: nat)

  /** The match `re.search` returns: leftmost, then the longest first group, then the shortest second. */
  ghost predicate IsSearch(s: string, m: Section) {
    Matches(s, m.start, m.header, m.end) &&
    forall i: nat, h: nat, e: nat | Matches(s, i, h, e) ::
      m.start <= i && (i == m.start ==> h <= m.header && (h == m.header ==> m.end <= e))
  }

  lemma SearchUnique(s: string, m: Section, m': Section)
    requires IsSearch(s, m) && IsSearch(s, m')
    ensures m == m'
  {
    assert Matches(s, m'.start, m'.header, m'.end);
    assert Matches(s, m.start, m.header, m.end);
  }

  /** First occurrence at or after `k`. */
  function FindFrom(s: string, m: string, k: nat): (r: Option<nat>)
    requires k <= |s|
    ensures r.Some? ==> r.value >= k && OccursAt(s, m, r.value)
    ensures r.Some? ==> forall j: nat | k <= j < r.value :: !OccursAt(s, m, j)
    ensures r.None? ==> forall j: nat | k <= j :: !OccursAt(s, m, j)
  {
    assert s == s[..k] + s[k..];
    forall j: nat ensures OccursAt(s[k..], m, j) <==> OccursAt(s, m, k + j) { OccursShift(s[..k], s[k..], m, j); }
    match Find(s[k..], m)
    case None => assert forall j: nat | k <= j && OccursAt(s, m, j) :: OccursAt(s[k..], m, j - k); None
    case Some(i) =>
      assert forall j: nat | k <= j < k + i && OccursAt(s, m, j) :: OccursAt(s[k..], m, j - k);
      Some(k + i)
  }

  /** The end of the run of white space from `k`. */
  function SpaceEnd(s: string, k: nat): (r: nat)
    requires k <= |s|
    ensures k <= r <= |s| && (forall j | k <= j < r :: IsSpace(s[j])) && (r < |s| ==> !IsSpace(s[r]))
    decreases |s| - k
  {
    if k < |s| && IsSpace(s[k]) then SpaceEnd(s, k + 1) else k
  }

  ghost predicate Candidate(s: string, from: nat, h: nat, e: nat) {
    from < h <= |s| && s[h - 1] == '\n' && h <= e && OccursAt(s, STOP, e)
  }

  /** The longest first group of at most `h`, with the shortest second group after it. */
  function BestHeader(s: string, from: nat, h: nat): (r: Option<(nat, nat)>)
    requires h <= |s|
    ensures r.None? ==> forall h': nat, e: nat | h' <= h :: !Candidate(s, from, h', e)
    ensures r.Some? ==> r.value.0 <= h && Candidate(s, from, r.value.0, r.value.1)
    ensures r.Some? ==> forall h': nat, e: nat | h' <= h && Candidate(s, from, h', e) ::
              h' <= r.value.0 && (h' == r.value.0 ==> r.value.1 <= e)
    decreases h
  {
    if h <= from then None
    else if s[h - 1] == '\n' && FindFrom(s, STOP, h).Some? then Some((h, FindFrom(s, STOP, h).value))
    else BestHeader(s, from, h - 1)
  }

  predicate BlocksLine(s: string, i: nat) { LineStart(s, i) && OccursAt(s, BLOCKS, i) }

  lemma MatchIsCandidate(s: string, i: nat, h: nat, e: nat)
    requires BlocksLine(s, i)
    ensures Matches(s, i, h, e) <==> h <= SpaceEnd(s, i + |BLOCKS|) && Candidate(s, i + |BLOCKS|, h, e)
  {
    var w := SpaceEnd(s, i + |BLOCKS|);
    assert w < |s| ==> !IsSpace(s[w]);
  }

  lemma BestHeaderMatches(s: string, i: nat)
    requires BlocksLine(s, i)
    ensures var best := BestHeader(s, i + |BLOCKS|, SpaceEnd(s, i + |BLOCKS|));
            && (best.None? ==> forall h: nat, e: nat :: !Matches(s, i, h, e))
            && (best.Some? ==> Matches(s, i, best.value.0, best.value.1))
            && (best.Some? ==> forall h: nat, e: nat | Matches(s, i, h, e) ::
                  h <= best.value.0 && (h == best.value.0 ==> best.value.1 <= e))
  {
    forall h: nat, e: nat
      ensures Matches(s, i, h, e) <==> h <= SpaceEnd(s, i + |BLOCKS|) && Candidate(s, i + |BLOCKS|, h, e)
    {
      MatchIsCandidate(s, i, h, e);
    }
  }

  /** The match that a search from `i` on should return. */
  ghost predicate IsSearchFrom(s: string, i: nat, r: Option<Section>) {
    match r
    case None => forall j: nat, h: nat, e: nat | i <= j :: !Matches(s, j, h, e)
    case Some(m) =>
      && i <= m.start && Matches(s, m.start, m.header, m.end)
      && forall j: nat, h: nat, e: nat | i <= j && Matches(s, j, h, e) ::
           m.start <= j && (j == m.start ==> h <= m.header && (h == m.header ==> m.end <= e))
  }

  lemma SearchSkips(s: string, i: nat, r: Option<Section>)
    requires IsSearchFrom(s, i + 1, r) && forall h: nat, e: nat :: !Matches(s, i, h, e)
    ensures IsSearchFrom(s, i, r)
  {
  }

  function SearchFrom(s: string, i: nat): (r: Option<Section>)
    ensures IsSearchFrom(s, i, r)
    decreases |s| + 1 - i
  {
    if i > |s| then None
    else if !BlocksLine(s, i) then
      var r := SearchFrom(s, i + 1);
      SearchSkips(s, i, r);
      r
    else
      BestHeaderMatches(s, i);
      match BestHeader(s, i + |BLOCKS|, SpaceEnd(s, i + |BLOCKS|))
      case Some((h, e)) => Some(Section(i, h, e))
      case None =>
        var r := SearchFrom(s, i + 1);
        SearchSkips(s, i, r);
        r
  }

  /** `re.search`. */
  function Search(s: string): (r: Option<Section>)
    ensures r.Some? ==> IsSearch(s, r.value)
    ensures r.None? ==> forall i: nat, h: nat, e: nat :: !Matches(s, i, h, e)
  {
    SearchFrom(s, 0)
  }

  // ---------- the rewrite ----------

  ghost function SectionOf(body: string): string
    requires Search(body).Some?
  {
    var m := Search(body).value;
    body[m.header..m.end]
  }

  /** The numbers the section lists now. */
  ghost function Existing(body: string): set<nat>
    requires Search(body).Some?
  {
    Numbers(SectionOf(body))
  }

  predicate NatLess(x: nat, y: nat) { x < y }

  /** `sorted(numbers)`. */
  ghost function SortedNumbers(s: set<nat>): (r: seq<nat>)
    ensures Increasing(NatLess, r) && Elements(r) == s && |r| == |s|
  {
    SortedSetIncreases(NatLess, s);
    SortedSet(NatLess, s)
  }

  /** The replacement of one body, or none when it has no machine-editable section. */
  ghost function UpdateBody(body: string, children: set<nat>): Option<string> {
    match Search(body)
    case None => None
    case Some(m) =>
      var merged := SortedNumbers(Existing(body) + children);
      Some(body[..m.header] + Join("\n", LinkLines(merged)) + body[m.end..])
  }

  lemma MergedText(numbers: set<nat>) returns (text: string)
    requires numbers != {}
    ensures text == Join("\n", LinkLines(SortedNumbers(numbers)))
    ensures Tight(text) && text[0] == '-' && Numbers(text) == numbers
  {
    var list := SortedNumbers(numbers);
    assert list != [];
    text := SectionText(list);
    SectionTextFacts(list);
  }

  /** A header found in the rewritten body before the section was there in the old body too. */
  lemma EarlierHeaderIsOld(body: string, text: string, m: Section, i: nat, h: nat)
    requires IsSearch(body, m) && text != "" && i < m.start
    requires HeaderAt(body[..m.header] + text + body[m.end..], i, h)
    ensures HeaderAt(body, i, h) && h < m.header
  {
    var s := body[..m.header] + text + body[m.end..];
    CharAt(body, BLOCKS, m.start, m.start);
    assert forall k | 0 <= k < m.header :: s[k] == body[k];
    assert !IsSpace(s[m.start]);
    forall p | i < p < i + |BLOCKS| ensures s[p] != 'B' {
      CharAt(s, BLOCKS, i, p);
      assert BLOCKS[p - i] != 'B';
    }
    assert i + |BLOCKS| <= m.start && h <= m.start;
    assert s[i..i + |BLOCKS|] == body[i..i + |BLOCKS|];
  }

  /** Searching the rewritten body finds the same heading and the new lines. */
  lemma SearchRewritten(body: string, text: string, m: Section)
    requires IsSearch(body, m) && Tight(text) && text[0] == '-'
    ensures IsSearch(body[..m.header] + text + body[m.end..], Section(m.start, m.header, m.header + |text|))
  {
    var s := body[..m.header] + text + body[m.end..];
    var m' := Section(m.start, m.header, m.header + |text|);
    assert forall k | 0 <= k < m.header :: s[k] == body[k];
    assert s[m.start..m.start + |BLOCKS|] == body[m.start..m.start + |BLOCKS|];
    StopAfterText(body, text, m);
    assert Matches(s, m'.start, m'.header, m'.end);
    assert s[m.header] == '-' && !IsSpace(s[m.header]);
    NoEarlierHeader(body, m);
    forall i: nat, h: nat, e: nat | Matches(s, i, h, e)
      ensures m'.start <= i && (i == m'.start ==> h <= m'.header && (h == m'.header ==> m'.end <= e))
    {
      if i < m.start { EarlierHeaderIsOld(body, text, m, i, h); }
    }
  }

  /** No header before the section can be closed by the section's stop. */
  lemma NoEarlierHeader(body: string, m: Section)
    requires IsSearch(body, m)
    ensures forall i: nat, h: nat | i < m.start && h <= m.end :: !HeaderAt(body, i, h)
  {
    forall i: nat, h: nat | i < m.start && h <= m.end ensures !HeaderAt(body, i, h) {
      assert HeaderAt(body, i, h) <==> Matches(body, i, h, m.end);
    }
  }

  lemma StopAfterText(body: string, text: string, m: Section)
    requires IsSearch(body, m) && Tight(text)
    ensures var s := body[..m.header] + text + body[m.end..];
            && OccursAt(s, STOP, m.header + |text|)
            && forall e: nat | m.header <= e < m.header + |text| :: !OccursAt(s, STOP, e)
  {
    var s := body[..m.header] + text + body[m.end..];
    var tail := body[m.end..];
    assert s == (body[..m.header] + text) + tail;
    assert tail[..|STOP|] == STOP;
    OccursShift(body[..m.header] + text, tail, STOP, 0);
    var after := tail[|STOP|..];
    assert tail == STOP + after;
    assert s == body[..m.header] + (text + (STOP + after));
    forall e: nat | m.header <= e < m.header + |text| ensures !OccursAt(s, STOP, e) {
      FirstBlankEnds(body[..m.header], text, STOP, after, e);
    }
  }

  /** The rewrite changes nothing outside the section, and the section then lists exactly the old
      numbers and the new children. */
  lemma UpdateIsExact(body: string, children: set<nat>)
    requires Search(body).Some? && children != {}
    ensures var m, updated := Search(body).value, UpdateBody(body, children).value;
            && Search(updated).Some?
            && Existing(updated) == Existing(body) + children
            && var m' := Search(updated).value;
               && m'.start == m.start && m'.header == m.header
               && updated[..m'.header] == body[..m.header]
               && updated[m'.end..] == body[m.end..]
               && SectionOf(updated) == Join("\n", LinkLines(SortedNumbers(Existing(body) + children)))
  {
    var m, updated := Search(body).value, UpdateBody(body, children).value;
    var text := MergedText(Existing(body) + children);
    SearchRewritten(body, text, m);
    var m' := Section(m.start, m.header, m.header + |text|);
    assert Matches(updated, m'.start, m'.header, m'.end);
    SearchUnique(updated, Search(updated).value, m');
    assert updated[m'.header..m'.end] == text;
  }

  /** Rewriting twice is rewriting once with all the children; the same children change nothing. */
  lemma UpdateAgain(body: string, children: set<nat>, more: set<nat>)
    requires Search(body).Some? && children != {}
    ensures UpdateBody(UpdateBody(body, children).value, more) == UpdateBody(body, children + more)
    ensures more <= children ==> UpdateBody(UpdateBody(body, children).value, more) == UpdateBody(body, children)
  {
    var updated := UpdateBody(body, children).value;
    UpdateIsExact(body, children);
    assert Existing(updated) + more == Existing(body) + (children + more);
    if more <= children { assert children + more == children; }
  }

  // ---------- the audit after the rewrite ----------

  /** The numbers the legacy half of the audit reads: from the first `Blocks:` to the next stop. */
  ghost function AuditLegacy(body: string): Option<set<nat>> {
    match AfterFirst(body, BLOCKS)
    case None => None
    case Some(after) => Some(Numbers(BeforeFirst(after, STOP)))
  }

  /** A text's first occurrence is settled by any prefix that holds one. */
  lemma FindInPrefix(a: string, x: string, m: string, i: nat)
    requires OccursAt(a, m, i)
    ensures Find(a + x, m) == Find(a, m)
  {
    var j := Find(a, m).value;
    OccursInPrefix(a, x, m, j);
    forall k: nat | k < j ensures !OccursAt(a + x, m, k) { OccursInPrefix(a, x, m, k); }
    FindUnique(a + x, m, j);
  }

  /** A `Dependency keys:` paragraph stands between the first `Blocks:` and the section. */
  ghost predicate StopBetween(body: string, m: Section) {
    var first := Find(body, BLOCKS);
    first.Some? && exists j: nat :: first.value + |BLOCKS| <= j < m.start && OccursAt(body, STOP, j)
  }

  lemma SameFirstBlocks(body: string, text: string, m: Section)
    requires IsSearch(body, m)
    ensures var s := body[..m.header] + text + body[m.end..];
            Find(s, BLOCKS) == Find(body, BLOCKS) && Find(body, BLOCKS).Some? && Find(body, BLOCKS).value <= m.start
  {
    var s, head := body[..m.header] + text + body[m.end..], body[..m.header];
    assert body == head + body[m.header..] && s == head + (text + body[m.end..]);
    assert head[m.start..m.start + |BLOCKS|] == body[m.start..m.start + |BLOCKS|];
    FindInPrefix(head, body[m.header..], BLOCKS, m.start);
    FindInPrefix(head, text + body[m.end..], BLOCKS, m.start);
  }

  lemma AuditReads(s: string, header: nat, stop: nat)
    requires Find(s, BLOCKS).Some? && Find(s, BLOCKS).value + |BLOCKS| < header <= stop
    requires OccursAt(s, STOP, stop) && s[header - 1] == '\n'
    requires forall j: nat | Find(s, BLOCKS).value + |BLOCKS| <= j < stop :: !OccursAt(s, STOP, j)
    ensures AuditLegacy(s).Some? && Numbers(s[header..stop]) <= AuditLegacy(s).value
  {
    var from := Find(s, BLOCKS).value + |BLOCKS|;
    FirstStop(s, from, stop);
    NumbersAtEnd(s, from, header, stop);
  }

  lemma AuditReadsSection(body: string, text: string, m: Section)
    requires IsSearch(body, m) && Tight(text) && text[0] == '-' && !StopBetween(body, m)
    ensures var audited := AuditLegacy(body[..m.header] + text + body[m.end..]);
            audited.Some? && Numbers(text) <= audited.value
  {
    var s := body[..m.header] + text + body[m.end..];
    var stop := m.header + |text|;
    SameFirstBlocks(body, text, m);
    StopAfterText(body, text, m);
    NoStopInHeader(body, text, m, Find(s, BLOCKS).value + |BLOCKS|);
    assert s[m.header - 1] == body[m.header - 1];
    AuditReads(s, m.header, stop);
    assert s[m.header..stop] == text;
  }

  lemma ReadingInPrefix(a: string, x: string, j: nat)
    requires OccursAt(a, STOP, j)
    ensures BeforeFirst(a + x, STOP) == BeforeFirst(a, STOP)
  {
    FindInPrefix(a, x, STOP, j);
    var i := Find(a, STOP).value;
    assert (a + x)[..i] == a[..i];
  }

  /** What is read between a point of a shared prefix and a stop inside it does not depend on the rest. */
  lemma SharedPrefixReading(head: string, x: string, y: string, from: nat, j: nat)
    requires from <= j && OccursAt(head, STOP, j)
    ensures BeforeFirst((head + x)[from..], STOP) == BeforeFirst((head + y)[from..], STOP)
  {
    var rest := head[from..];
    assert head == head[..from] + rest;
    OccursShift(head[..from], rest, STOP, j - from);
    DropOfConcat(head, x, from);
    DropOfConcat(head, y, from);
    ReadingInPrefix(rest, x, j - from);
    ReadingInPrefix(rest, y, j - from);
  }

  lemma DropOfConcat(a: string, b: string, from: nat)
    requires from <= |a|
    ensures (a + b)[from..] == a[from..] + b
  {
  }

  lemma AuditMissesSection(body: string, text: string, m: Section)
    requires IsSearch(body, m) && StopBetween(body, m)
    ensures AuditLegacy(body[..m.header] + text + body[m.end..]) == AuditLegacy(body)
  {
    SameFirstBlocks(body, text, m);
    var j: nat :| Find(body, BLOCKS).value + |BLOCKS| <= j < m.start && OccursAt(body, STOP, j);
    StopInHead(body, m, j);
    ReadingStopsInHead(body, text, m.header, m.end, j);
  }

  lemma ReadingStopsInHead(body: string, text: string, header: nat, end: nat, j: nat)
    requires header <= end <= |body| && OccursAt(body[..header], STOP, j)
    requires Find(body, BLOCKS).Some? && Find(body, BLOCKS).value + |BLOCKS| <= j
    requires Find(body[..header] + text + body[end..], BLOCKS) == Find(body, BLOCKS)
    ensures AuditLegacy(body[..header] + text + body[end..]) == AuditLegacy(body)
  {
    var head, x, y := body[..header], body[header..], text + body[end..];
    assert body == head + x;
    assert body[..header] + text + body[end..] == head + y;
    SharedReading(body, body[..header] + text + body[end..], head, x, y, Find(body, BLOCKS).value + |BLOCKS|, j);
  }

  lemma StopInHead(body: string, m: Section, j: nat)
    requires IsSearch(body, m) && j < m.start && OccursAt(body, STOP, j)
    ensures OccursAt(body[..m.header], STOP, j)
  {
    StopBeforeSection(body, m, j);
    assert body == body[..m.header] + body[m.header..];
    OccursInPrefix(body[..m.header], body[m.header..], STOP, j);
  }

  /** Two bodies that share a head with a stop after their first `Blocks:` are read alike. */
  lemma SharedReading(s: string, t: string, head: string, x: string, y: string, from: nat, j: nat)
    requires s == head + x && t == head + y && from <= j && OccursAt(head, STOP, j)
    requires Find(s, BLOCKS) == Find(t, BLOCKS) && Find(s, BLOCKS).Some? && from == Find(s, BLOCKS).value + |BLOCKS|
    ensures AuditLegacy(t) == AuditLegacy(s)
  {
    SharedPrefixReading(head, x, y, from, j);
  }

  /** A stop that begins above the section ends above it: it holds no `B` at a line start. */
  lemma StopBeforeSection(body: string, m: Section, j: nat)
    requires IsSearch(body, m) && j < m.start && OccursAt(body, STOP, j)
    ensures j + |STOP| <= m.start
  {
    assert 'B' !in STOP;
    CharAt(body, BLOCKS, m.start, m.start);
    assert forall k | 0 <= k < |STOP| :: STOP[k] != 'B';
    if m.start < j + |STOP| { CharAt(body, STOP, j, m.start); }
  }

  /** After the rewrite the audit finds every child exactly when no `Dependency keys:` paragraph cuts
      the section off from the body's first `Blocks:`; otherwise it reads what it read before. */
  lemma AuditAfterUpdate(body: string, children: set<nat>)
    requires Search(body).Some? && children != {}
    ensures var audited := AuditLegacy(UpdateBody(body, children).value);
            && audited.Some?
            && (children <= audited.value <==>
                !StopBetween(body, Search(body).value) || children <= AuditLegacy(body).value)
            && (StopBetween(body, Search(body).value) ==> audited == AuditLegacy(body))
  {
    var m := Search(body).value;
    var text := MergedText(Existing(body) + children);
    SameFirstBlocks(body, text, m);
    if StopBetween(body, m) { AuditMissesSection(body, text, m); } else { AuditReadsSection(body, text, m); }
  }

  lemma NoStopInHeader(body: string, text: string, m: Section, from: nat)
    requires IsSearch(body, m) && Tight(text) && text[0] == '-'
    requires forall j: nat | from <= j < m.start :: !OccursAt(body, STOP, j)
    ensures forall j: nat | from <= j < m.header :: !OccursAt(body[..m.header] + text + body[m.end..], STOP, j)
  {
    var s := body[..m.header] + text + body[m.end..];
    assert STOP[2] == 'D' && !IsSpace('D') && 'D' !in BLOCKS && '-' !in STOP;
    assert forall k | 0 <= k < |STOP| :: STOP[k] != '-';
    assert s[m.header] == '-';
    assert s[..m.header] == body[..m.header];
    forall p | m.start <= p < m.header ensures s[p] != 'D' {
      assert s[p] == body[p];
      if p < m.start + |BLOCKS| { CharAt(body, BLOCKS, m.start, p); }
    }
    forall j: nat | from <= j < m.header ensures !OccursAt(s, STOP, j) {
      assert j + |STOP| <= m.header ==> s[j..j + |STOP|] == s[..m.header][j..j + |STOP|] == body[j..j + |STOP|];
      assert OccursAt(s, STOP, j) && j + |STOP| <= m.header ==> OccursAt(body, STOP, j);
      if OccursAt(s, STOP, j) {
        if m.header < j + |STOP| { CharAt(s, STOP, j, m.header); } else { CharAt(s, STOP, j, j + 2); }
      }
    }
  }

  /** The first stop from a point on, when nothing before it is one. */
  lemma FirstStop(s: string, from: nat, stop: nat)
    requires from <= stop && OccursAt(s, STOP, stop)
    requires forall j: nat | from <= j < stop :: !OccursAt(s, STOP, j)
    ensures BeforeFirst(s[from..], STOP) == s[from..stop]
  {
    assert s == s[..from] + s[from..];
    forall j: nat ensures OccursAt(s[from..], STOP, j) <==> OccursAt(s, STOP, from + j) {
      OccursShift(s[..from], s[from..], STOP, j);
    }
    FindUnique(s[from..], STOP, stop - from);
  }

  /** Numbers on whole lines at the end of a passage are among the passage's numbers. */
  lemma NumbersAtEnd(s: string, from: nat, line: nat, stop: nat)
    requires from < line <= stop <= |s| && s[line - 1] == '\n'
    ensures Numbers(s[line..stop]) <= Numbers(s[from..stop])
  {
    assert s[from..stop] == s[from..line - 1] + "\n" + s[line..stop];
    NumbersAtNewline(s[from..line - 1], s[line..stop]);
  }

  // ---------- a body whose children the audit misses ----------

  const INTRO := "x Blocks: y"
  const SECTION := "Blocks:\n- None"

  /** A mention of `Blocks:`, a stop, then the section and its own stop. */
  const CUT_OFF := INTRO + STOP + "\n" + SECTION + STOP

  lemma CutOffPieces()
    ensures |INTRO| == 11 && |STOP| == 18 && |SECTION| == 14 && |CUT_OFF| == 62
    ensures CUT_OFF[..11] == INTRO && CUT_OFF[11..29] == STOP && CUT_OFF[29] == '\n'
    ensures CUT_OFF[30..44] == SECTION && CUT_OFF[44..] == STOP
  {
  }

  lemma CutOffHeads(i: nat)
    requires i < |CUT_OFF|
    ensures CUT_OFF[i] == 'B' <==> i == 2 || i == 30
  {
    CutOffPieces();
    if i < 11 {
      assert CUT_OFF[i] == INTRO[i];
    } else if i < 29 {
      assert CUT_OFF[i] == STOP[i - 11];
    } else if 30 <= i < 44 {
      assert CUT_OFF[i] == SECTION[i - 30];
    } else if 44 <= i {
      assert CUT_OFF[i] == STOP[i - 44];
    }
  }

  lemma CutOffChars()
    ensures CUT_OFF[1] == ' ' && CUT_OFF[9..11] == " y" && CUT_OFF[37] == '\n' && CUT_OFF[38] == '-'
    ensures forall e: nat | 38 <= e < 44 :: CUT_OFF[e] != '\n'
    ensures OccursAt(CUT_OFF, BLOCKS, 2) && OccursAt(CUT_OFF, BLOCKS, 30)
    ensures OccursAt(CUT_OFF, STOP, 11) && OccursAt(CUT_OFF, STOP, 44)
  {
    CutOffPieces();
    forall e: nat | 30 <= e < 44 ensures CUT_OFF[e] == SECTION[e - 30] { assert CUT_OFF[30..44][e - 30] == CUT_OFF[e]; }
    forall e: nat | e < 11 ensures CUT_OFF[e] == INTRO[e] { assert CUT_OFF[..11][e] == CUT_OFF[e]; }
    assert CUT_OFF[2..9] == INTRO[2..9] == BLOCKS;
    assert CUT_OFF[30..37] == SECTION[..7] == BLOCKS;
    assert CUT_OFF[9..11] == INTRO[9..11];
  }

  lemma CutOffSearch()
    ensures IsSearch(CUT_OFF, Section(30, 38, 44))
  {
    CutOffPieces();
    CutOffChars();
    assert HeaderAt(CUT_OFF, 30, 38);
    forall i: nat, h: nat, e: nat | Matches(CUT_OFF, i, h, e) ensures i == 30 && h == 38 && 44 <= e {
      CharAt(CUT_OFF, BLOCKS, i, i);
      CutOffHeads(i);
      assert !IsSpace(CUT_OFF[38]);
      CharAt(CUT_OFF, STOP, e, e);
    }
  }

  lemma CutOffFirstBlocks()
    ensures Find(CUT_OFF, BLOCKS) == Some(2)
  {
    CutOffPieces();
    CutOffChars();
    forall j: nat | j < 2 ensures !OccursAt(CUT_OFF, BLOCKS, j) {
      CutOffHeads(j);
      HeadMissing(CUT_OFF, BLOCKS, j);
    }
    FindUnique(CUT_OFF, BLOCKS, 2);
  }

  lemma CutOffReading()
    ensures AuditLegacy(CUT_OFF) == Some({})
  {
    CutOffPieces();
    CutOffChars();
    CutOffFirstBlocks();
    assert CUT_OFF[9..11][0] == CUT_OFF[9] && CUT_OFF[9..11][1] == CUT_OFF[10];
    forall j: nat | 9 <= j < 11 ensures !OccursAt(CUT_OFF, STOP, j) {
      HeadMissing(CUT_OFF, STOP, j);
    }
    FirstStop(CUT_OFF, 9, 11);
    SplitWhole(" y", '\n');
    assert Numbers(" y") == {};
  }

  // ---------- what the audit reads ----------

  /** The first `Blocks:` is the one between `a` and `b`. */
  ghost predicate FirstBlocks(a: string, b: string) {
    forall j: nat | j < |a| :: !OccursAt(a + (BLOCKS + b), BLOCKS, j)
  }

  /** The audit reads the numbers from the first `Blocks:` to the next stop, or to the end of the body. */
  lemma AuditReadsToStop(a: string, b: string, c: string)
    requires FirstBlocks(a, b + (STOP + c)) && forall j: nat | j < |b| :: !OccursAt(b + (STOP + c), STOP, j)
    ensures AuditLegacy(a + (BLOCKS + (b + (STOP + c)))) == Some(Numbers(b))
  {
    var rest := b + (STOP + c);
    AfterBlocks(a, rest);
    assert (STOP + c)[..|STOP|] == STOP;
    OccursShift(b, STOP + c, STOP, 0);
    FindUnique(rest, STOP, |b|);
    assert rest[..|b|] == b;
  }

  lemma AuditReadsToTheEnd(a: string, b: string)
    requires FirstBlocks(a, b) && !Contains(b, STOP)
    ensures AuditLegacy(a + (BLOCKS + b)) == Some(Numbers(b))
  {
    AfterBlocks(a, b);
    FindNone(b, STOP);
  }

  lemma AfterBlocks(a: string, rest: string)
    requires FirstBlocks(a, rest)
    ensures AfterFirst(a + (BLOCKS + rest), BLOCKS) == Some(rest)
  {
    var body := a + (BLOCKS + rest);
    assert (BLOCKS + rest)[..|BLOCKS|] == BLOCKS;
    OccursShift(a, BLOCKS + rest, BLOCKS, 0);
    FindUnique(body, BLOCKS, |a|);
    assert body[|a| + |BLOCKS|..] == rest;
  }

  // ---------- what stands above ----------

  /** Whole lines without a `Blocks:`. */
  ghost predicate Above(head: string) {
    !Contains(head, BLOCKS) && (head == "" || head[|head| - 1] == '\n')
  }

  lemma NoBlocksAbove(head: string, s: string, j: nat)
    requires Above(head) && j < |head|
    ensures !OccursAt(head + s, BLOCKS, j)
  {
    if j + |BLOCKS| <= |head| {
      OccursInPrefix(head, s, BLOCKS, j);
    } else if OccursAt(head + s, BLOCKS, j) {
      assert '\n' !in BLOCKS;
      CharAt(head + s, BLOCKS, j, |head| - 1);
    }
  }

  lemma AfterFirstShift(a: string, s: string, m: string)
    requires forall j: nat | j < |a| :: !OccursAt(a + s, m, j)
    ensures AfterFirst(a + s, m) == AfterFirst(s, m)
  {
    FindShift(a, s, m);
    if Find(s, m).Some? { assert (a + s)[|a| + Find(s, m).value + |m|..] == s[Find(s, m).value + |m|..]; }
  }

  /** Lines above that hold no `Blocks:` are not read. */
  lemma ReadingIsBelow(head: string, s: string)
    requires Above(head)
    ensures AuditLegacy(head + s) == AuditLegacy(s)
  {
    forall j: nat | j < |head| ensures !OccursAt(head + s, BLOCKS, j) { NoBlocksAbove(head, s, j); }
    AfterFirstShift(head, s, BLOCKS);
  }

  lemma MatchesBelow(head: string, s: string, i: nat, h: nat, e: nat)
    requires Above(head)
    ensures Matches(head + s, |head| + i, |head| + h, |head| + e) <==> Matches(s, i, h, e)
  {
    OccursShift(head, s, BLOCKS, i);
    OccursShift(head, s, STOP, e);
    assert forall k: nat | k < |s| :: (head + s)[|head| + k] == s[k];
    if HeaderAt(head + s, |head| + i, |head| + h) {
      forall k: nat | i + |BLOCKS| <= k < h ensures IsSpace(s[k]) { assert IsSpace((head + s)[|head| + k]); }
    }
  }

  function Lowered(m: Section, n: nat): Section { Section(n + m.start, n + m.header, n + m.end) }

  lemma MatchIsBelow(head: string, s: string, i: nat, h: nat, e: nat)
    requires Above(head) && Matches(head + s, i, h, e)
    ensures |head| <= i <= h <= e && Matches(s, i - |head|, h - |head|, e - |head|)
  {
    if i < |head| { NoBlocksAbove(head, s, i); }
    MatchesBelow(head, s, i - |head|, h - |head|, e - |head|);
  }

  /** A match is no better than `m`. */
  ghost predicate NotBefore(m: Section, i: nat, h: nat, e: nat) {
    m.start <= i && (i == m.start ==> h <= m.header && (h == m.header ==> m.end <= e))
  }

  lemma NotBeforeBelow(head: string, s: string, m: Section, i: nat, h: nat, e: nat)
    requires Above(head) && IsSearch(s, m) && Matches(head + s, i, h, e)
    ensures NotBefore(Lowered(m, |head|), i, h, e)
  {
    MatchIsBelow(head, s, i, h, e);
  }

  lemma SearchIsBelow(head: string, s: string, m: Section)
    requires Above(head) && IsSearch(s, m)
    ensures IsSearch(head + s, Lowered(m, |head|))
  {
    MatchesBelow(head, s, m.start, m.header, m.end);
    forall i: nat, h: nat, e: nat | Matches(head + s, i, h, e) ensures NotBefore(Lowered(m, |head|), i, h, e) {
      NotBeforeBelow(head, s, m, i, h, e);
    }
  }

  lemma SearchBelow(head: string, s: string)
    requires Above(head)
    ensures Search(head + s) == match Search(s) case None => None case Some(m) => Some(Lowered(m, |head|))
  {
    if Search(s).Some? {
      var m := Search(s).value;
      SearchIsBelow(head, s, m);
      var l := Lowered(m, |head|);
      assert Matches(head + s, l.start, l.header, l.end);
      SearchUnique(head + s, Search(head + s).value, l);
    } else if Search(head + s).Some? {
      var m := Search(head + s).value;
      MatchIsBelow(head, s, m.start, m.header, m.end);
    }
  }

  lemma SliceBelow(head: string, s: string, h: nat, e: nat)
    requires h <= e <= |s|
    ensures (head + s)[|head| + h..|head| + e] == s[h..e]
  {
  }

  /** `body[:h] + text + body[e:]`. */
  function Replaced(body: string, h: nat, e: nat, text: string): string
    requires h <= e <= |body|
  {
    body[..h] + text + body[e..]
  }

  lemma ReplacedBelow(head: string, s: string, text: string, h: nat, e: nat)
    requires h <= e <= |s|
    ensures Replaced(head + s, |head| + h, |head| + e, text) == head + Replaced(s, h, e, text)
  {
    assert (head + s)[..|head| + h] == head + s[..h] && (head + s)[|head| + e..] == s[e..];
  }

  ghost function NewLines(section: string, children: set<nat>): string {
    Join("\n", LinkLines(SortedNumbers(Numbers(section) + children)))
  }

  lemma UpdateReplaces(body: string, children: set<nat>, m: Section, section: string)
    requires Search(body) == Some(m) && section == SectionOf(body)
    ensures UpdateBody(body, children) == Some(Replaced(body, m.header, m.end, NewLines(section, children)))
  {
  }

  lemma UpdateMoves(head: string, s: string, children: set<nat>, m: Section, section: string)
    requires Search(s) == Some(m) && section == SectionOf(s)
    requires Search(head + s) == Some(Lowered(m, |head|)) && section == SectionOf(head + s)
    ensures UpdateBody(head + s, children) == Some(head + UpdateBody(s, children).value)
  {
    UpdateReplaces(s, children, m, section);
    UpdateReplaces(head + s, children, Lowered(m, |head|), section);
    ReplacedBelow(head, s, NewLines(section, children), m.header, m.end);
  }

  lemma UpdateIsBelow(head: string, s: string, children: set<nat>)
    requires Above(head)
    ensures Search(head + s).Some? <==> Search(s).Some?
    ensures Search(s).Some? ==> UpdateBody(head + s, children) == Some(head + UpdateBody(s, children).value)
  {
    SearchBelow(head, s);
    if Search(s).Some? {
      var m := Search(s).value;
      SliceBelow(head, s, m.header, m.end);
      UpdateMoves(head, s, children, m, SectionOf(s));
    }
  }

  /** Lines above that hold no `Blocks:` are neither rewritten nor read. */
  lemma HeadIsLeftAlone(head: string, s: string, children: set<nat>)
    requires Above(head)
    ensures Search(head + s).Some? <==> Search(s).Some?
    ensures Search(s).Some? ==> UpdateBody(head + s, children) == Some(head + UpdateBody(s, children).value)
    ensures AuditLegacy(head + s) == AuditLegacy(s)
  {
    UpdateIsBelow(head, s, children);
    ReadingIsBelow(head, s);
  }

  /** `[a-z0-9-]+`. */
  predicate RoadmapKey(key: string) { key != "" && forall c | c in key :: 'a' <= c <= 'z' || IsDigit(c) || c == '-' }

  /** The comment by which an issue of the roadmap is recognised. */
  function KeyComment(key: string): string { "<!-- roadmap-key:" + key + " -->\n" }

  lemma CommentIsAbove(key: string)
    requires RoadmapKey(key)
    ensures Above(KeyComment(key))
  {
    var comment := KeyComment(key);
    assert 'B' !in key && 'B' !in "<!-- roadmap-key:" && 'B' !in " -->\n";
    forall i: nat ensures !OccursAt(comment, BLOCKS, i) {
      if i < |comment| { assert comment[i] in comment; }
      HeadMissing(comment, BLOCKS, i);
    }
  }

  lemma CutOffIsMissed(children: set<nat>)
    requires children != {}
    ensures Search(CUT_OFF).Some?
    ensures AuditLegacy(UpdateBody(CUT_OFF, children).value) == Some({})
  {
    CutOffSearch();
    SearchUnique(CUT_OFF, Search(CUT_OFF).value, Section(30, 38, 44));
    CutOffFirstBlocks();
    CutOffChars();
    assert StopBetween(CUT_OFF, Section(30, 38, 44));
    CutOffReading();
    AuditAfterUpdate(CUT_OFF, children);
  }

  /** Whatever key the issue has and whatever children it gets, the audit misses every child in this body. */
  lemma AuditMissesChildren(key: string, children: set<nat>)
    requires RoadmapKey(key) && children != {}
    ensures var body := KeyComment(key) + CUT_OFF;
            Search(body).Some? && AuditLegacy(UpdateBody(body, children).value) == Some({})
  {
    CutOffIsMissed(children);
    CommentIsAbove(key);
    HeadIsLeftAlone(KeyComment(key), CUT_OFF, children);
    HeadIsLeftAlone(KeyComment(key), UpdateBody(CUT_OFF, children).value, children);
  }

  // ---------- the rewrite of a rendered body ----------

  /** A body that goes on with `Dependency keys:` after its sections. */
  const KEYS_LINE := "Dependency keys:"

  lemma StopSplits()
    ensures STOP == BLANK + KEYS_LINE
  {
  }

  /** Where the section of a rendered body stands. */
  function RenderedAt(preamble: string, above: string, section: string): Section {
    var start := |preamble| + |Paragraph(above)|;
    Section(start, start + |BLOCKS| + 1, start + |BLOCKS| + 1 + |section|)
  }

  /** A body around its two sections. */
  function Around(preamble: string, above: string, section: string, rest: string): string {
    preamble + (Paragraph(above) + (BLOCKS + (Paragraph(section) + rest)))
  }

  lemma AroundPieces(preamble: string, above: string, section: string, rest: string)
    ensures var body, m := Around(preamble, above, section, rest), RenderedAt(preamble, above, section);
            && m.end <= |body|
            && body == (preamble + Paragraph(above) + BLOCKS + "\n") + (section + (BLANK + rest))
            && body[..m.header] == preamble + Paragraph(above) + BLOCKS + "\n"
            && body[m.header..m.end] == section && body[m.end..] == BLANK + rest
  {
    var body, m := Around(preamble, above, section, rest), RenderedAt(preamble, above, section);
    var head := preamble + Paragraph(above) + BLOCKS + "\n";
    assert body == head + (section + (BLANK + rest));
    assert |head| == m.header;
  }

  lemma HeaderAfterFront(front: string, tail: string)
    requires front != "" && front[|front| - 1] == '\n' && tail != "" && tail[0] == '-'
    ensures var body := front + (BLOCKS + ("\n" + tail));
            HeaderAt(body, |front|, |front| + |BLOCKS| + 1) && body[|front| + |BLOCKS| + 1] == '-'
  {
    var heading := BLOCKS + ("\n" + tail);
    var body := front + heading;
    assert heading[..|BLOCKS|] == BLOCKS && heading[|BLOCKS|] == '\n' && heading[|BLOCKS| + 1] == '-';
    OccursShift(front, heading, BLOCKS, 0);
  }

  lemma RenderedHeader(preamble: string, above: string, section: string, rest: string)
    requires Tight(section) && section[0] == '-'
    ensures var body, m := Around(preamble, above, section, rest), RenderedAt(preamble, above, section);
            HeaderAt(body, m.start, m.header) && body[m.header] == '-'
  {
    var front, tail := preamble + Paragraph(above), section + (BLANK + rest);
    AroundPieces(preamble, above, section, rest);
    HeaderAfterFront(front, tail);
    assert Around(preamble, above, section, rest) == front + (BLOCKS + ("\n" + tail));
  }

  lemma RenderedStop(preamble: string, above: string, section: string, after: string)
    requires Tight(section)
    ensures var body, m := Around(preamble, above, section, KEYS_LINE + after), RenderedAt(preamble, above, section);
            OccursAt(body, STOP, m.end) && forall e: nat | m.header <= e < m.end :: !OccursAt(body, STOP, e)
  {
    var rest := KEYS_LINE + after;
    var body, m := Around(preamble, above, section, rest), RenderedAt(preamble, above, section);
    AroundPieces(preamble, above, section, rest);
    var head := body[..m.header];
    StopSplits();
    assert BLANK + rest == STOP + after;
    assert body == head + (section + (STOP + after));
    assert body[m.end..m.end + |STOP|] == STOP;
    forall e: nat | m.header <= e < m.end ensures !OccursAt(body, STOP, e) {
      FirstBlankEnds(head, section, STOP, after, e);
    }
  }

  lemma RenderedSearch(preamble: string, above: string, section: string, after: string)
    requires !Contains(preamble, BLOCKS) && 'B' !in above && Tight(section) && section[0] == '-'
    ensures Search(Around(preamble, above, section, KEYS_LINE + after)) ==
            Some(RenderedAt(preamble, above, section))
  {
    var rest := KEYS_LINE + after;
    var body, m := Around(preamble, above, section, rest), RenderedAt(preamble, above, section);
    RenderedHeader(preamble, above, section, rest);
    RenderedStop(preamble, above, section, after);
    var heading := BLOCKS + (Paragraph(section) + rest);
    forall i: nat, h: nat, e: nat | Matches(body, i, h, e) ensures NotBefore(m, i, h, e) {
      if i < m.start { NoBlocksBefore(preamble, Paragraph(above), heading, i); }
      assert !IsSpace(body[m.header]);
    }
    assert Matches(body, m.start, m.header, m.end);
    assert IsSearch(body, m);
    SearchUnique(body, Search(body).value, m);
  }

  /** A rendered body has an editable section: it lists exactly the issues it blocks, and what stands above and
      below is the text given. */
  lemma RenderedSection(preamble: string, blockedBy: seq<nat>, blocks: seq<nat>, after: string)
    requires !Contains(preamble, BLOCKS)
    ensures var body := RenderBody(preamble, blockedBy, blocks, KEYS_LINE + after);
            && Search(body).Some? && Existing(body) == Elements(blocks)
            && SectionOf(body) == LinesOf(blocks)
            && preamble <= body && body[Search(body).value.end..] == BLANK + KEYS_LINE + after
  {
    SectionTextFacts(blockedBy);
    SectionTextFacts(blocks);
    RenderedSearch(preamble, SectionText(blockedBy), SectionText(blocks), after);
    AroundPieces(preamble, SectionText(blockedBy), SectionText(blocks), KEYS_LINE + after);
    LinesAreSection(blocks);
  }

  /** One line for each number, or a line that says there is none. */
  ghost function LinesOf(nums: seq<nat>): string {
    if nums == [] then "- None" else Join("\n", LinkLines(nums))
  }

  lemma LinesAreSection(nums: seq<nat>)
    ensures SectionText(nums) == LinesOf(nums)
  {
  }

  lemma ReplacedAround(preamble: string, above: string, section: string, next: string, rest: string)
    ensures var m := RenderedAt(preamble, above, section);
            && m.header <= m.end <= |Around(preamble, above, section, rest)|
            && Replaced(Around(preamble, above, section, rest), m.header, m.end, next) ==
               Around(preamble, above, next, rest)
  {
    AroundPieces(preamble, above, section, rest);
    AroundPieces(preamble, above, next, rest);
    var head := preamble + Paragraph(above) + BLOCKS + "\n";
    assert head + next + (BLANK + rest) == head + (next + (BLANK + rest));
  }

  lemma RewriteOfAround(preamble: string, above: string, section: string, after: string, children: set<nat>)
    requires !Contains(preamble, BLOCKS) && 'B' !in above && Tight(section) && section[0] == '-'
    ensures UpdateBody(Around(preamble, above, section, KEYS_LINE + after), children) ==
            Some(Around(preamble, above, NewLines(section, children), KEYS_LINE + after))
  {
    var body := Around(preamble, above, section, KEYS_LINE + after);
    RenderedSearch(preamble, above, section, after);
    AroundPieces(preamble, above, section, KEYS_LINE + after);
    UpdateReplaces(body, children, RenderedAt(preamble, above, section), section);
    ReplacedAround(preamble, above, section, NewLines(section, children), KEYS_LINE + after);
  }

  /** Rewriting a rendered body with new children is rendering it with all of them, in order. */
  lemma RewriteOfRendering(preamble: string, blockedBy: seq<nat>, blocks: seq<nat>, after: string, children: set<nat>)
    requires !Contains(preamble, BLOCKS) && children != {}
    ensures UpdateBody(RenderBody(preamble, blockedBy, blocks, KEYS_LINE + after), children) ==
            Some(RenderBody(preamble, blockedBy, SortedNumbers(Elements(blocks) + children), KEYS_LINE + after))
  {
    SectionTextFacts(blockedBy);
    SectionTextFacts(blocks);
    RewriteOfAround(preamble, SectionText(blockedBy), SectionText(blocks), after, children);
    NewLinesOfSection(blocks, children);
  }

  lemma NewLinesOfSection(blocks: seq<nat>, children: set<nat>)
    requires children != {}
    ensures NewLines(SectionText(blocks), children) == SectionText(SortedNumbers(Elements(blocks) + children))
  {
    SectionTextFacts(blocks);
    assert SortedNumbers(Elements(blocks) + children) != [];
  }
}
