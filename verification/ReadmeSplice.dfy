/** The generated block of README.md: splicing it in, and checking that it is current. */
module ReadmeSplice {
  import opened Ordering
  import opened Text

  const OPENING := "<!-- "
  const MARKED_TEXT := " GENERATED MODELSURGEON"
  const CLOSING := " PROGRESS -->"
  const START_MARKER := OPENING + "BEGIN" + MARKED_TEXT + CLOSING
  const END_MARKER := OPENING + "END" + MARKED_TEXT + CLOSING
  const README_PATH := "README.md"

  // ---------- counting occurrences ----------

  /** `str.count`: occurrences from the left that do not overlap. */
  function Count(s: string, m: string): nat
    requires m != ""
    decreases |s|
  {
    match Find(s, m)
    case None => 0
    case Some(i) => 1 + Count(s[i + |m|..], m)
  }

  /** The first character comes back nowhere in the marker, so its occurrences never overlap. */
  predicate HeadOnly(m: string) { m != "" && forall i | 0 < i < |m| :: m[i] != m[0] }

  ghost predicate OnlyAt(s: string, m: string, i: nat) {
    OccursAt(s, m, i) && forall j: nat | OccursAt(s, m, j) :: j == i
  }

  lemma NoOverlap(s: string, m: string, i: nat, j: nat)
    requires HeadOnly(m) && OccursAt(s, m, i) && OccursAt(s, m, j) && i < j
    ensures i + |m| <= j
  {
    if j < i + |m| {
      CharAt(s, m, i, j);
      CharAt(s, m, j, j);
    }
  }

  lemma CountZero(s: string, m: string)
    requires m != ""
    ensures Count(s, m) == 0 <==> !Contains(s, m)
  {
    if Contains(s, m) { var i: nat :| OccursAt(s, m, i); }
  }

  /** `count == 1` means there is exactly one occurrence, and `index` finds it. */
  lemma CountOneMeansOnly(s: string, m: string)
    requires HeadOnly(m)
    ensures Count(s, m) == 1 <==> exists i: nat :: OnlyAt(s, m, i)
    ensures Count(s, m) == 1 ==> Find(s, m).Some? && OnlyAt(s, m, Find(s, m).value)
  {
    if Find(s, m).Some? {
      var i := Find(s, m).value;
      NoMoreCount(s, m, i);
      CountOneMeansNoMore(s, m, i, OnlyAt(s, m, i));
    }
    forall i: nat | OnlyAt(s, m, i) ensures Find(s, m) == Some(i) { FindUnique(s, m, i); }
  }

  lemma CountOneMeansNoMore(s: string, m: string, i: nat, noMore: bool)
    requires m != "" && Find(s, m) == Some(i) && (noMore <==> Count(s[i + |m|..], m) == 0)
    ensures Count(s, m) == 1 <==> noMore
  {
  }

  /** The first occurrence is the only one exactly when none is counted after it. */
  lemma NoMoreCount(s: string, m: string, i: nat)
    requires HeadOnly(m) && Find(s, m) == Some(i)
    ensures OnlyAt(s, m, i) <==> Count(s[i + |m|..], m) == 0
  {
    var rest := s[i + |m|..];
    CountZero(rest, m);
    if j: nat :| OccursAt(rest, m, j) { LaterOccurrence(s, m, i, j); }
    forall j: nat | OccursAt(s, m, j) && j != i ensures Contains(rest, m) {
      OccursLater(s, m, i, j);
    }
  }

  lemma LaterOccurrence(s: string, m: string, i: nat, j: nat)
    requires OccursAt(s, m, i) && OccursAt(s[i + |m|..], m, j)
    ensures OccursAt(s, m, i + |m| + j)
  {
    var rest := s[i + |m|..];
    assert s == s[..i + |m|] + rest;
    OccursShift(s[..i + |m|], rest, m, j);
  }

  lemma OccursLater(s: string, m: string, i: nat, j: nat)
    requires HeadOnly(m) && OccursAt(s, m, i) && OccursAt(s, m, j) && i < j
    ensures i + |m| <= j && OccursAt(s[i + |m|..], m, j - i - |m|)
  {
    var rest := s[i + |m|..];
    NoOverlap(s, m, i, j);
    assert s == s[..i + |m|] + rest;
    OccursShift(s[..i + |m|], rest, m, j - i - |m|);
  }

  ghost predicate MarkerFree(s: string) { !Contains(s, START_MARKER) && !Contains(s, END_MARKER) }

  // ---------- occurrences at the seams ----------

  /** No occurrence reaches across a place where the marker's head character stands. */
  lemma NoStraddle(a: string, b: string, m: string, j: nat)
    requires HeadOnly(m) && b != "" && b[0] == m[0] && OccursAt(a + b, m, j)
    ensures j + |m| <= |a| || |a| <= j
  {
    if j < |a| < j + |m| { CharAt(a + b, m, j, |a|); }
  }

  /** No occurrence starts inside another marker with the same head. */
  lemma NoStartInside(a: string, mark: string, b: string, m: string, j: nat)
    requires HeadOnly(m) && HeadOnly(mark) && mark[0] == m[0] && |a| < j < |a| + |mark|
    ensures !OccursAt(a + (mark + b), m, j)
  {
    var s := a + (mark + b);
    assert s[j] == mark[j - |a|];
    if OccursAt(s, m, j) { CharAt(s, m, j, j); }
  }

  function Marked(pre: string, body: string, post: string): string {
    pre + (START_MARKER + (body + (END_MARKER + post)))
  }

  lemma HeadOnlyAppend(a: string, b: string)
    requires HeadOnly(a) && a[0] !in b
    ensures HeadOnly(a + b) && (a + b)[0] == a[0]
  {
  }

  lemma MarkersAreHeadOnly()
    ensures HeadOnly(START_MARKER) && HeadOnly(END_MARKER) && START_MARKER[0] == END_MARKER[0]
    ensures START_MARKER[5] != END_MARKER[5]
  {
    assert OPENING[0] == '<' && '<' !in "BEGIN" && '<' !in "END" && '<' !in MARKED_TEXT && '<' !in CLOSING;
    HeadOnlyAppend(OPENING, "BEGIN");
    HeadOnlyAppend(OPENING + "BEGIN", MARKED_TEXT);
    HeadOnlyAppend(OPENING + "BEGIN" + MARKED_TEXT, CLOSING);
    HeadOnlyAppend(OPENING, "END");
    HeadOnlyAppend(OPENING + "END", MARKED_TEXT);
    HeadOnlyAppend(OPENING + "END" + MARKED_TEXT, CLOSING);
  }

  /** Two markers never occur at the same place. */
  lemma MarkersDiffer(s: string, j: nat)
    ensures !(OccursAt(s, START_MARKER, j) && OccursAt(s, END_MARKER, j))
  {
    MarkersAreHeadOnly();
    if OccursAt(s, START_MARKER, j) && OccursAt(s, END_MARKER, j) {
      CharAt(s, START_MARKER, j, j + 5);
      CharAt(s, END_MARKER, j, j + 5);
    }
  }

  ghost predicate IsMarker(m: string) {
    HeadOnly(m) && m[0] == START_MARKER[0] && (m == START_MARKER || m == END_MARKER)
  }

  lemma OccursShiftTwice(a: string, b: string, s: string, m: string, i: nat)
    ensures OccursAt(a + (b + s), m, |a| + (|b| + i)) <==> OccursAt(s, m, i)
  {
    OccursShift(a, b + s, m, |b| + i);
    OccursShift(b, s, m, i);
  }

  /** Occurrences in `mark + rest`, read from the front. */
  lemma OccurrencesAfterMark(pre: string, mark: string, rest: string, m: string, j: nat)
    requires IsMarker(m) && IsMarker(mark) && OccursAt(pre + (mark + rest), m, j)
    ensures || OccursAt(pre, m, j)
            || (j == |pre| && m == mark)
            || (|pre| + |mark| <= j && OccursAt(rest, m, j - |pre| - |mark|))
  {
    NoStraddle(pre, mark + rest, m, j);
    if j + |m| <= |pre| {
      OccursInPrefix(pre, mark + rest, m, j);
    } else if j == |pre| {
      OccursShift(pre, mark + rest, m, 0);
      assert OccursAt(mark + rest, mark, 0) by { assert (mark + rest)[..|mark|] == mark; }
      MarkersDiffer(mark + rest, 0);
    } else if j < |pre| + |mark| {
      NoStartInside(pre, mark, rest, m, j);
    } else {
      OccursShiftTwice(pre, mark, rest, m, j - |pre| - |mark|);
    }
  }

  /** Where a marker can occur in a text built around one marker pair. */
  lemma OccurrencesInMarked(pre: string, body: string, post: string, m: string, j: nat)
    requires IsMarker(m) && MarkerFree(pre) && MarkerFree(body) && MarkerFree(post)
    requires OccursAt(Marked(pre, body, post), m, j)
    ensures if m == START_MARKER then j == |pre| else j == |pre| + |START_MARKER| + |body|
  {
    MarkersAreHeadOnly();
    MarkersDiffer(m, 0);
    var inner := body + (END_MARKER + post);
    OccurrencesAfterMark(pre, START_MARKER, inner, m, j);
    if |pre| + |START_MARKER| <= j && OccursAt(inner, m, j - |pre| - |START_MARKER|) {
      OccurrencesAfterMark(body, END_MARKER, post, m, j - |pre| - |START_MARKER|);
    }
  }

  /** The pair itself, and anything inside the body, does occur. */
  lemma MarkedOccurs(pre: string, body: string, post: string)
    ensures OccursAt(Marked(pre, body, post), START_MARKER, |pre|)
    ensures OccursAt(Marked(pre, body, post), END_MARKER, |pre| + |START_MARKER| + |body|)
    ensures forall m: string, i: nat | OccursAt(body, m, i) ::
              OccursAt(Marked(pre, body, post), m, |pre| + |START_MARKER| + i)
  {
    var tail := END_MARKER + post;
    var inner := body + tail;
    var block := START_MARKER + inner;
    assert OccursAt(block, START_MARKER, 0) by { assert block[..|START_MARKER|] == START_MARKER; }
    OccursShift(pre, block, START_MARKER, 0);
    assert OccursAt(tail, END_MARKER, 0) by { assert tail[..|END_MARKER|] == END_MARKER; }
    OccursShift(body, tail, END_MARKER, 0);
    OccursShift(START_MARKER, inner, END_MARKER, |body|);
    OccursShift(pre, block, END_MARKER, |START_MARKER| + |body|);
    forall m: string, i: nat | OccursAt(body, m, i)
      ensures OccursAt(Marked(pre, body, post), m, |pre| + |START_MARKER| + i)
    {
      OccursInPrefix(body, tail, m, i);
      OccursShift(START_MARKER, inner, m, i);
      OccursShift(pre, block, m, |START_MARKER| + i);
    }
  }

  // ---------- the splice of expected_outputs ----------

  datatype SpliceError = NotOnePair | OutOfOrder

  function Block(body: string): string { START_MARKER + body + END_MARKER }

  function Splice(readme: string, block: string): Outcome<string, SpliceError> {
    if Count(readme, START_MARKER) != 1 || Count(readme, END_MARKER) != 1 then Fail(NotOnePair)
    else
      CountZero(readme, START_MARKER);
      CountZero(readme, END_MARKER);
      var start := Find(readme, START_MARKER).value;
      var end := Find(readme, END_MARKER).value;
      if end < start then Fail(OutOfOrder)
      else Ok(readme[..start] + block + readme[end + |END_MARKER|..])
  }

  /** The text before a marker's only occurrence does not contain it ... */
  lemma ClearBefore(s: string, m: string, at: nat, cut: nat)
    requires OnlyAt(s, m, at) && m != "" && cut <= at
    ensures !Contains(s[..cut], m)
  {
    forall i: nat ensures !OccursAt(s[..cut], m, i) {
      assert s == s[..cut] + s[cut..];
      if i + |m| <= cut { OccursInPrefix(s[..cut], s[cut..], m, i); }
    }
  }

  /** ... and neither does the text from any later point on. */
  lemma ClearAfter(s: string, m: string, at: nat, cut: nat)
    requires OnlyAt(s, m, at) && m != "" && at < cut <= |s|
    ensures !Contains(s[cut..], m)
  {
    forall i: nat ensures !OccursAt(s[cut..], m, i) {
      assert s == s[..cut] + s[cut..];
      OccursShift(s[..cut], s[cut..], m, i);
    }
  }

  predicate EndsWith(s: string, t: string) { |t| <= |s| && s[|s| - |t|..] == t }

  /** A README whose markers may be spliced: text before, one pair, text after. */
  lemma SplitReadme(readme: string, block: string) returns (pre: string, post: string)
    requires Splice(readme, block).Ok?
    ensures MarkerFree(pre) && MarkerFree(post) && pre <= readme && EndsWith(readme, post)
    ensures forall b :: Splice(readme, b) == Ok(pre + b + post)
  {
    MarkersAreHeadOnly();
    CountOneMeansOnly(readme, START_MARKER);
    CountOneMeansOnly(readme, END_MARKER);
    var start, end := Find(readme, START_MARKER).value, Find(readme, END_MARKER).value;
    var cut := end + |END_MARKER|;
    pre, post := readme[..start], readme[cut..];
    ClearBefore(readme, START_MARKER, start, start);
    ClearBefore(readme, END_MARKER, end, start);
    ClearAfter(readme, START_MARKER, start, cut);
    ClearAfter(readme, END_MARKER, end, cut);
  }

  lemma MarkerFreeMeansOnly(pre: string, body: string, post: string)
    requires MarkerFree(pre) && MarkerFree(body) && MarkerFree(post)
    ensures OnlyAt(Marked(pre, body, post), START_MARKER, |pre|)
    ensures OnlyAt(Marked(pre, body, post), END_MARKER, |pre| + |START_MARKER| + |body|)
  {
    var s := Marked(pre, body, post);
    MarkersAreHeadOnly();
    MarkersDiffer(START_MARKER, 0);
    MarkedOccurs(pre, body, post);
    forall j: nat | OccursAt(s, START_MARKER, j) ensures j == |pre| {
      OccurrencesInMarked(pre, body, post, START_MARKER, j);
    }
    forall j: nat | OccursAt(s, END_MARKER, j) ensures j == |pre| + |START_MARKER| + |body| {
      OccurrencesInMarked(pre, body, post, END_MARKER, j);
    }
  }

  /** Around marker-free text, a block with a marker-free body is the only pair; a body with a
      marker in it makes a second one. */
  lemma MarkedCounts(pre: string, body: string, post: string)
    requires MarkerFree(pre) && MarkerFree(post)
    ensures var s := Marked(pre, body, post);
            Count(s, START_MARKER) == 1 && Count(s, END_MARKER) == 1 <==> MarkerFree(body)
  {
    var s := Marked(pre, body, post);
    MarkersAreHeadOnly();
    CountOneMeansOnly(s, START_MARKER);
    CountOneMeansOnly(s, END_MARKER);
    MarkedOccurs(pre, body, post);
    if MarkerFree(body) { MarkerFreeMeansOnly(pre, body, post); }
    if i: nat :| OccursAt(body, START_MARKER, i) {
      assert OccursAt(s, START_MARKER, |pre| + |START_MARKER| + i);
      assert forall k: nat :: !OnlyAt(s, START_MARKER, k);
    }
    if i: nat :| OccursAt(body, END_MARKER, i) {
      assert OccursAt(s, END_MARKER, |pre| + |START_MARKER| + i);
      assert i < |body|;
      assert forall k: nat :: !OnlyAt(s, END_MARKER, k);
    }
  }

  lemma MarkedIsSpliced(pre: string, body: string, post: string)
    ensures pre + Block(body) + post == Marked(pre, body, post)
  {
  }

  ghost predicate PairAt(readme: string, i: nat, j: nat) {
    OnlyAt(readme, START_MARKER, i) && OnlyAt(readme, END_MARKER, j)
  }

  ghost predicate HasOne(readme: string, m: string) { exists i: nat :: OnlyAt(readme, m, i) }

  lemma OnlyOne(s: string, m: string, i: nat)
    requires HeadOnly(m) && OnlyAt(s, m, i)
    ensures Count(s, m) == 1 && Find(s, m) == Some(i)
  {
    CountOneMeansOnly(s, m);
    FindUnique(s, m, i);
  }

  lemma SpliceOfPair(readme: string, i: nat, j: nat, block: string)
    requires PairAt(readme, i, j)
    ensures i != j && j + |END_MARKER| <= |readme|
    ensures Splice(readme, block) ==
            if j < i then Fail(OutOfOrder) else Ok(readme[..i] + block + readme[j + |END_MARKER|..])
  {
    MarkersAreHeadOnly();
    OnlyOne(readme, START_MARKER, i);
    OnlyOne(readme, END_MARKER, j);
    MarkersDiffer(readme, i);
  }

  lemma SpliceWithoutPair(readme: string, block: string)
    requires !HasOne(readme, START_MARKER) || !HasOne(readme, END_MARKER)
    ensures Splice(readme, block) == Fail(NotOnePair)
  {
    MarkersAreHeadOnly();
    CountOneMeansOnly(readme, START_MARKER);
    CountOneMeansOnly(readme, END_MARKER);
  }

  /** A README is accepted exactly when each marker occurs once and the pair is in order; the block then stands
      between the text before the first and the text after the second. The two refusals tell apart a missing
      or repeated marker and a pair out of order. */
  lemma SpliceExactly(readme: string, block: string)
    ensures Splice(readme, block).Ok? <==> exists i: nat, j: nat :: i < j && PairAt(readme, i, j)
    ensures forall i: nat, j: nat | i < j && PairAt(readme, i, j) ::
              j + |END_MARKER| <= |readme| &&
              Splice(readme, block) == Ok(readme[..i] + block + readme[j + |END_MARKER|..])
    ensures Splice(readme, block) == Fail(NotOnePair) <==>
            !HasOne(readme, START_MARKER) || !HasOne(readme, END_MARKER)
    ensures Splice(readme, block) == Fail(OutOfOrder) <==> exists i: nat, j: nat :: j < i && PairAt(readme, i, j)
  {
    forall i: nat, j: nat | PairAt(readme, i, j)
      ensures i != j && j + |END_MARKER| <= |readme|
      ensures Splice(readme, block) ==
              if j < i then Fail(OutOfOrder) else Ok(readme[..i] + block + readme[j + |END_MARKER|..])
    {
      SpliceOfPair(readme, i, j, block);
    }
    if HasOne(readme, START_MARKER) && HasOne(readme, END_MARKER) {
      var i: nat :| OnlyAt(readme, START_MARKER, i);
      var j: nat :| OnlyAt(readme, END_MARKER, j);
      assert PairAt(readme, i, j);
    } else {
      SpliceWithoutPair(readme, block);
    }
  }

  /** Around marker-free text the block between the markers is replaced, whatever stands before and after. */
  lemma SpliceReplaces(pre: string, body: string, post: string, block: string)
    requires MarkerFree(pre) && MarkerFree(body) && MarkerFree(post)
    ensures Splice(pre + Block(body) + post, block) == Ok(pre + block + post)
  {
    var readme := Marked(pre, body, post);
    var i, j := |pre|, |pre| + |START_MARKER| + |body|;
    MarkedIsSpliced(pre, body, post);
    MarkerFreeMeansOnly(pre, body, post);
    SpliceExactly(readme, block);
    assert PairAt(readme, i, j);
    assert readme[..i] == pre && readme[j + |END_MARKER|..] == post;
  }

  /** Splicing keeps the text before and after; the result can be spliced again exactly when the body
      holds no marker, and then splicing any block replaces this one and nothing else. */
  lemma SpliceAgain(readme: string, body: string, block: string)
    requires Splice(readme, Block(body)).Ok?
    ensures var r := Splice(readme, Block(body)).value;
            && (Splice(r, block).Ok? <==> MarkerFree(body))
            && (MarkerFree(body) ==> Splice(r, block) == Splice(readme, block))
  {
    var pre, post := SplitReadme(readme, Block(body));
    MarkedIsSpliced(pre, body, post);
    var r := Marked(pre, body, post);
    MarkedCounts(pre, body, post);
    if MarkerFree(body) {
      MarkersAreHeadOnly();
      MarkerFreeMeansOnly(pre, body, post);
      CountOneMeansOnly(r, START_MARKER);
      CountOneMeansOnly(r, END_MARKER);
      var cut := |pre| + |START_MARKER| + |body| + |END_MARKER|;
      assert r[..|pre|] == pre && r[cut..] == post;
    }
  }

  /** Regeneration is a fixed point, with the same text before and after the block. */
  lemma SpliceIsFixedPoint(readme: string, body: string)
    requires Splice(readme, Block(body)).Ok? && MarkerFree(body)
    ensures var r := Splice(readme, Block(body)).value;
            && Splice(r, Block(body)) == Ok(r)
            && exists pre, post :: pre <= readme && EndsWith(readme, post) &&
                 MarkerFree(pre) && MarkerFree(post) && r == pre + Block(body) + post
  {
    SpliceAgain(readme, body, Block(body));
    var pre, post := SplitReadme(readme, Block(body));
  }
}
