/** `progress.py generate` and `check` over the repository's files. */
module ProgressDocs {
  import opened Ordering
  import opened Text
  import opened ReadmeSplice

  datatype Target = Escapes | Local(path: string)

  datatype RenderError = ReadmeMissing | BadMarkers(cause: SpliceError) | BrokenLink(path: string)

  /** What the data alone determines: the README block's body and the other documents, and which
      paths a document's links resolve to. */
  datatype Rendering = Rendering(body: string, documents: map<string, string>, links: (string, string) -> set<Target>)

  ghost predicate LinkHolds(files: map<string, string>, outputs: map<string, string>, t: Target) {
    t.Local? && (t.path in files || t.path in outputs)
  }

  ghost predicate LinksHold(files: map<string, string>, outputs: map<string, string>, r: Rendering) {
    forall p | p in outputs :: forall t | t in r.links(p, outputs[p]) :: LinkHolds(files, outputs, t)
  }

  /** All generated files with the content they should have. */
  function Outputs(files: map<string, string>, r: Rendering): Outcome<map<string, string>, RenderError> {
    if README_PATH !in files then Fail(ReadmeMissing)
    else match Splice(files[README_PATH], Block(r.body))
      case Fail(e) => Fail(BadMarkers(e))
      case Ok(readme) => Ok(map[README_PATH := readme] + r.documents)
  }

  ghost predicate Renders(files: map<string, string>, r: Rendering) {
    Outputs(files, r).Ok? && LinksHold(files, Outputs(files, r).value, r)
  }

  predicate StaleAt(files: map<string, string>, path: string, content: string) {
    path !in files || files[path] != content
  }

  ghost predicate Current(files: map<string, string>, r: Rendering) {
    Renders(files, r) && forall p | p in Outputs(files, r).value :: !StaleAt(files, p, Outputs(files, r).value[p])
  }

  /** The files to write: the README's text before and after its one pair of markers is kept around the new
      block, the documents are as rendered, and every link leads to a file. */
  ghost predicate Rendered(files: map<string, string>, r: Rendering, outputs: map<string, string>) {
    && README_PATH in files
    && LinksHold(files, outputs, r)
    && exists i: nat, j: nat :: i < j && PairAt(files[README_PATH], i, j) && j + |END_MARKER| <= |files[README_PATH]| &&
         outputs == map[README_PATH := Around(files[README_PATH], i, START_MARKER + r.body + END_MARKER, j)]
                    + r.documents
  }

  /** The text before `i`, the block, and the text after the end marker at `j`. */
  ghost function Around(readme: string, i: nat, block: string, j: nat): string
    requires i < j && j + |END_MARKER| <= |readme|
  {
    readme[..i] + block + readme[j + |END_MARKER|..]
  }

  lemma RendersMeansRendered(files: map<string, string>, r: Rendering)
    ensures Renders(files, r) ==> Rendered(files, r, Outputs(files, r).value)
    ensures forall outputs :: Rendered(files, r, outputs) ==> Renders(files, r) && Outputs(files, r) == Ok(outputs)
  {
    if README_PATH in files {
      var readme, block := files[README_PATH], START_MARKER + r.body + END_MARKER;
      SpliceExactly(readme, block);
      assert Block(r.body) == block;
      if Renders(files, r) {
        var i: nat, j: nat :| i < j && PairAt(readme, i, j);
        assert Splice(readme, block) == Ok(Around(readme, i, block, j));
      }
      forall outputs | Rendered(files, r, outputs) ensures Outputs(files, r) == Ok(outputs) {
        var i: nat, j: nat :| i < j && PairAt(readme, i, j) && j + |END_MARKER| <= |readme| &&
                              outputs == map[README_PATH := Around(readme, i, block, j)] + r.documents;
      }
    }
  }

  class Repository {
    var files: map<string, string>

    /** `expected_outputs`: render everything, then resolve every link. */
    method ExpectedOutputs(r: Rendering) returns (outputs: Outcome<map<string, string>, RenderError>)
      ensures outputs.Ok? <==> Renders(files, r)
      ensures outputs.Ok? ==> outputs == Outputs(files, r)
    {
      outputs := Outputs(files, r);
      if outputs.Fail? { return; }
      var rendered := outputs.value;
      var todo := rendered.Keys;
      while todo != {}
        invariant todo <= rendered.Keys
        invariant forall p | p in rendered.Keys - todo ::
                    forall t | t in r.links(p, rendered[p]) :: LinkHolds(files, rendered, t)
        decreases todo
      {
        var path :| path in todo;
        var links := r.links(path, rendered[path]);
        while links != {}
          invariant links <= r.links(path, rendered[path])
          invariant forall t | t in r.links(path, rendered[path]) - links :: LinkHolds(files, rendered, t)
          decreases links
        {
          var target :| target in links;
          if target.Escapes? || (target.path !in files && target.path !in rendered) {
            assert !LinkHolds(files, rendered, target);
            return Fail(BrokenLink(path));
          }
          links := links - {target};
        }
        todo := todo - {path};
      }
    }

    method Stale(outputs: map<string, string>) returns (stale: set<string>)
      ensures stale == set p | p in outputs && StaleAt(files, p, outputs[p])
    {
      stale := set p | p in outputs && StaleAt(files, p, outputs[p]);
    }

    /** `check`: succeeds exactly when rendering succeeds and no generated file differs. */
    method Check(r: Rendering) returns (ok: bool)
      ensures ok <==> Current(files, r)
      ensures ok <==> exists outputs :: Rendered(files, r, outputs) &&
                                        forall p | p in outputs :: p in files && files[p] == outputs[p]
    {
      RendersMeansRendered(files, r);
      var outputs := ExpectedOutputs(r);
      if outputs.Fail? { return false; }
      var stale := Stale(outputs.value);
      ok := stale == {};
      assert ok ==> forall p | p in outputs.value :: p !in stale;
      if p :| p in outputs.value && StaleAt(files, p, outputs.value[p]) { assert p in stale; }
    }

    /** `generate`: writes what differs, touches nothing else. */
    method Generate(r: Rendering) returns (ok: bool)
      modifies this
      ensures ok <==> Renders(old(files), r)
      ensures files == if ok then old(files) + Outputs(old(files), r).value else old(files)
      ensures ok <==> exists outputs :: Rendered(old(files), r, outputs)
      ensures ok ==> exists outputs :: Rendered(old(files), r, outputs) && files == old(files) + outputs
    {
      RendersMeansRendered(files, r);
      var outputs := ExpectedOutputs(r);
      if outputs.Fail? { return false; }
      var todo := outputs.value.Keys;
      while todo != {}
        invariant todo <= outputs.value.Keys && files == old(files) + (outputs.value - todo)
        decreases todo
      {
        var path :| path in todo;
        OneMoreWritten(old(files), outputs.value, todo, path);
        if StaleAt(files, path, outputs.value[path]) { files := files[path := outputs.value[path]]; }
        todo := todo - {path};
      }
      assert outputs.value - {} == outputs.value;
      ok := true;
    }
  }

  lemma OneMoreWritten(files: map<string, string>, outputs: map<string, string>, todo: set<string>, path: string)
    requires path in todo && path in outputs
    ensures var before, after := files + (outputs - todo), files + (outputs - (todo - {path}));
            after == if StaleAt(before, path, outputs[path]) then before[path := outputs[path]] else before
  {
  }

  /** `check` passes straight after `generate` exactly when the rendered body holds no marker; then
      generating again changes no file. */
  lemma CheckAfterGenerate(files: map<string, string>, r: Rendering)
    requires Renders(files, r) && README_PATH !in r.documents
    ensures var after := files + Outputs(files, r).value;
            && (Current(after, r) <==> MarkerFree(r.body))
            && (MarkerFree(r.body) ==> after + Outputs(after, r).value == after)
  {
    var outputs := Outputs(files, r).value;
    var after := files + outputs;
    SpliceAgain(files[README_PATH], r.body, Block(r.body));
    assert after[README_PATH] == Splice(files[README_PATH], Block(r.body)).value;
    if MarkerFree(r.body) {
      assert Outputs(after, r) == Ok(outputs);
      forall p | p in outputs ensures forall t | t in r.links(p, outputs[p]) :: LinkHolds(after, outputs, t) {
        forall t | t in r.links(p, outputs[p]) ensures LinkHolds(after, outputs, t) {
          assert LinkHolds(files, outputs, t);
        }
      }
      assert after + outputs == after;
    }
  }

  /** After a generation, whatever is rendered next can be spliced exactly when the body had no marker. */
  lemma LaterRunsNeedMarkerFree(files: map<string, string>, r: Rendering, later: Rendering)
    requires Renders(files, r) && README_PATH !in r.documents
    ensures Outputs(files + Outputs(files, r).value, later).Ok? <==> MarkerFree(r.body)
  {
    SpliceAgain(files[README_PATH], r.body, Block(later.body));
    assert (files + Outputs(files, r).value)[README_PATH] == Splice(files[README_PATH], Block(r.body)).value;
  }

  /** A marker in the rendered text, carried by a milestone's title for instance: generation succeeds, and from
      then on neither `check` nor `generate` does, whatever the data. */
  lemma MarkerStopsLaterRuns(files: map<string, string>, r: Rendering, later: Rendering)
    requires Renders(files, r) && README_PATH !in r.documents
    requires Contains(r.body, START_MARKER) || Contains(r.body, END_MARKER)
    ensures var after := files + Outputs(files, r).value;
            !Renders(after, later) && !Current(after, later)
  {
    LaterRunsNeedMarkerFree(files, r, later);
  }

  function NoLinks(path: string, content: string): set<Target> { {} }

  lemma EmptyPairSplices(block: string)
    ensures Splice(Block(""), block).Ok?
  {
    var readme := Block("");
    MarkersAreHeadOnly();
    assert MarkerFree("");
    MarkedIsSpliced("", "", "");
    assert readme == "" + Block("") + "" == Marked("", "", "");
    MarkedCounts("", "", "");
    MarkerFreeMeansOnly("", "", "");
    CountOneMeansOnly(readme, START_MARKER);
    CountOneMeansOnly(readme, END_MARKER);
  }

  /** There is such a rendering: a README that holds the pair of markers alone, and a title with a marker. */
  lemma MarkerInTitle(before: string, after: string)
    ensures var files := map[README_PATH := Block("")];
            var r := Rendering(before + START_MARKER + after, map[], NoLinks);
            Renders(files, r) && Contains(r.body, START_MARKER)
  {
    var files := map[README_PATH := Block("")];
    var r := Rendering(before + START_MARKER + after, map[], NoLinks);
    EmptyPairSplices(Block(r.body));
    assert OccursAt(r.body, START_MARKER, |before|);
    assert Contains(r.body, START_MARKER);
  }

  lemma LaterKeysWin(files: map<string, string>, a: map<string, string>, b: map<string, string>)
    requires a.Keys == b.Keys
    ensures (files + a) + b == files + b
  {
  }

  /** A later rendering of other data replaces the earlier one and leaves no trace of it. */
  lemma LastGenerationWins(files: map<string, string>, r: Rendering, r': Rendering)
    requires Outputs(files, r).Ok? && Outputs(files, r').Ok? && MarkerFree(r.body)
    requires README_PATH !in r.documents && r.documents.Keys == r'.documents.Keys
    ensures var after := files + Outputs(files, r).value;
            && Outputs(after, r') == Outputs(files, r')
            && after + Outputs(after, r').value == files + Outputs(files, r').value
  {
    var first, second := Outputs(files, r).value, Outputs(files, r').value;
    SpliceAgain(files[README_PATH], r.body, Block(r'.body));
    assert (files + first)[README_PATH] == Splice(files[README_PATH], Block(r.body)).value;
    assert Outputs(files + first, r') == Outputs(files, r');
    assert first.Keys == {README_PATH} + r.documents.Keys && second.Keys == {README_PATH} + r'.documents.Keys;
    LaterKeysWin(files, first, second);
  }
}
