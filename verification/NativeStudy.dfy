/** The native half of the study: every candidate is a file, and no file is written twice. */
module NativeStudy {
  import opened Ordering
  import opened Text
  import opened ChannelRemoval
  import opened StudySelection

  datatype StudyError =
    | Refused(removed: seq<int>) | NotRepresentable(width: nat) | DestinationExists(path: string) | NothingMeasured

  /** How many values of a row the codec of the tensors stores together. */
  type BlockSize = n: nat | n > 0 witness 1

  /** A row of whole blocks. */
  predicate Representable(width: int, block: BlockSize) { width % block == 0 }

  /** A second channel can be removed. */
  predicate CanLoseTwo(width: nat, block: BlockSize) { width > 2 && Representable(width - 2, block) }

  /** Two widths in a row are representable only when every width is. */
  lemma WholeBlocksTwice(width: int, block: BlockSize)
    requires Representable(width - 1, block) && Representable(width - 2, block)
    ensures block == 1
  {
    var blocks := (width - 1) / block - (width - 2) / block;
    assert 1 == blocks * block;
    assert blocks <= 0 ==> blocks * block <= 0;
    assert blocks >= 1 ==> blocks * block >= block;
  }

  // ---------- the names of the files ----------

  const EXTENSION := ".gguf"
  const ONE := "native-g1-c"
  const TWO := "native-g2-c"

  function OnePath(c: nat): string { ONE + PrintNat(c) + EXTENSION }

  function PairPath(low: nat, high: nat): string { TWO + (PrintNat(low) + "-" + PrintNat(high)) + EXTENSION }

  function TwoPath(a: nat, b: nat): string { if a < b then PairPath(a, b) else PairPath(b, a) }

  lemma FilesAreNamed(c: nat, a: nat, b: nat)
    requires a < b
    ensures OnePath(c) == "native-g1-c" + PrintNat(c) + ".gguf"
    ensures TwoPath(a, b) == TwoPath(b, a) == "native-g2-c" + (PrintNat(a) + "-" + PrintNat(b)) + ".gguf"
  {
  }

  lemma Middle(front: string, a: string, b: string)
    requires front + a + EXTENSION == front + b + EXTENSION
    ensures a == b
  {
    var s, t := front + a + EXTENSION, front + b + EXTENSION;
    assert |a| == |b|;
    assert s[|front|..|front| + |a|] == a && t[|front|..|front| + |b|] == b;
  }

  lemma OnePathsApart(c: nat, d: nat)
    ensures OnePath(c) == OnePath(d) <==> c == d
  {
    if OnePath(c) == OnePath(d) {
      Middle(ONE, PrintNat(c), PrintNat(d));
      ParsePrint(c);
      ParsePrint(d);
    }
  }

  lemma PairPathsApart(a: nat, b: nat, c: nat, d: nat)
    ensures PairPath(a, b) == PairPath(c, d) <==> a == c && b == d
  {
    if PairPath(a, b) == PairPath(c, d) {
      Middle(TWO, PrintNat(a) + "-" + PrintNat(b), PrintNat(c) + "-" + PrintNat(d));
      NumeralsApart(PrintNat(a), PrintNat(b), PrintNat(c), PrintNat(d), '-');
      ParsePrint(a);
      ParsePrint(b);
      ParsePrint(c);
      ParsePrint(d);
    }
  }

  lemma TwoPathsApart(selected: nat, c: nat, d: nat)
    requires c != selected && d != selected
    ensures TwoPath(selected, c) == TwoPath(selected, d) <==> c == d
  {
    var x, y := TwoPath(selected, c), TwoPath(selected, d);
    PairPathsApart(if selected < c then selected else c, if selected < c then c else selected,
                   if selected < d then selected else d, if selected < d then d else selected);
  }

  lemma GenerationsApart(c: nat, a: nat, b: nat)
    ensures OnePath(c) != PairPath(a, b)
  {
    assert OnePath(c)[8] == ONE[8] == '1' && PairPath(a, b)[8] == TWO[8] == '2';
  }

  // ---------- what is written ----------

  type Files<T> = map<string, seq<T>>

  ghost predicate OnesFree<T>(files: Files<T>, channels: seq<int>) {
    forall c | c in channels && c >= 0 :: OnePath(c) !in files
  }

  ghost predicate TwosFree<T>(files: Files<T>, channels: seq<int>, selected: nat) {
    forall d | d in channels && d >= 0 && d != selected :: TwoPath(selected, d) !in files
  }

  /** Each channel can be removed from the baseline into a file of its own. */
  ghost predicate OnesPossible<T>(files: Files<T>, channels: seq<int>, width: nat, block: BlockSize) {
    AllRemovable(channels, width) && Distinct(channels) && OnesFree(files, channels) &&
    (channels != [] ==> Representable(width - 1, block))
  }

  /** No file that was there is changed. */
  ghost predicate Kept<T>(before: Files<T>, after: Files<T>) {
    forall f | f in before :: f in after && after[f] == before[f]
  }

  /** Beside what was there, the files of generation one, each the baseline without its channel. */
  ghost predicate OnesWritten<T>(before: Files<T>, after: Files<T>, baseline: seq<T>, channels: seq<nat>) {
    && Kept(before, after)
    && (forall f | f in after && f !in before :: exists c :: c in channels && f == OnePath(c))
    && (forall c | c in channels :: OnePath(c) in after && after[OnePath(c)] == Without(baseline, {c}))
  }

  /** Beside what was there, the files of generation two, each the baseline without its two channels. */
  ghost predicate TwosWritten<T>(before: Files<T>, after: Files<T>, baseline: seq<T>, channels: seq<nat>,
                                 selected: nat) {
    && Kept(before, after)
    && (forall f | f in after && f !in before ::
          exists d :: d in channels && d != selected && f == TwoPath(selected, d))
    && (forall d | d in channels && d != selected ::
          TwoPath(selected, d) in after && after[TwoPath(selected, d)] == Without(baseline, {selected, d}))
  }

  lemma OneMoreWritten<T>(before: Files<T>, after: Files<T>, baseline: seq<T>, channels: seq<nat>, c: nat)
    requires OnesWritten(before, after, baseline, channels) && OnePath(c) !in after
    ensures OnesWritten(before, after[OnePath(c) := Without(baseline, {c})], baseline, channels + [c])
  {
    var more := after[OnePath(c) := Without(baseline, {c})];
    forall f | f in more && f !in before ensures exists d :: d in channels + [c] && f == OnePath(d) {
      if f in after {
        var d :| d in channels && f == OnePath(d);
        assert d in channels + [c];
      } else {
        assert c in channels + [c];
      }
    }
    forall d | d in channels + [c] ensures OnePath(d) in more && more[OnePath(d)] == Without(baseline, {d}) {
      OnePathsApart(c, d);
    }
  }

  lemma TwoMoreWritten<T>(before: Files<T>, after: Files<T>, baseline: seq<T>, channels: seq<nat>, selected: nat,
                          d: nat)
    requires TwosWritten(before, after, baseline, channels, selected) && d != selected && TwoPath(selected, d) !in after
    ensures TwosWritten(before, after[TwoPath(selected, d) := Without(baseline, {selected, d})], baseline,
                        channels + [d], selected)
  {
    var more := after[TwoPath(selected, d) := Without(baseline, {selected, d})];
    forall f | f in more && f !in before
      ensures exists e :: e in channels + [d] && e != selected && f == TwoPath(selected, e)
    {
      if f in after {
        var e :| e in channels && e != selected && f == TwoPath(selected, e);
        assert e in channels + [d];
      } else {
        assert d in channels + [d];
      }
    }
    forall e | e in channels + [d] && e != selected
      ensures TwoPath(selected, e) in more && more[TwoPath(selected, e)] == Without(baseline, {selected, e})
    {
      TwoPathsApart(selected, d, e);
    }
  }

  lemma SelectedAgain<T>(before: Files<T>, after: Files<T>, baseline: seq<T>, channels: seq<nat>, selected: nat)
    requires TwosWritten(before, after, baseline, channels, selected)
    ensures TwosWritten(before, after, baseline, channels + [selected], selected)
  {
    forall f | f in after && f !in before
      ensures exists e :: e in channels + [selected] && e != selected && f == TwoPath(selected, e)
    {
      var e :| e in channels && e != selected && f == TwoPath(selected, e);
      assert e in channels + [selected];
    }
  }

  /** A file of generation one is there already exactly when it was before, or its channel repeats. */
  lemma OneIsTaken<T>(before: Files<T>, after: Files<T>, baseline: seq<T>, channels: seq<nat>, c: nat)
    requires OnesWritten(before, after, baseline, channels)
    ensures OnePath(c) in after <==> OnePath(c) in before || c in channels
  {
    if OnePath(c) in after && OnePath(c) !in before {
      var d :| d in channels && OnePath(c) == OnePath(d);
      OnePathsApart(c, d);
    }
  }

  lemma TwoIsTaken<T>(before: Files<T>, after: Files<T>, baseline: seq<T>, channels: seq<nat>, selected: nat, d: nat)
    requires TwosWritten(before, after, baseline, channels, selected) && d != selected
    ensures TwoPath(selected, d) in after <==> TwoPath(selected, d) in before || d in channels
  {
    if TwoPath(selected, d) in after && TwoPath(selected, d) !in before {
      var e :| e in channels && e != selected && TwoPath(selected, d) == TwoPath(selected, e);
      TwoPathsApart(selected, d, e);
    }
  }

  lemma OneMoreFor(ones: seq<Single>, channels: seq<int>, i: nat, measure: nat -> real)
    requires i < |channels| && channels[i] >= 0 && OnesFor(Native, ones, channels[..i], measure)
    ensures OnesFor(Native, ones + [Single(Native, channels[i], measure(i))], channels[..i + 1], measure)
  {
  }

  /** The loop over generation one stops at a file that is there ... */
  lemma StopOne<T>(before: Files<T>, files: Files<T>, baseline: seq<T>, channels: seq<int>, i: nat, done: seq<nat>)
    requires i < |channels| && channels[..i] == done && channels[i] >= 0 && OnePath(channels[i]) in files
    requires OnesWritten(before, files, baseline, done)
    ensures !Distinct(channels) || !OnesFree(before, channels)
  {
    var c: nat := channels[i];
    assert c in channels;
    OneIsTaken(before, files, baseline, done, c);
    if c in done { RepeatIn(channels, i); }
  }

  /** ... and goes on otherwise. */
  lemma StepOne<T>(before: Files<T>, files: Files<T>, baseline: seq<T>, done: seq<nat>, c: nat)
    requires CanRemove(|baseline|, [c]) && OnePath(c) !in files
    requires AllRemovable(done, |baseline|) && Distinct(done) && OnesFree(before, done)
    requires OnesWritten(before, files, baseline, done)
    ensures AllRemovable(done + [c], |baseline|) && Distinct(done + [c]) && OnesFree(before, done + [c])
    ensures OnesWritten(before, files[OnePath(c) := Without(baseline, {c})], baseline, done + [c])
  {
    OneIsTaken(before, files, baseline, done, c);
    OneMoreWritten(before, files, baseline, done, c);
  }

  /** One turn of the loop over generation two. */
  lemma StepTwo<T>(before: Files<T>, files: Files<T>, baseline: seq<T>, channels: seq<nat>, i: nat, selected: nat)
    requires i < |channels| && Distinct(channels)
    requires TwosWritten(before, files, baseline, channels[..i], selected) && TwosFree(before, channels[..i], selected)
    ensures var d, path := channels[i], TwoPath(selected, channels[i]);
            if d == selected then
              TwosWritten(before, files, baseline, channels[..i + 1], selected) &&
              TwosFree(before, channels[..i + 1], selected)
            else if path in files then !TwosFree(before, channels, selected)
            else TwosFree(before, channels[..i + 1], selected) &&
                 TwosWritten(before, files[path := Without(baseline, {selected, d})], baseline, channels[..i + 1],
                             selected)
  {
    var d, done := channels[i], channels[..i];
    assert channels[..i + 1] == done + [d] && d in channels;
    if d == selected {
      SelectedAgain(before, files, baseline, done, selected);
    } else {
      NewIn(channels, i);
      TwoIsTaken(before, files, baseline, done, selected, d);
      if TwoPath(selected, d) !in files { TwoMoreWritten(before, files, baseline, done, selected, d); }
    }
  }

  /** Generation one takes no name of generation two. */
  lemma TwosStayFree<T>(before: Files<T>, after: Files<T>, baseline: seq<T>, channels: seq<nat>, selected: nat)
    requires OnesWritten(before, after, baseline, channels)
    ensures TwosFree(after, channels, selected) <==> TwosFree(before, channels, selected)
  {
    forall d | d in channels && d != selected
      ensures TwoPath(selected, d) in after <==> TwoPath(selected, d) in before
    {
      if TwoPath(selected, d) in after && TwoPath(selected, d) !in before {
        var c :| c in channels && TwoPath(selected, d) == OnePath(c);
        GenerationsApart(c, if selected < d then selected else d, if selected < d then d else selected);
      }
    }
  }

  // ---------- the directory of artifacts ----------

  class Artifacts<T> {
    var files: map<string, seq<T>>
    const block: BlockSize

    constructor (files: map<string, seq<T>>, block: BlockSize)
      ensures this.files == files && this.block == block
    {
      this.files := files;
      this.block := block;
    }

    /** `_native_mutate`: the plan refuses what cannot be removed and rows that would not be whole blocks, the
        writer an existing destination. */
    method Mutate(rows: seq<T>, destination: string, removed: seq<int>) returns (error: Option<StudyError>)
      modifies this
      ensures error == if !CanRemove(|rows|, removed) then Some(Refused(removed))
                       else if !Representable(|rows| - |removed|, block) then Some(NotRepresentable(|rows| - |removed|))
                       else if destination in old(files) then Some(DestinationExists(destination)) else None
      ensures files == if error.None? then old(files)[destination := Without(rows, Elements(removed))] else old(files)
    {
      if !CanRemove(|rows|, removed) { return Some(Refused(removed)); }
      if !Representable(|rows| - |removed|, block) { return Some(NotRepresentable(|rows| - |removed|)); }
      if destination in files { return Some(DestinationExists(destination)); }
      files := files[destination := Without(rows, Elements(removed))];
      error := None;
    }

    /** One file of generation one, from the baseline. */
    method RemoveFirst(baseline: seq<T>, channel: int) returns (error: Option<StudyError>)
      modifies this
      ensures error.None? <==> CanRemove(|baseline|, [channel]) && Representable(|baseline| - 1, block) &&
                               OnePath(channel) !in old(files)
      ensures error.Some? ==> !error.value.NothingMeasured?
      ensures files == if error.Some? then old(files)
                       else old(files)[OnePath(channel) := Without(baseline, {channel})]
    {
      if !CanRemove(|baseline|, [channel]) { return Some(Refused([channel])); }
      assert Elements([channel]) == {channel};
      error := Mutate(baseline, OnePath(channel), [channel]);
    }

    /** One turn of the loop over generation one, after the channels `done`. */
    method TurnOne(baseline: seq<T>, channels: seq<int>, i: nat, ghost before: Files<T>, ghost done: seq<nat>)
      returns (error: Option<StudyError>, ghost next: seq<nat>)
      requires i < |channels| && channels[..i] == done
      requires OnesPossible(before, done, |baseline|, block) && OnesWritten(before, files, baseline, done)
      modifies this
      ensures error.Some? ==> !error.value.NothingMeasured? && files == old(files)
      ensures error.Some? ==> !OnesPossible(before, channels, |baseline|, block)
      ensures error.None? ==> channels[i] >= 0 && next == channels[..i + 1] &&
                              OnesPossible(before, next, |baseline|, block) &&
                              OnesWritten(before, files, baseline, next)
    {
      var channel := channels[i];
      next := [];
      assert channel in channels && channels[..i + 1] == channels[..i] + [channel];
      if CanRemove(|baseline|, [channel]) {
        if OnePath(channel) in files { StopOne(before, files, baseline, channels, i, done); }
        else { StepOne(before, files, baseline, done, channel); }
      }
      error := RemoveFirst(baseline, channel);
      if error.None? { next := done + [channel]; }
    }

    /** Generation one: the baseline without each channel. */
    method GenerationOne(baseline: seq<T>, channels: seq<int>, measure: nat -> real)
      returns (r: Outcome<seq<Single>, StudyError>)
      modifies this
      ensures r.Ok? <==> OnesPossible(old(files), channels, |baseline|, block)
      ensures Kept(old(files), files) && (r.Fail? ==> !r.error.NothingMeasured?)
      ensures r.Ok? ==> OnesFor(Native, r.value, channels, measure) && forall c | c in channels :: c >= 0
      ensures r.Ok? ==> OnesWritten(old(files), files, baseline, channels)
    {
      var ones := [];
      ghost var before := files;
      ghost var done: seq<nat> := [];
      for i := 0 to |channels|
        invariant channels[..i] == done
        invariant OnesFor(Native, ones, channels[..i], measure)
        invariant OnesPossible(before, done, |baseline|, block) && OnesWritten(before, files, baseline, done)
      {
        var error, next := TurnOne(baseline, channels, i, before, done);
        if error.Some? { return Fail(error.value); }
        OneMoreFor(ones, channels, i, measure);
        ones := ones + [Single(Native, channels[i], measure(i))];
        done := next;
      }
      assert done == channels;
      r := Ok(ones);
    }

    /** One file of generation two, from the selected one of generation one. */
    method RemoveSecond(ghost baseline: seq<T>, selected: nat, channel: nat) returns (error: Option<StudyError>)
      requires selected < |baseline| && channel < |baseline| && selected != channel
      requires OnePath(selected) in files && files[OnePath(selected)] == Without(baseline, {selected})
      modifies this
      ensures error.None? <==> CanLoseTwo(|baseline|, block) && TwoPath(selected, channel) !in old(files)
      ensures error.Some? ==> !error.value.NothingMeasured?
      ensures files == if error.Some? then old(files)
                       else old(files)[TwoPath(selected, channel) := Without(baseline, {selected, channel})]
    {
      var current := Remap(channel, selected);
      WithoutSecond(baseline, selected, channel);
      assert Elements([current as int]) == {current};
      error := Mutate(files[OnePath(selected)], TwoPath(selected, channel), [current]);
    }

    /** Generation two: the selected file without each other channel, at the place where that now stands. */
    method GenerationTwo(ghost baseline: seq<T>, channels: seq<nat>, selected: nat, measure: nat -> real)
      returns (r: Outcome<seq<Pair>, StudyError>)
      requires Distinct(channels) && selected < |baseline| && forall c | c in channels :: c < |baseline|
      requires OnePath(selected) in files && files[OnePath(selected)] == Without(baseline, {selected})
      modifies this
      ensures r.Ok? <==> (CanLoseTwo(|baseline|, block) || forall c | c in channels :: c == selected) &&
                         TwosFree(old(files), channels, selected)
      ensures Kept(old(files), files) && (r.Fail? ==> !r.error.NothingMeasured?)
      ensures r.Ok? ==> r.value == PairsFor(Native, channels, selected, measure)
      ensures r.Ok? ==> TwosWritten(old(files), files, baseline, channels, selected)
    {
      var pairs := [];
      ghost var before := files;
      for i := 0 to |channels|
        invariant pairs == PairsFor(Native, channels[..i], selected, measure)
        invariant CanLoseTwo(|baseline|, block) || forall j | 0 <= j < i :: channels[j] == selected
        invariant TwosFree(before, channels[..i], selected)
        invariant TwosWritten(before, files, baseline, channels[..i], selected)
      {
        var channel := channels[i];
        assert channels[..i + 1][..i] == channels[..i] && channel in channels;
        StepTwo(before, files, baseline, channels, i, selected);
        if channel != selected {
          var error := RemoveSecond(baseline, selected, channel);
          if error.Some? { return Fail(error.value); }
          pairs := pairs + [PairOf(Native, selected, channel, measure(i))];
        }
      }
      assert channels[..|channels|] == channels;
      r := Ok(pairs);
    }

    /** Generation two and the selections, once generation one is written. */
    method Continue(ghost baseline: seq<T>, channels: seq<nat>, ones: seq<Single>, measure: nat -> real)
      returns (r: Outcome<Selection, StudyError>)
      requires Distinct(channels) && ones != [] && Singles(ones, channels) && forall c | c in channels :: c < |baseline|
      requires forall c | c in channels :: OnePath(c) in files && files[OnePath(c)] == Without(baseline, {c})
      modifies this
      ensures Kept(old(files), files)
      ensures r.Ok? <==> |channels| >= 2 && CanLoseTwo(|baseline|, block) &&
                         TwosFree(old(files), channels, Best(ones).channel)
      ensures r == Fail(NothingMeasured) <==> |channels| == 1 && TwosFree(old(files), channels, Best(ones).channel)
      ensures r.Ok? ==> TwosWritten(old(files), files, baseline, channels, r.value.selected)
      ensures r.Ok? ==> SelectionRight(r.value, ones, PairsFor(Native, channels, r.value.selected, measure))
      ensures r.Ok? ==> r.value.noRepair.quality <= r.value.oneShot.quality
      ensures r.Ok? ==> FileOf(files, baseline, r.value.noRepair) && FileOf(files, baseline, r.value.oneShot)
    {
      ghost var before := files;
      var selected := Best(ones).channel;
      SelectedIsAChannel(ones, channels);
      SameFrom(channels, selected);
      OneOrTwo(channels);
      var second := GenerationTwo(baseline, channels, selected, measure);
      if second.Fail? { return Fail(second.error); }
      PairsForAre(Native, channels, selected, measure);
      PairsExist(second.value, channels, selected);
      if second.value == [] { return Fail(NothingMeasured); }
      DistinctChannelsSuffice(channels, ones, second.value);
      var channel, noRepair, oneShot := Select(ones, second.value, channels);
      FilesOfPairs(before, files, baseline, channels, selected, second.value);
      RightPairsAreMeasured(Selection(channel, noRepair, oneShot.value), ones, second.value);
      r := Ok(Selection(channel, noRepair, oneShot.value));
    }

    /** The selections of `_native_study`. They are made exactly for two or more distinct channels of a wide
        enough model, stored value by value, whose artifacts are not there yet. The branch for a missing
        one-shot pair is never taken, and the files written are those of the two generations, each the baseline
        without its channels. The pair kept without repair is never worse than the one-shot pair. */
    method Study(baseline: seq<T>, channels: seq<int>, measureOne: nat -> real, measureTwo: nat -> real)
      returns (r: Outcome<Selection, StudyError>, ghost ones: seq<Single>, ghost between: Files<T>)
      modifies this
      ensures Kept(old(files), files)
      ensures r.Ok? <==> StudyPossible(channels, |baseline|) && block == 1 && OnesFree(old(files), channels) &&
                         OnesFor(Native, ones, channels, measureOne) &&
                         TwosFree(old(files), channels, Best(ones).channel)
      ensures AllRemovable(channels, |baseline|) && Distinct(channels) && OnesFree(old(files), channels) &&
              Representable(|baseline| - 1, block)
              ==> OnesFor(Native, ones, channels, measureOne)
      ensures r == Fail(NothingMeasured) <==>
              (AllRemovable(channels, |baseline|) && |channels| <= 1 && OnesFree(old(files), channels) &&
               (channels != [] ==> Representable(|baseline| - 1, block)))
      ensures r.Ok? ==> forall c | c in channels :: c >= 0
      ensures r.Ok? ==> OnesWritten(old(files), between, baseline, channels) &&
                        TwosWritten(between, files, baseline, channels, r.value.selected)
      ensures r.Ok? ==> SelectionRight(r.value, ones, PairsFor(Native, channels, r.value.selected, measureTwo))
      ensures r.Ok? ==> r.value.noRepair.quality <= r.value.oneShot.quality
      ensures r.Ok? ==> FileOf(files, baseline, r.value.noRepair) && FileOf(files, baseline, r.value.oneShot)
    {
      ones, between := [], files;
      PossibleSteps(channels, |baseline|, block);
      var first := GenerationOne(baseline, channels, measureOne);
      if first.Fail? { return Fail(first.error), ones, between; }
      ones, between := first.value, files;
      if first.value == [] { return Fail(NothingMeasured), ones, between; }
      InRange(channels, |baseline|);
      TwosStayFree(old(files), files, baseline, channels, Best(ones).channel);
      r := Continue(baseline, channels, first.value, measureTwo);
    }
  }

  /** The pair's artifact is the baseline without its channels. */
  ghost predicate FileOf<T>(files: Files<T>, baseline: seq<T>, p: Pair) {
    PairPath(p.low, p.high) in files && files[PairPath(p.low, p.high)] == Without(baseline, {p.low, p.high})
  }

  lemma SamePath(p: Pair, selected: nat, d: nat)
    requires Removes(p, selected, d) && d != selected
    ensures PairPath(p.low, p.high) == TwoPath(selected, d)
    ensures {p.low as int, p.high as int} == {selected as int, d as int}
  {
  }

  lemma FilesOfPairs<T>(before: Files<T>, files: Files<T>, baseline: seq<T>, channels: seq<nat>, selected: nat,
                        pairs: seq<Pair>)
    requires TwosWritten(before, files, baseline, channels, selected) && PairsWith(pairs, channels, selected)
    ensures forall p | p in pairs :: FileOf(files, baseline, p)
  {
    forall p | p in pairs ensures FileOf(files, baseline, p) {
      assert IsPairWith(p, channels, selected);
      var d :| d in channels && d != selected && Removes(p, selected, d);
      SamePath(p, selected, d);
    }
  }

  lemma RightPairsAreMeasured(r: Selection, ones: seq<Single>, pairs: seq<Pair>)
    requires SelectionRight(r, ones, pairs)
    ensures r.noRepair in pairs && r.oneShot in pairs
  {
  }

  /** What the two generations ask for, put together. */
  lemma PossibleSteps(channels: seq<int>, width: nat, block: BlockSize)
    ensures StudyPossible(channels, width) && block == 1 <==>
            AllRemovable(channels, width) && Distinct(channels) && |channels| >= 2 &&
            Representable(width - 1, block) && CanLoseTwo(width, block)
  {
    PossibleMeans(channels, width);
    if Distinct(channels) { OneOrTwo(channels); }
    if CanLoseTwo(width, block) && Representable(width - 1, block) { WholeBlocksTwice(width, block); }
  }

  lemma OneOrTwo(channels: seq<int>)
    requires Distinct(channels)
    ensures TwoChannels(channels) <==> |channels| >= 2
  {
    if |channels| >= 2 { assert channels[0] in channels && channels[1] in channels; }
  }

  /** Removing the renumbered second channel from the file without the first leaves neither. */
  lemma WithoutSecond<T>(baseline: seq<T>, selected: nat, channel: nat)
    requires selected < |baseline| && channel < |baseline| && selected != channel
    ensures var rows := Without(baseline, {selected});
            && |rows| == |baseline| - 1
            && (CanRemove(|rows|, [Remap(channel, selected)]) <==> |baseline| > 2)
            && Without(rows, {Remap(channel, selected)}) == Without(baseline, {selected, channel})
  {
    RemoveOne(baseline, selected, {selected});
    RemoveOne(RemoveAt(baseline, selected), Remap(channel, selected), {Remap(channel, selected)});
    TwoStepsAreOneShot(baseline, selected, channel);
  }

  lemma NewIn<T>(xs: seq<T>, i: nat)
    requires i < |xs| && Distinct(xs)
    ensures xs[i] !in xs[..i]
  {
    forall j | 0 <= j < i ensures xs[..i][j] != xs[i] { assert xs[j] != xs[i]; }
  }

  lemma RepeatIn<T>(xs: seq<T>, i: nat)
    requires i < |xs| && xs[i] in xs[..i]
    ensures !Distinct(xs)
  {
    var j :| 0 <= j < i && xs[..i][j] == xs[i];
    assert xs[j] == xs[i];
  }
}
