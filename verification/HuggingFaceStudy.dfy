/** The Hugging Face half of the study: every candidate is a fresh copy of the model. */
module HuggingFaceStudy {
  import opened Ordering
  import opened ChannelRemoval
  import opened StudySelection

  datatype StudyError = Refused(removed: seq<int>) | NothingMeasured | RepeatedIds

  /** The pair measured on its own, because generation two lacks it, is refused. */
  ghost predicate FallbackRefused(r: Outcome<Selection, StudyError>) {
    r.Fail? && r.error.Refused? && exists c :: r.error.removed == [c, c]
  }

  method MeasureSingles(channels: seq<int>, width: nat, measure: nat -> real)
    returns (r: Outcome<seq<Single>, StudyError>)
    ensures r.Ok? <==> AllRemovable(channels, width)
    ensures r.Ok? ==> OnesFor(HuggingFace, r.value, channels, measure)
    ensures r.Fail? ==> exists c :: c in channels && r.error == Refused([c]) && !CanRemove(width, [c])
  {
    var ones := [];
    for i := 0 to |channels|
      invariant forall j | 0 <= j < i :: CanRemove(width, [channels[j]])
      invariant OnesFor(HuggingFace, ones, channels[..i], measure)
    {
      if !CanRemove(width, [channels[i]]) {
        assert channels[i] in channels;
        return Fail(Refused([channels[i]]));
      }
      ones := ones + [Single(HuggingFace, channels[i], measure(i))];
    }
    assert channels[..|channels|] == channels;
    r := Ok(ones);
  }

  method MeasurePairs(channels: seq<nat>, selected: nat, width: nat, measure: nat -> real)
    returns (r: Outcome<seq<Pair>, StudyError>)
    requires selected < width && forall c | c in channels :: c < width
    ensures r.Ok? <==> (width > 2 || forall c | c in channels :: c == selected)
    ensures r.Ok? ==> r.value == PairsFor(HuggingFace, channels, selected, measure)
    ensures r.Fail? ==> r.error.Refused? && !CanRemove(width, r.error.removed) && |r.error.removed| == 2
                        && r.error.removed[0] < r.error.removed[1]
  {
    var pairs := [];
    for i := 0 to |channels|
      invariant pairs == PairsFor(HuggingFace, channels[..i], selected, measure)
      invariant width > 2 || forall j | 0 <= j < i :: channels[j] == selected
    {
      assert channels[..i + 1][..i] == channels[..i];
      var channel := channels[i];
      if channel != selected {
        assert channel in channels;
        var removed := if selected < channel then [selected, channel] else [channel, selected];
        if !CanRemove(width, removed) { return Fail(Refused(removed)); }
        pairs := pairs + [PairOf(HuggingFace, selected, channel, measure(i))];
      }
    }
    assert channels[..|channels|] == channels;
    r := Ok(pairs);
  }

  /** The selections and the record of the generations, which refuses repeated ids. */
  method Conclude(ones: seq<Single>, pairs: seq<Pair>, ghost channels: seq<nat>, ghost measureOne: nat -> real,
                  ghost measureTwo: nat -> real) returns (r: Outcome<Selection, StudyError>)
    requires ones != [] && pairs != [] && OnesFor(HuggingFace, ones, channels, measureOne)
    requires pairs == PairsFor(HuggingFace, channels, Best(ones).channel, measureTwo)
    ensures TwoChannels(channels)
    ensures r.Ok? <==> TopTwoDiffer(ones) && Distinct(channels)
    ensures FallbackRefused(r) <==> !TopTwoDiffer(ones)
    ensures r.Fail? ==>
              r.error == if TopTwoDiffer(ones) then RepeatedIds else Refused([Best(ones).channel, Best(ones).channel])
    ensures r.Ok? ==> SelectionRight(r.value, ones, pairs) && r.value.noRepair.quality <= r.value.oneShot.quality
  {
    PairsForAre(HuggingFace, channels, Best(ones).channel, measureTwo);
    var selected, noRepair, oneShot := Select(ones, pairs, channels);
    if oneShot.None? {
      var c := Best(ones).channel;
      r := Fail(Refused([c, c]));
      assert r.error.removed == [c, c];
      return;
    }
    IdsOfDistinct(ones, channels);
    PairIdsIfDistinct(channels, Best(ones).channel, measureTwo);
    if !Distinct(Ids(ones)) || !Distinct(PairIds(pairs)) { return Fail(RepeatedIds); }
    r := Ok(Selection(selected, noRepair, oneShot.value));
  }

  lemma PairIdsIfDistinct(channels: seq<nat>, selected: nat, measure: nat -> real)
    ensures Distinct(channels) ==> Distinct(PairIds(PairsFor(HuggingFace, channels, selected, measure)))
  {
    if Distinct(channels) { PairIdsOfDistinct(HuggingFace, channels, selected, measure); }
  }

  /** Generation two and the selections, for channels that can each be removed. */
  method Continue(ones: seq<Single>, channels: seq<nat>, width: nat, ghost measureOne: nat -> real,
                  measureTwo: nat -> real)
    returns (r: Outcome<Selection, StudyError>)
    requires ones != [] && OnesFor(HuggingFace, ones, channels, measureOne) && forall c | c in channels :: c < width
    ensures r == Fail(NothingMeasured) <==> !TwoChannels(channels)
    ensures r.Ok? <==> (TwoChannels(channels) && width > 2 && Distinct(channels))
    ensures r == Fail(RepeatedIds) <==>
            (TwoChannels(channels) && width > 2 && TopTwoDiffer(ones) && !Distinct(channels))
    ensures FallbackRefused(r) <==> (TwoChannels(channels) && width > 2 && !TopTwoDiffer(ones))
    ensures r.Fail? && r.error.Refused? ==> !CanRemove(width, r.error.removed)
    ensures r.Ok? ==> SelectionRight(r.value, ones, PairsFor(HuggingFace, channels, r.value.selected, measureTwo))
    ensures r.Ok? ==> r.value.noRepair.quality <= r.value.oneShot.quality
  {
    var selected := Best(ones).channel;
    SelectedIsAChannel(ones, channels);
    SameFrom(channels, selected);
    TopTwoIfDistinct(channels, ones);
    var second := MeasurePairs(channels, selected, width, measureTwo);
    if second.Fail? {
      assert forall c :: second.error.removed != [c, c];
      return Fail(second.error);
    }
    PairsForAre(HuggingFace, channels, selected, measureTwo);
    PairsExist(second.value, channels, selected);
    if second.value == [] { return Fail(NothingMeasured); }
    r := Conclude(ones, second.value, channels, measureOne, measureTwo);
    TwiceIsRefused(width, selected);
  }

  /** `_hf_study` up to the record of its generations: it succeeds exactly on two or more distinct channels
      of a wide enough model. A pair missing from generation two is one channel twice, and is refused; a
      repeated channel that gets past that is refused by its repeated id. */
  method Study(channels: seq<int>, width: nat, measureOne: nat -> real, measureTwo: nat -> real)
    returns (r: Outcome<Selection, StudyError>, ghost ones: seq<Single>)
    ensures AllRemovable(channels, width) ==> OnesFor(HuggingFace, ones, channels, measureOne)
    ensures r.Ok? <==> StudyPossible(channels, width)
    ensures FallbackRefused(r) <==>
            (AllRemovable(channels, width) && width > 2 && TwoChannels(channels) && !TopTwoDiffer(ones))
    ensures r == Fail(RepeatedIds) <==>
            (AllRemovable(channels, width) && width > 2 && TwoChannels(channels) && TopTwoDiffer(ones)
             && !Distinct(channels))
    ensures r == Fail(NothingMeasured) <==> (AllRemovable(channels, width) && !TwoChannels(channels))
    ensures r.Fail? && r.error.Refused? ==> !CanRemove(width, r.error.removed)
    ensures r.Ok? ==> forall c | c in channels :: c >= 0
    ensures r.Ok? ==> SelectionRight(r.value, ones, PairsFor(HuggingFace, channels, r.value.selected, measureTwo))
    ensures r.Ok? ==> r.value.noRepair.quality <= r.value.oneShot.quality
  {
    ones := [];
    PossibleMeans(channels, width);
    var first := MeasureSingles(channels, width, measureOne);
    if first.Fail? { return Fail(first.error), ones; }
    ones := first.value;
    if first.value == [] { return Fail(NothingMeasured), ones; }
    InRange(channels, width);
    r := Continue(first.value, channels, width, measureOne, measureTwo);
  }
}
