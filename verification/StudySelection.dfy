/** The measurements of the two-generation pruning study and the selections made from them. */
module StudySelection {
  import opened Ordering
  import opened Text
  import opened ChannelRemoval

  // ---------- generation one: one channel at a time ----------

  datatype Backend = HuggingFace | Native

  function Prefix(b: Backend): string { "measurement_" + if b == HuggingFace then "hf" else "native" }

  /** A measured single-channel removal; its id is determined by the backend and the channel. */
  datatype Single = Single(backend: Backend, channel: nat, quality: real)

  const G1 := "_g1_c"
  const G2 := "_g2_c"

  function Id(m: Single): string { Prefix(m.backend) + G1 + PrintNat(m.channel) }

  /** The selection key `(quality_value, measurement_id)`. */
  predicate Better(a: Single, b: Single) {
    a.quality < b.quality || (a.quality == b.quality && StrLess(Id(a), Id(b)))
  }

  lemma IdsDiffer(a: Single, b: Single)
    requires Id(a) == Id(b)
    ensures a.backend == b.backend && a.channel == b.channel
  {
    assert Id(a)[12] == if a.backend == HuggingFace then 'h' else 'n';
    assert Id(b)[12] == if b.backend == HuggingFace then 'h' else 'n';
    var front := Prefix(a.backend) + G1;
    assert Id(a)[|front|..] == PrintNat(a.channel) && Id(b)[|front|..] == PrintNat(b.channel);
    ParsePrint(a.channel);
    ParsePrint(b.channel);
  }

  lemma BetterIsTotal()
    ensures StrictTotal(Better)
  {
    StrLessTotal();
    forall a, b | a != b ensures Better(a, b) || Better(b, a) {
      if a.quality == b.quality && Id(a) == Id(b) { IdsDiffer(a, b); }
    }
  }

  /** Python's `min` with that key: the first of the best. */
  function Best(ms: seq<Single>): (r: Single)
    requires ms != []
    ensures r in ms && forall m | m in ms :: r.quality <= m.quality
  {
    var n := |ms| - 1;
    if n == 0 then ms[0]
    else
      var best := Best(ms[..n]);
      var r := if Better(ms[n], best) then ms[n] else best;
      assert forall m | m in ms :: m in ms[..n] || m == ms[n];
      r
  }

  /** The id as it is written. */
  lemma IdIsWritten(channel: nat, quality: real)
    ensures Id(Single(HuggingFace, channel, quality)) == "measurement_hf_g1_c" + PrintNat(channel)
    ensures Id(Single(Native, channel, quality)) == "measurement_native_g1_c" + PrintNat(channel)
  {
  }

  /** The selected measurement is of least quality value and, among those, of the least id as a string. */
  lemma {:induction false} BestIsBest(ms: seq<Single>)
    requires ms != []
    ensures Best(ms) in ms
    ensures forall m | m in ms ::
              Best(ms).quality < m.quality ||
              (Best(ms).quality == m.quality && (Id(Best(ms)) == Id(m) || StrLess(Id(Best(ms)), Id(m))))
  {
    var n := |ms| - 1;
    BetterIsTotal();
    StrLessTotal();
    if n > 0 {
      BestIsBest(ms[..n]);
      forall m | m in ms ensures !Better(m, Best(ms)) {
        assert m == ms[n] || m in ms[..n];
      }
    }
  }

  /** The head of the ranking is the selected measurement. */
  lemma RankingStartsWithBest(ms: seq<Single>)
    requires ms != []
    ensures |Sort(Better, ms)| == |ms| && Sort(Better, ms)[0] == Best(ms)
    ensures multiset(Sort(Better, ms)) == multiset(ms)
  {
    var ranked := Sort(Better, ms);
    BetterIsTotal();
    SortIsSorted(Better, ms);
    SortElements(Better, ms);
    BestIsBest(ms);
    assert Best(ms) in ranked && ranked[0] in ms;
    var i :| 0 <= i < |ranked| && ranked[i] == Best(ms);
  }

  // ---------- generation two: pairs with the selected channel ----------

  datatype Pair = Pair(backend: Backend, low: nat, high: nat, quality: real)

  predicate Removes(p: Pair, a: nat, b: nat) {
    p.low == (if a < b then a else b) && p.high == (if a < b then b else a)
  }

  predicate BetterPair(a: Pair, b: Pair) {
    a.quality < b.quality || (a.quality == b.quality && StrLess(PairId(a), PairId(b)))
  }

  function PairId(p: Pair): string { Prefix(p.backend) + G2 + PrintNat(p.low) + "_" + PrintNat(p.high) }

  function BestPair(ps: seq<Pair>): (r: Pair)
    requires ps != []
    ensures r in ps && forall p | p in ps :: r.quality <= p.quality
  {
    var n := |ps| - 1;
    if n == 0 then ps[0]
    else
      var best := BestPair(ps[..n]);
      var r := if BetterPair(ps[n], best) then ps[n] else best;
      assert forall p | p in ps :: p in ps[..n] || p == ps[n];
      r
  }

  /** The two best measurements of generation one are of different channels. */
  ghost predicate TopTwoDiffer(ones: seq<Single>) {
    var ranked := Sort(Better, ones);
    |ranked| >= 2 && ranked[0].channel != ranked[1].channel
  }

  /** One measurement for each channel, in order. */
  ghost predicate Singles(ones: seq<Single>, channels: seq<nat>) {
    |ones| == |channels| && forall i | 0 <= i < |ones| :: ones[i].channel == channels[i]
  }

  /** The pairs are those of the selected channel with each other one. */
  ghost predicate PairsWith(pairs: seq<Pair>, channels: seq<nat>, selected: nat) {
    && (forall p | p in pairs :: IsPairWith(p, channels, selected))
    && (forall d | d in channels && d != selected :: HasPair(pairs, selected, d))
  }

  ghost predicate IsPairWith(p: Pair, channels: seq<nat>, selected: nat) {
    exists d :: d in channels && d != selected && Removes(p, selected, d)
  }

  ghost predicate HasPair(pairs: seq<Pair>, a: nat, b: nat) { exists p :: p in pairs && Removes(p, a, b) }

  ghost predicate TwoChannels(channels: seq<int>) { exists c, d :: c in channels && d in channels && c != d }

  datatype Selection = Selection(selected: nat, noRepair: Pair, oneShot: Pair)

  function PairOf(backend: Backend, a: nat, b: nat, quality: real): (r: Pair)
    ensures Removes(r, a, b) && r.quality == quality && r.backend == backend
  {
    Pair(backend, if a < b then a else b, if a < b then b else a, quality)
  }

  /** Generation two: the selected channel with every other one, in channel order. */
  function PairsFor(backend: Backend, channels: seq<nat>, selected: nat, measure: nat -> real): seq<Pair> {
    if channels == [] then []
    else
      var n := |channels| - 1;
      PairsFor(backend, channels[..n], selected, measure) +
      if channels[n] == selected then [] else [PairOf(backend, selected, channels[n], measure(n))]
  }

  lemma PairStays(p: Pair, channels: seq<nat>, selected: nat, c: nat)
    requires IsPairWith(p, channels, selected)
    ensures IsPairWith(p, channels + [c], selected)
  {
    var d :| d in channels && d != selected && Removes(p, selected, d);
    assert d in channels + [c];
  }

  lemma HasPairStays(pairs: seq<Pair>, p: Pair, a: nat, b: nat)
    requires HasPair(pairs, a, b)
    ensures HasPair(pairs + [p], a, b)
  {
    var q :| q in pairs && Removes(q, a, b);
    assert q in pairs + [p];
  }

  lemma PairsWithMore(pairs: seq<Pair>, channels: seq<nat>, selected: nat, d: nat, p: Pair)
    requires PairsWith(pairs, channels, selected) && d != selected && Removes(p, selected, d)
    ensures PairsWith(pairs + [p], channels + [d], selected)
  {
    assert d in channels + [d] && p in pairs + [p];
    assert IsPairWith(p, channels + [d], selected) && HasPair(pairs + [p], selected, d);
    forall q | q in pairs + [p] ensures IsPairWith(q, channels + [d], selected) {
      if q in pairs { PairStays(q, channels, selected, d); }
    }
    forall e | e in channels + [d] && e != selected ensures HasPair(pairs + [p], selected, e) {
      if e in channels { HasPairStays(pairs, p, selected, e); }
    }
  }

  lemma PairsWithSkip(pairs: seq<Pair>, channels: seq<nat>, selected: nat)
    requires PairsWith(pairs, channels, selected)
    ensures PairsWith(pairs, channels + [selected], selected)
  {
    forall q | q in pairs ensures IsPairWith(q, channels + [selected], selected) {
      PairStays(q, channels, selected, selected);
    }
    forall e | e in channels + [selected] && e != selected ensures HasPair(pairs, selected, e) {
      assert e in channels;
    }
  }

  lemma {:induction false} PairsForAre(backend: Backend, channels: seq<nat>, selected: nat, measure: nat -> real)
    ensures PairsWith(PairsFor(backend, channels, selected, measure), channels, selected)
  {
    if channels != [] {
      var n := |channels| - 1;
      var front := PairsFor(backend, channels[..n], selected, measure);
      PairsForAre(backend, channels[..n], selected, measure);
      assert channels == channels[..n] + [channels[n]];
      if channels[n] == selected {
        assert front + [] == front;
        PairsWithSkip(front, channels[..n], selected);
      } else {
        PairsWithMore(front, channels[..n], selected, channels[n], PairOf(backend, selected, channels[n], measure(n)));
      }
    }
  }

  /** The first pair that removes these two channels. */
  ghost predicate FirstRemoving(pairs: seq<Pair>, p: Pair, a: nat, b: nat) {
    exists i :: 0 <= i < |pairs| && pairs[i] == p && Removes(p, a, b) &&
                forall j | 0 <= j < i :: !Removes(pairs[j], a, b)
  }

  /** `next((item for item in generation_two if item.removed_channels == best_two), None)`. */
  method FindPair(pairs: seq<Pair>, a: nat, b: nat) returns (r: Option<Pair>)
    ensures r.Some? ==> FirstRemoving(pairs, r.value, a, b)
    ensures r.None? ==> !HasPair(pairs, a, b)
  {
    for i := 0 to |pairs|
      invariant forall j | 0 <= j < i :: !Removes(pairs[j], a, b)
    {
      if Removes(pairs[i], a, b) { return Some(pairs[i]); }
    }
    r := None;
  }

  lemma BetterPairIsTransitive(a: Pair, b: Pair, c: Pair)
    requires BetterPair(a, b) && BetterPair(b, c)
    ensures BetterPair(a, c)
  {
    StrLessTotal();
  }

  lemma PairIdIsWritten(low: nat, high: nat, quality: real)
    ensures PairId(Pair(HuggingFace, low, high, quality)) ==
            "measurement_hf_g2_c" + PrintNat(low) + "_" + PrintNat(high)
    ensures PairId(Pair(Native, low, high, quality)) ==
            "measurement_native_g2_c" + PrintNat(low) + "_" + PrintNat(high)
  {
  }

  /** The kept pair is of least quality value and, among those, of the least id as a string. */
  lemma {:induction false} BestPairIsBest(ps: seq<Pair>, p: Pair)
    requires p in ps
    ensures BestPair(ps) in ps
    ensures BestPair(ps).quality < p.quality ||
            (BestPair(ps).quality == p.quality &&
             (PairId(BestPair(ps)) == PairId(p) || StrLess(PairId(BestPair(ps)), PairId(p))))
  {
    var n := |ps| - 1;
    StrLessTotal();
    if n > 0 {
      var best := BestPair(ps[..n]);
      if p in ps[..n] { BestPairIsBest(ps[..n], p); }
      if BetterPair(ps[n], best) && BetterPair(p, ps[n]) { BetterPairIsTransitive(p, ps[n], best); }
      assert p in ps[..n] || p == ps[n];
    }
  }

  /** The ranking goes by quality value and then by id. */
  lemma RankingOrder(ms: seq<Single>, i: nat, j: nat)
    requires i < j < |Sort(Better, ms)|
    ensures var a, b := Sort(Better, ms)[i], Sort(Better, ms)[j];
            a.quality < b.quality || (a.quality == b.quality && (Id(a) == Id(b) || StrLess(Id(a), Id(b))))
  {
    BetterIsTotal();
    StrLessTotal();
    SortIsSorted(Better, ms);
  }

  /** The outcome of the selections: the pair without repair is the best of generation two, and the
      one-shot pair is the first there that removes the two best channels of generation one. */
  ghost predicate SelectionRight(r: Selection, ones: seq<Single>, pairs: seq<Pair>) {
    var ranked := Sort(Better, ones);
    && ones != [] && pairs != [] && |ranked| >= 2
    && r.selected == Best(ones).channel && r.noRepair == BestPair(pairs)
    && FirstRemoving(pairs, r.oneShot, ranked[0].channel, ranked[1].channel)
  }

  lemma PairsExist(pairs: seq<Pair>, channels: seq<nat>, selected: nat)
    requires PairsWith(pairs, channels, selected)
    ensures pairs != [] ==> TwoChannels(channels) || selected !in channels
    ensures pairs == [] ==> !TwoChannels(channels)
  {
    if pairs == [] {
      forall c | c in channels ensures c == selected {
        assert c != selected ==> HasPair(pairs, selected, c);
      }
    } else {
      assert pairs[0] in pairs;
      var d :| d in channels && d != selected && Removes(pairs[0], selected, d);
    }
  }

  /** The one-shot pair is among the measured pairs exactly when its two channels differ. */
  lemma OneShotIsMeasured(ones: seq<Single>, channels: seq<nat>, pairs: seq<Pair>)
    requires Singles(ones, channels) && ones != [] && pairs != []
    requires PairsWith(pairs, channels, Best(ones).channel)
    ensures TwoChannels(channels)
    ensures |Sort(Better, ones)| >= 2
    ensures HasPair(pairs, Sort(Better, ones)[0].channel, Sort(Better, ones)[1].channel) <==> TopTwoDiffer(ones)
  {
    var selected := Best(ones).channel;
    SelectedIsAChannel(ones, channels);
    PairsExist(pairs, channels, selected);
    SecondIsAChannel(ones, channels);
    RankingStartsWithBest(ones);
    var second := Sort(Better, ones)[1].channel;
    if HasPair(pairs, selected, second) {
      var p :| p in pairs && Removes(p, selected, second);
      var d :| d in channels && d != selected && Removes(p, selected, d);
      assert second != selected;
    }
  }

  lemma SelectedIsAChannel(ones: seq<Single>, channels: seq<nat>)
    requires Singles(ones, channels) && ones != []
    ensures Best(ones).channel in channels
  {
    var i :| 0 <= i < |ones| && ones[i] == Best(ones);
    assert channels[i] == Best(ones).channel;
  }

  lemma SecondIsAChannel(ones: seq<Single>, channels: seq<nat>)
    requires Singles(ones, channels) && TwoChannels(channels)
    ensures |Sort(Better, ones)| == |ones| >= 2 && Sort(Better, ones)[1].channel in channels
  {
    var c, d :| c in channels && d in channels && c != d;
    assert |channels| >= 2;
    BetterIsTotal();
    SortIsSorted(Better, ones);
    SortElements(Better, ones);
    var second := Sort(Better, ones)[1];
    assert second in Sort(Better, ones);
    assert second in ones;
    var i :| 0 <= i < |ones| && ones[i] == second;
    assert channels[i] == second.channel;
  }

  /** With distinct channels the two best measurements are of different channels, and their pair is among
      the measured pairs. */
  lemma DistinctChannelsSuffice(channels: seq<nat>, ones: seq<Single>, pairs: seq<Pair>)
    requires Distinct(channels) && |channels| >= 2 && Singles(ones, channels)
    requires PairsWith(pairs, channels, Best(ones).channel)
    ensures TwoChannels(channels) && TopTwoDiffer(ones)
    ensures HasPair(pairs, Sort(Better, ones)[0].channel, Sort(Better, ones)[1].channel)
  {
    assert channels[0] in channels && channels[1] in channels;
    TopTwoOfDistinct(channels, ones);
    PairsExist(pairs, channels, Best(ones).channel);
    OneShotIsMeasured(ones, channels, pairs);
  }

  lemma TopTwoOfDistinct(channels: seq<nat>, ones: seq<Single>)
    requires Distinct(channels) && |channels| >= 2 && Singles(ones, channels)
    ensures TopTwoDiffer(ones)
  {
    BetterIsTotal();
    SortIsSorted(Better, ones);
    var ranked := Sort(Better, ones);
    var i, j := PairMoves(ranked, ones, 0, 1);
    assert channels[i] != channels[j];
  }

  lemma TopTwoIfDistinct(channels: seq<nat>, ones: seq<Single>)
    requires Singles(ones, channels)
    ensures Distinct(channels) && TwoChannels(channels) ==> TopTwoDiffer(ones)
  {
    if Distinct(channels) && TwoChannels(channels) {
      var c, d :| c in channels && d in channels && c != d;
      TopTwoOfDistinct(channels, ones);
    }
  }

  /** The selections common to both studies, once both generations are measured; none for the one-shot pair
      if generation two lacks it. */
  method Select(ones: seq<Single>, pairs: seq<Pair>, ghost channels: seq<nat>)
    returns (selected: nat, noRepair: Pair, oneShot: Option<Pair>)
    requires ones != [] && pairs != [] && Singles(ones, channels) && PairsWith(pairs, channels, Best(ones).channel)
    ensures TwoChannels(channels)
    ensures oneShot.Some? <==> TopTwoDiffer(ones)
    ensures oneShot.Some? ==> SelectionRight(Selection(selected, noRepair, oneShot.value), ones, pairs)
    ensures oneShot.Some? ==> noRepair.quality <= oneShot.value.quality
  {
    selected := Best(ones).channel;
    noRepair := BestPair(pairs);
    OneShotIsMeasured(ones, channels, pairs);
    var ranked := Sort(Better, ones);
    oneShot := FindPair(pairs, ranked[0].channel, ranked[1].channel);
    if oneShot.Some? {
      assert oneShot.value in pairs;
      assert HasPair(pairs, ranked[0].channel, ranked[1].channel);
    }
  }

  // ---------- identifiers ----------

  function Ids(ones: seq<Single>): (r: seq<string>)
    ensures |r| == |ones| && forall i | 0 <= i < |r| :: r[i] == Id(ones[i])
  {
    seq(|ones|, i requires 0 <= i < |ones| => Id(ones[i]))
  }

  function PairIds(pairs: seq<Pair>): (r: seq<string>)
    ensures |r| == |pairs| && forall i | 0 <= i < |r| :: r[i] == PairId(pairs[i])
  {
    seq(|pairs|, i requires 0 <= i < |pairs| => PairId(pairs[i]))
  }

  /** The ids of generation one repeat exactly when a channel does. */
  lemma IdsOfDistinct(ones: seq<Single>, channels: seq<nat>)
    requires Singles(ones, channels) && forall i, j | 0 <= i < j < |ones| :: ones[i].backend == ones[j].backend
    ensures Distinct(Ids(ones)) <==> Distinct(channels)
  {
    forall i, j | 0 <= i < j < |ones| ensures Ids(ones)[i] == Ids(ones)[j] <==> channels[i] == channels[j] {
      if Id(ones[i]) == Id(ones[j]) { IdsDiffer(ones[i], ones[j]); }
    }
    if Distinct(channels) {
      forall i, j | 0 <= i < j < |ones| ensures Ids(ones)[i] != Ids(ones)[j] { assert channels[i] != channels[j]; }
    } else {
      var i, j :| 0 <= i < j < |channels| && channels[i] == channels[j];
      assert Ids(ones)[i] == Ids(ones)[j];
    }
  }

  /** Two numerals joined by a character that is no digit can be told apart. */
  lemma NumeralsApart(a: string, b: string, c: string, d: string, sep: char)
    requires IsNumeral(a) && IsNumeral(c) && !IsDigit(sep) && a + [sep] + b == c + [sep] + d
    ensures a == c && b == d
  {
    var s, t := a + [sep] + b, c + [sep] + d;
    assert s[|a|] == sep && t[|c|] == sep;
    forall i | 0 <= i < |c| ensures t[i] != sep { assert t[i] == c[i] && c[i] in c; }
    forall i | 0 <= i < |a| ensures s[i] != sep { assert s[i] == a[i] && a[i] in a; }
    assert |a| == |c|;
    assert s[..|a|] == a && t[..|c|] == c && s[|a| + 1..] == b && t[|c| + 1..] == d;
  }

  lemma PairIdsApart(p: Pair, q: Pair)
    requires PairId(p) == PairId(q) && p.backend == q.backend
    ensures p.low == q.low && p.high == q.high
  {
    var front := Prefix(p.backend) + G2;
    var a, b, c, d := PrintNat(p.low), PrintNat(p.high), PrintNat(q.low), PrintNat(q.high);
    assert PairId(p)[|front|..] == a + "_" + b && PairId(q)[|front|..] == c + "_" + d;
    NumeralsApart(a, b, c, d, '_');
    ParsePrint(p.low);
    ParsePrint(p.high);
    ParsePrint(q.low);
    ParsePrint(q.high);
  }

  lemma OtherChannelOtherId(p: Pair, q: Pair, selected: nat, c: nat, d: nat)
    requires Removes(p, selected, c) && Removes(q, selected, d) && c != d && c != selected && d != selected
    requires p.backend == q.backend
    ensures PairId(p) != PairId(q)
  {
    if PairId(p) == PairId(q) { PairIdsApart(p, q); }
  }

  /** A pair with a new channel has a new id. */
  lemma NewPairId(pairs: seq<Pair>, channels: seq<nat>, selected: nat, p: Pair, c: nat)
    requires PairsWith(pairs, channels, selected) && c !in channels && c != selected && Removes(p, selected, c)
    requires forall q | q in pairs :: q.backend == p.backend
    ensures PairId(p) !in PairIds(pairs)
  {
    forall i | 0 <= i < |pairs| ensures PairIds(pairs)[i] != PairId(p) {
      assert pairs[i] in pairs && IsPairWith(pairs[i], channels, selected);
      var d :| d in channels && d != selected && Removes(pairs[i], selected, d);
      OtherChannelOtherId(pairs[i], p, selected, d, c);
    }
  }

  /** Distinct channels give distinct ids in generation two. */
  lemma {:induction false} PairIdsOfDistinct(backend: Backend, channels: seq<nat>, selected: nat, measure: nat -> real)
    requires Distinct(channels)
    ensures Distinct(PairIds(PairsFor(backend, channels, selected, measure)))
  {
    if channels != [] {
      var n := |channels| - 1;
      var front, c := PairsFor(backend, channels[..n], selected, measure), channels[n];
      PairIdsOfDistinct(backend, channels[..n], selected, measure);
      PairsForAre(backend, channels[..n], selected, measure);
      PairsForBackend(backend, channels[..n], selected, measure);
      if c == selected {
        assert front + [] == front;
      } else {
        var p := PairOf(backend, selected, c, measure(n));
        forall j | 0 <= j < n ensures channels[..n][j] != c { assert channels[j] != channels[n]; }
        NewPairId(front, channels[..n], selected, p, c);
        assert PairIds(front + [p]) == PairIds(front) + [PairId(p)];
      }
    }
  }

  lemma {:induction false} PairsForBackend(backend: Backend, channels: seq<nat>, selected: nat, measure: nat -> real)
    ensures forall p | p in PairsFor(backend, channels, selected, measure) :: p.backend == backend
  {
    if channels != [] { PairsForBackend(backend, channels[..|channels| - 1], selected, measure); }
  }

  // ---------- which channels can be studied ----------

  /** Every channel can be removed on its own. */
  ghost predicate AllRemovable(channels: seq<int>, width: nat) { forall c | c in channels :: CanRemove(width, [c]) }

  /** The channels for which the study can be done. */
  ghost predicate StudyPossible(channels: seq<int>, width: nat) {
    && Distinct(channels) && |channels| >= 2 && width > 2
    && forall c | c in channels :: 0 <= c < width
  }

  ghost predicate OnesFor(backend: Backend, ones: seq<Single>, channels: seq<int>, measure: nat -> real) {
    |ones| == |channels| &&
    forall i | 0 <= i < |ones| :: channels[i] >= 0 && ones[i] == Single(backend, channels[i], measure(i))
  }

  lemma SameFrom(channels: seq<int>, selected: int)
    requires selected in channels
    ensures (forall c | c in channels :: c == selected) <==> !TwoChannels(channels)
  {
  }

  lemma PossibleMeans(channels: seq<int>, width: nat)
    ensures StudyPossible(channels, width) <==>
            AllRemovable(channels, width) && width > 2 && TwoChannels(channels) && Distinct(channels)
  {
    if Distinct(channels) && |channels| >= 2 { assert channels[0] in channels && channels[1] in channels; }
    if AllRemovable(channels, width) {
      forall c | c in channels ensures 0 <= c < width { assert CanRemove(width, [c]); }
    }
    if c, d :| c in channels && d in channels && c != d { assert |channels| >= 2; }
  }

  lemma InRange(channels: seq<int>, width: nat)
    requires AllRemovable(channels, width)
    ensures forall c | c in channels :: 0 <= c < width
  {
    forall c | c in channels ensures 0 <= c < width { assert CanRemove(width, [c]); }
  }
}
