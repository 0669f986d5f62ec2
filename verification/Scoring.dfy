/** Two-level weighted progress scores. */
module Scoring {
  import opened Ordering
  import opened RealArithmetic

  datatype Dimension = Research | Implementation | Effectiveness | Readiness

  const DIMENSIONS: seq<Dimension> := [Research, Implementation, Effectiveness, Readiness]

  const RESEARCH_SCORES: map<string, real> := map[
    "not_investigated" := 0.0, "prior_art_reviewed" := 12.5, "hypothesis_established" := 25.0,
    "feasibility_evaluated" := 37.5, "experimental_implementation" := 50.0,
    "physical_experiment_conducted" := 62.5, "baselines_compared" := 75.0,
    "reproducibility_validated" := 87.5, "research_concluded" := 100.0]

  const IMPLEMENTATION_SCORES: map<string, real> := map[
    "not_implemented" := 0.0, "experimental" := 10.0, "prototype" := 20.0, "functional" := 35.0,
    "locally_tested" := 45.0, "ci_validated" := 60.0, "physically_benchmarked" := 70.0,
    "integrated" := 80.0, "regression_tested" := 90.0, "production_validated" := 100.0]

  const EFFECTIVENESS_SCORES: map<string, real> := map[
    "not_assessed" := 0.0, "measured_negative" := 0.0, "measured_inconclusive" := 10.0,
    "quality_gate_passed" := 60.0, "replicated_advantage" := 85.0, "production_validated" := 100.0]

  const READINESS_SCORES: map<string, real> := map[
    "not_assessed" := 0.0, "experimental" := 10.0, "locally_validated" := 30.0, "ci_validated" := 50.0,
    "integrated_main" := 70.0, "release_validated" := 90.0, "production_validated" := 100.0]

  function ScoreMap(d: Dimension): map<string, real> {
    match d
    case Research => RESEARCH_SCORES
    case Implementation => IMPLEMENTATION_SCORES
    case Effectiveness => EFFECTIVENESS_SCORES
    case Readiness => READINESS_SCORES
  }

  datatype Milestone = Milestone(
    workstream: string, weight: int, status: map<Dimension, string>, scored: set<Dimension>)

  datatype Workstream = Workstream(id: string, weight: int, dimensionWeights: map<Dimension, int>)

  /** `score_dimension`: an unknown or missing status scores nothing. */
  function Score(m: Milestone, d: Dimension): (r: real)
    ensures 0.0 <= r <= 100.0
  {
    if d in m.status && m.status[d] in ScoreMap(d) then ScoreMap(d)[m.status[d]] else 0.0
  }

  // ---------- weighted means ----------

  datatype Term = Term(weight: real, score: real)

  function Weight(ts: seq<Term>): real {
    if ts == [] then 0.0 else Weight(ts[..|ts| - 1]) + ts[|ts| - 1].weight
  }

  function Contribution(t: Term): real { t.weight * t.score }

  function Weighted(ts: seq<Term>): real {
    if ts == [] then 0.0 else Weighted(ts[..|ts| - 1]) + Contribution(ts[|ts| - 1])
  }

  /** The weighted mean, nothing when there is no weight. */
  function Mean(ts: seq<Term>): real {
    if Weight(ts) == 0.0 then 0.0 else Weighted(ts) / Weight(ts)
  }

  ghost predicate Graded(ts: seq<Term>) {
    forall i | 0 <= i < |ts| :: ts[i].weight >= 0.0 && 0.0 <= ts[i].score <= 100.0
  }

  lemma SumsSnoc(ts: seq<Term>, t: Term)
    ensures Weight(ts + [t]) == Weight(ts) + t.weight
    ensures Weighted(ts + [t]) == Weighted(ts) + Contribution(t)
  {
    assert (ts + [t])[..|ts|] == ts;
  }

  lemma {:induction false} SumsInRange(ts: seq<Term>)
    requires Graded(ts)
    ensures 0.0 <= Weighted(ts) <= 100.0 * Weight(ts)
  {
    if ts != [] {
      var n := |ts| - 1;
      SumsInRange(ts[..n]);
      RangeStep(Weight(ts[..n]), Weighted(ts[..n]), ts[n].weight, ts[n].score);
    }
  }

  lemma MeanInRange(ts: seq<Term>)
    requires Graded(ts)
    ensures 0.0 <= Mean(ts) <= 100.0 && Weight(ts) >= 0.0
  {
    SumsInRange(ts);
    if Weight(ts) > 0.0 { DivideBetween(Weighted(ts), 0.0, 100.0, Weight(ts)); }
  }

  /** Same weights, scores nowhere lower. */
  ghost predicate Dominated(ts: seq<Term>, us: seq<Term>) {
    |ts| == |us| && forall i | 0 <= i < |ts| ::
      ts[i].weight == us[i].weight >= 0.0 && ts[i].score <= us[i].score
  }

  lemma {:induction false} DominatedSums(ts: seq<Term>, us: seq<Term>)
    requires Dominated(ts, us)
    ensures Weight(ts) == Weight(us) >= 0.0 && Weighted(ts) <= Weighted(us)
  {
    if ts != [] {
      var n := |ts| - 1;
      DominatedSums(ts[..n], us[..n]);
      ProductMonotone(ts[n].weight, ts[n].score, us[n].score);
    }
  }

  lemma MeanMonotone(ts: seq<Term>, us: seq<Term>)
    requires Dominated(ts, us)
    ensures Mean(ts) <= Mean(us) && Weight(ts) == Weight(us)
  {
    DominatedSums(ts, us);
    if Weight(ts) > 0.0 { DivideMonotone(Weighted(ts), Weighted(us), Weight(ts)); }
  }

  // ---------- the scores of calculate_progress ----------

  predicate Applies(m: Milestone, id: string, d: Dimension) { m.workstream == id && d in m.scored }

  /** The milestones of a workstream that are scored in a dimension. */
  function LocalTerms(ms: seq<Milestone>, id: string, d: Dimension): seq<Term> {
    if ms == [] then []
    else
      var m, front := ms[|ms| - 1], LocalTerms(ms[..|ms| - 1], id, d);
      if Applies(m, id, d) then front + [Term(m.weight as real, Score(m, d))] else front
  }

  /** A workstream has a score in a dimension when some weight stands behind it. */
  predicate HasScore(ms: seq<Milestone>, id: string, d: Dimension) { Weight(LocalTerms(ms, id, d)) != 0.0 }

  function LocalScore(ms: seq<Milestone>, id: string, d: Dimension): real { Mean(LocalTerms(ms, id, d)) }

  function DimensionWeight(w: Workstream, d: Dimension): real {
    if d in w.dimensionWeights then w.dimensionWeights[d] as real else 0.0
  }

  /** The scored dimensions of a workstream with their weights in it. */
  function StreamTerms(ms: seq<Milestone>, w: Workstream, ds: seq<Dimension>): seq<Term> {
    if ds == [] then []
    else
      var d, front := ds[|ds| - 1], StreamTerms(ms, w, ds[..|ds| - 1]);
      if HasScore(ms, w.id, d) then front + [Term(DimensionWeight(w, d), LocalScore(ms, w.id, d))] else front
  }

  function StreamScore(ms: seq<Milestone>, w: Workstream): real { Mean(StreamTerms(ms, w, DIMENSIONS)) }

  /** The workstreams scored in a dimension, by their own weight. */
  function GlobalTerms(ms: seq<Milestone>, ws: seq<Workstream>, d: Dimension): seq<Term> {
    if ws == [] then []
    else
      var w, front := ws[|ws| - 1], GlobalTerms(ms, ws[..|ws| - 1], d);
      if HasScore(ms, w.id, d) then front + [Term(w.weight as real, LocalScore(ms, w.id, d))] else front
  }

  function GlobalScore(ms: seq<Milestone>, ws: seq<Workstream>, d: Dimension): real { Mean(GlobalTerms(ms, ws, d)) }

  function OverallTerms(ms: seq<Milestone>, ws: seq<Workstream>): (r: seq<Term>)
    ensures |r| == |ws| && forall i | 0 <= i < |ws| :: r[i] == Term(ws[i].weight as real, StreamScore(ms, ws[i]))
  {
    seq(|ws|, i requires 0 <= i < |ws| => Term(ws[i].weight as real, StreamScore(ms, ws[i])))
  }

  function OverallScore(ms: seq<Milestone>, ws: seq<Workstream>): real { Mean(OverallTerms(ms, ws)) }

  /** What the validator guarantees about weights. */
  ghost predicate ValidWeights(ms: seq<Milestone>, ws: seq<Workstream>) {
    && (forall m | m in ms :: m.weight > 0)
    && (forall w | w in ws :: w.weight > 0 && forall d | d in w.dimensionWeights :: w.dimensionWeights[d] >= 0)
    && ws != []
    && forall i, j | 0 <= i < j < |ws| :: ws[i].id != ws[j].id
  }

  datatype StreamResult = StreamResult(overall: real, dimensions: map<Dimension, real>, weight: int)

  ghost predicate StreamRight(ms: seq<Milestone>, w: Workstream, r: StreamResult) {
    && r.overall == StreamScore(ms, w) && r.weight == w.weight
    && forall d :: (d in r.dimensions <==> HasScore(ms, w.id, d)) &&
                   (d in r.dimensions ==> r.dimensions[d] == LocalScore(ms, w.id, d))
  }

  // ---------- the accumulating loops ----------

  /** A `defaultdict(float)` entry. */
  function Entry(m: map<Dimension, real>, d: Dimension): real { if d in m then m[d] else 0.0 }

  /** The dictionaries and sums of the loop over dimensions. */
  datatype Running = Running(
    scores: map<Dimension, real>, weightSum: real, scoreSum: real,
    denominators: map<Dimension, real>, numerators: map<Dimension, real>)

  /** One turn of that loop. */
  function Step(ms: seq<Milestone>, w: Workstream, d: Dimension, r: Running): Running {
    if !HasScore(ms, w.id, d) then r
    else
      var local := LocalScore(ms, w.id, d);
      Running(
        r.scores[d := local],
        r.weightSum + DimensionWeight(w, d), r.scoreSum + Contribution(Term(DimensionWeight(w, d), local)),
        r.denominators[d := Entry(r.denominators, d) + w.weight as real],
        r.numerators[d := Entry(r.numerators, d) + Contribution(Term(w.weight as real, local))])
  }

  function Run(ms: seq<Milestone>, w: Workstream, ds: seq<Dimension>, r: Running): Running {
    if ds == [] then r else Step(ms, w, ds[|ds| - 1], Run(ms, w, ds[..|ds| - 1], r))
  }

  function Fresh(denominators: map<Dimension, real>, numerators: map<Dimension, real>): Running {
    Running(map[], 0.0, 0.0, denominators, numerators)
  }

  lemma {:induction false} RunSums(ms: seq<Milestone>, w: Workstream, ds: seq<Dimension>, r: Running)
    requires r.weightSum == 0.0 && r.scoreSum == 0.0
    ensures Run(ms, w, ds, r).weightSum == Weight(StreamTerms(ms, w, ds))
    ensures Run(ms, w, ds, r).scoreSum == Weighted(StreamTerms(ms, w, ds))
  {
    if ds != [] {
      var n := |ds| - 1;
      RunSums(ms, w, ds[..n], r);
      SumsSnoc(StreamTerms(ms, w, ds[..n]), Term(DimensionWeight(w, ds[n]), LocalScore(ms, w.id, ds[n])));
    }
  }

  lemma {:induction false} RunScores(ms: seq<Milestone>, w: Workstream, ds: seq<Dimension>, r: Running, d: Dimension)
    requires r.scores == map[]
    ensures var scores := Run(ms, w, ds, r).scores;
            && (d in scores <==> d in ds && HasScore(ms, w.id, d))
            && (d in scores ==> scores[d] == LocalScore(ms, w.id, d))
  {
    if ds != [] {
      assert ds == ds[..|ds| - 1] + [ds[|ds| - 1]];
      RunScores(ms, w, ds[..|ds| - 1], r, d);
    }
  }

  /** What one workstream adds to a dimension's totals. */
  function AddedWeight(ms: seq<Milestone>, w: Workstream, d: Dimension): real {
    if HasScore(ms, w.id, d) then w.weight as real else 0.0
  }

  function AddedScore(ms: seq<Milestone>, w: Workstream, d: Dimension): real {
    if HasScore(ms, w.id, d) then Contribution(Term(w.weight as real, LocalScore(ms, w.id, d))) else 0.0
  }

  lemma StepTotals(ms: seq<Milestone>, w: Workstream, k: Dimension, r: Running, d: Dimension)
    ensures var after := Step(ms, w, k, r);
            && Entry(after.denominators, d) ==
               Entry(r.denominators, d) + (if d == k then AddedWeight(ms, w, d) else 0.0)
            && Entry(after.numerators, d) == Entry(r.numerators, d) + (if d == k then AddedScore(ms, w, d) else 0.0)
  {
  }

  lemma {:induction false} RunTotals(ms: seq<Milestone>, w: Workstream, ds: seq<Dimension>, r: Running, d: Dimension)
    requires Distinct(ds)
    ensures var after := Run(ms, w, ds, r);
            && Entry(after.denominators, d) ==
               Entry(r.denominators, d) + (if d in ds then AddedWeight(ms, w, d) else 0.0)
            && Entry(after.numerators, d) == Entry(r.numerators, d) + (if d in ds then AddedScore(ms, w, d) else 0.0)
  {
    if ds != [] {
      var n := |ds| - 1;
      assert ds == ds[..n] + [ds[n]];
      assert d in ds <==> d in ds[..n] || d == ds[n];
      assert ds[n] !in ds[..n];
      RunTotals(ms, w, ds[..n], r, d);
      StepTotals(ms, w, ds[n], Run(ms, w, ds[..n], r), d);
    }
  }

  /** The body of the loop over workstreams. */
  method ScoreStream(ms: seq<Milestone>, w: Workstream, denominators: map<Dimension, real>,
                     numerators: map<Dimension, real>)
    returns (result: StreamResult, r: Running)
    ensures r == Run(ms, w, DIMENSIONS, Fresh(denominators, numerators))
    ensures StreamRight(ms, w, result)
  {
    r := Fresh(denominators, numerators);
    ghost var start := r;
    for k := 0 to |DIMENSIONS|
      invariant r == Run(ms, w, DIMENSIONS[..k], start)
    {
      assert DIMENSIONS[..k + 1][..k] == DIMENSIONS[..k];
      r := Step(ms, w, DIMENSIONS[k], r);
    }
    assert DIMENSIONS[..|DIMENSIONS|] == DIMENSIONS;
    result := StreamResult(if r.weightSum != 0.0 then r.scoreSum / r.weightSum else 0.0, r.scores, w.weight);
    RunSums(ms, w, DIMENSIONS, start);
    forall d
      ensures d in r.scores <==> HasScore(ms, w.id, d)
      ensures d in r.scores ==> r.scores[d] == LocalScore(ms, w.id, d)
    {
      RunScores(ms, w, DIMENSIONS, start, d);
      EveryDimension(d);
    }
  }

  lemma EveryDimension(d: Dimension)
    ensures d in DIMENSIONS && Distinct(DIMENSIONS)
  {
    assert DIMENSIONS[0] == Research && DIMENSIONS[1] == Implementation;
    assert DIMENSIONS[2] == Effectiveness && DIMENSIONS[3] == Readiness;
  }

  ghost predicate TotalsRight(ms: seq<Milestone>, ws: seq<Workstream>, denominators: map<Dimension, real>,
                              numerators: map<Dimension, real>) {
    forall d :: Entry(denominators, d) == Weight(GlobalTerms(ms, ws, d)) &&
                Entry(numerators, d) == Weighted(GlobalTerms(ms, ws, d))
  }

  /** What one workstream adds to a dimension's terms. */
  function AddedTerms(ms: seq<Milestone>, w: Workstream, d: Dimension): seq<Term> {
    if HasScore(ms, w.id, d) then [Term(w.weight as real, LocalScore(ms, w.id, d))] else []
  }

  lemma GlobalTermsSnoc(ms: seq<Milestone>, ws: seq<Workstream>, i: nat, d: Dimension)
    requires i < |ws|
    ensures GlobalTerms(ms, ws[..i + 1], d) == GlobalTerms(ms, ws[..i], d) + AddedTerms(ms, ws[i], d)
  {
    var s := ws[..i + 1];
    assert s[..|s| - 1] == ws[..i] && s[|s| - 1] == ws[i];
  }

  lemma SumsAdded(ts: seq<Term>, ms: seq<Milestone>, w: Workstream, d: Dimension)
    ensures Weight(ts + AddedTerms(ms, w, d)) == Weight(ts) + AddedWeight(ms, w, d)
    ensures Weighted(ts + AddedTerms(ms, w, d)) == Weighted(ts) + AddedScore(ms, w, d)
  {
    if HasScore(ms, w.id, d) {
      SumsSnoc(ts, Term(w.weight as real, LocalScore(ms, w.id, d)));
    } else {
      assert ts + AddedTerms(ms, w, d) == ts;
    }
  }

  lemma GlobalSumsSnoc(ms: seq<Milestone>, ws: seq<Workstream>, i: nat, d: Dimension)
    requires i < |ws|
    ensures Weight(GlobalTerms(ms, ws[..i + 1], d)) == Weight(GlobalTerms(ms, ws[..i], d)) + AddedWeight(ms, ws[i], d)
    ensures Weighted(GlobalTerms(ms, ws[..i + 1], d)) ==
            Weighted(GlobalTerms(ms, ws[..i], d)) + AddedScore(ms, ws[i], d)
  {
    GlobalTermsSnoc(ms, ws, i, d);
    SumsAdded(GlobalTerms(ms, ws[..i], d), ms, ws[i], d);
  }

  lemma TotalsSnoc(ms: seq<Milestone>, ws: seq<Workstream>, i: nat, denominators: map<Dimension, real>,
                   numerators: map<Dimension, real>)
    requires i < |ws| && TotalsRight(ms, ws[..i], denominators, numerators)
    ensures var r := Run(ms, ws[i], DIMENSIONS, Fresh(denominators, numerators));
            TotalsRight(ms, ws[..i + 1], r.denominators, r.numerators)
  {
    var r := Run(ms, ws[i], DIMENSIONS, Fresh(denominators, numerators));
    forall d
      ensures Entry(r.denominators, d) == Weight(GlobalTerms(ms, ws[..i + 1], d))
      ensures Entry(r.numerators, d) == Weighted(GlobalTerms(ms, ws[..i + 1], d))
    {
      EveryDimension(d);
      RunTotals(ms, ws[i], DIMENSIONS, Fresh(denominators, numerators), d);
      GlobalSumsSnoc(ms, ws, i, d);
    }
  }

  ghost predicate StreamsRight(ms: seq<Milestone>, ws: seq<Workstream>, n: nat, streams: map<string, StreamResult>)
    requires n <= |ws|
  {
    forall i | 0 <= i < n :: ws[i].id in streams && StreamRight(ms, ws[i], streams[ws[i].id])
  }

  lemma StreamsSnoc(ms: seq<Milestone>, ws: seq<Workstream>, n: nat, streams: map<string, StreamResult>,
                    result: StreamResult)
    requires ValidWeights(ms, ws) && n < |ws| && StreamsRight(ms, ws, n, streams) && StreamRight(ms, ws[n], result)
    ensures StreamsRight(ms, ws, n + 1, streams[ws[n].id := result])
  {
    forall i | 0 <= i < n ensures ws[i].id != ws[n].id {}
  }

  ghost function IdsOf(ws: seq<Workstream>): set<string> { set w | w in ws :: w.id }

  lemma IdsSnoc(ws: seq<Workstream>, i: nat)
    requires i < |ws|
    ensures IdsOf(ws[..i + 1]) == IdsOf(ws[..i]) + {ws[i].id}
  {
    assert ws[..i + 1] == ws[..i] + [ws[i]];
  }

  /** `calculate_progress`: every accumulated number is the weighted mean it stands for. */
  method CalculateProgress(ms: seq<Milestone>, ws: seq<Workstream>)
    returns (overall: real, dimensions: map<Dimension, real>, streams: map<string, StreamResult>)
    requires ValidWeights(ms, ws)
    ensures overall == OverallScore(ms, ws)
    ensures forall d :: d in dimensions && dimensions[d] == GlobalScore(ms, ws, d)
    ensures StreamsRight(ms, ws, |ws|, streams) && streams.Keys == IdsOf(ws)
  {
    streams := map[];
    var denominators: map<Dimension, real> := map[];
    var numerators: map<Dimension, real> := map[];
    for i := 0 to |ws|
      invariant StreamsRight(ms, ws, i, streams) && streams.Keys == IdsOf(ws[..i])
      invariant TotalsRight(ms, ws[..i], denominators, numerators)
    {
      var result, r := ScoreStream(ms, ws[i], denominators, numerators);
      TotalsSnoc(ms, ws, i, denominators, numerators);
      StreamsSnoc(ms, ws, i, streams, result);
      IdsSnoc(ws, i);
      streams := streams[ws[i].id := result];
      denominators, numerators := r.denominators, r.numerators;
    }
    assert ws[..|ws|] == ws;
    dimensions := DivideTotals(ms, ws, denominators, numerators);
    overall := CombineStreams(ms, ws, streams);
  }

  method DivideTotals(ghost ms: seq<Milestone>, ghost ws: seq<Workstream>,
                      denominators: map<Dimension, real>, numerators: map<Dimension, real>)
    returns (dimensions: map<Dimension, real>)
    requires TotalsRight(ms, ws, denominators, numerators)
    ensures forall d :: d in dimensions && dimensions[d] == GlobalScore(ms, ws, d)
  {
    dimensions := map d | d in Elements(DIMENSIONS) ::
      if Entry(denominators, d) != 0.0 then Entry(numerators, d) / Entry(denominators, d) else 0.0;
    forall d ensures d in dimensions { EveryDimension(d); }
  }

  method CombineStreams(ms: seq<Milestone>, ws: seq<Workstream>, streams: map<string, StreamResult>)
    returns (overall: real)
    requires ValidWeights(ms, ws)
    requires StreamsRight(ms, ws, |ws|, streams)
    ensures overall == OverallScore(ms, ws)
  {
    var terms := OverallTerms(ms, ws);
    var sum, weight := 0.0, 0.0;
    for i := 0 to |ws|
      invariant sum == Weighted(terms[..i]) && weight == Weight(terms[..i])
    {
      var term := Term(ws[i].weight as real, streams[ws[i].id].overall);
      assert term == terms[i];
      SumsPrefix(terms, i);
      sum := Plus(sum, term);
      weight := weight + term.weight;
    }
    assert terms[..|terms|] == terms;
    overall := PositiveMean(terms, sum, weight);
  }

  /** A running sum with one more weighted score. */
  function Plus(sum: real, t: Term): real { sum + t.score * t.weight }

  lemma SumsPrefix(ts: seq<Term>, i: nat)
    requires i < |ts|
    ensures Weight(ts[..i + 1]) == Weight(ts[..i]) + ts[i].weight
    ensures Weighted(ts[..i + 1]) == Plus(Weighted(ts[..i]), ts[i])
  {
    assert ts[..i + 1] == ts[..i] + [ts[i]];
    SumsSnoc(ts[..i], ts[i]);
  }

  /** The quotient of the two sums. */
  function PositiveMean(ts: seq<Term>, sum: real, weight: real): (r: real)
    requires ts != [] && forall i | 0 <= i < |ts| :: ts[i].weight > 0.0
    requires sum == Weighted(ts) && weight == Weight(ts)
    ensures r == Mean(ts)
  {
    PositiveTotal(ts);
    sum / weight
  }

  lemma {:induction false} PositiveTotal(ts: seq<Term>)
    requires forall i | 0 <= i < |ts| :: ts[i].weight > 0.0
    ensures Weight(ts) >= 0.0 && (ts != [] ==> Weight(ts) > 0.0)
  {
    if ts != [] { PositiveTotal(ts[..|ts| - 1]); }
  }

  // ---------- range, monotonicity, interchange ----------

  lemma {:induction false} LocalTermsGraded(ms: seq<Milestone>, id: string, d: Dimension)
    requires forall m | m in ms :: m.weight > 0
    ensures Graded(LocalTerms(ms, id, d))
  {
    if ms != [] { LocalTermsGraded(ms[..|ms| - 1], id, d); }
  }

  lemma LocalInRange(ms: seq<Milestone>, id: string, d: Dimension)
    requires forall m | m in ms :: m.weight > 0
    ensures 0.0 <= LocalScore(ms, id, d) <= 100.0
  {
    LocalTermsGraded(ms, id, d);
    MeanInRange(LocalTerms(ms, id, d));
  }

  lemma {:induction false} StreamTermsGraded(ms: seq<Milestone>, w: Workstream, ds: seq<Dimension>)
    requires forall m | m in ms :: m.weight > 0
    requires forall d | d in w.dimensionWeights :: w.dimensionWeights[d] >= 0
    ensures Graded(StreamTerms(ms, w, ds))
  {
    if ds != [] {
      StreamTermsGraded(ms, w, ds[..|ds| - 1]);
      LocalInRange(ms, w.id, ds[|ds| - 1]);
    }
  }

  lemma {:induction false} GlobalTermsGraded(ms: seq<Milestone>, ws: seq<Workstream>, d: Dimension)
    requires (forall m | m in ms :: m.weight > 0) && forall w | w in ws :: w.weight > 0
    ensures Graded(GlobalTerms(ms, ws, d))
  {
    if ws != [] {
      GlobalTermsGraded(ms, ws[..|ws| - 1], d);
      LocalInRange(ms, ws[|ws| - 1].id, d);
    }
  }

  /** Every workstream, dimension and overall score lies between 0 and 100. */
  lemma ScoresInRange(ms: seq<Milestone>, ws: seq<Workstream>)
    requires ValidWeights(ms, ws)
    ensures 0.0 <= OverallScore(ms, ws) <= 100.0
    ensures forall d :: 0.0 <= GlobalScore(ms, ws, d) <= 100.0
    ensures forall w | w in ws :: 0.0 <= StreamScore(ms, w) <= 100.0 &&
              forall d :: 0.0 <= LocalScore(ms, w.id, d) <= 100.0
  {
    forall w | w in ws
      ensures 0.0 <= StreamScore(ms, w) <= 100.0 && forall d :: 0.0 <= LocalScore(ms, w.id, d) <= 100.0
    {
      StreamTermsGraded(ms, w, DIMENSIONS);
      MeanInRange(StreamTerms(ms, w, DIMENSIONS));
      forall d ensures 0.0 <= LocalScore(ms, w.id, d) <= 100.0 { LocalInRange(ms, w.id, d); }
    }
    forall d ensures 0.0 <= GlobalScore(ms, ws, d) <= 100.0 {
      GlobalTermsGraded(ms, ws, d);
      MeanInRange(GlobalTerms(ms, ws, d));
    }
    assert Graded(OverallTerms(ms, ws)) by { assert forall i | 0 <= i < |ws| :: ws[i] in ws; }
    MeanInRange(OverallTerms(ms, ws));
  }

  /** A status that is worth something has become one that is worth as much or more. */
  ghost predicate NotLower(m: Milestone, better: Milestone, d: Dimension) {
    d in m.status && m.status[d] in ScoreMap(d) && ScoreMap(d)[m.status[d]] > 0.0 ==>
      d in better.status && better.status[d] in ScoreMap(d) &&
      ScoreMap(d)[m.status[d]] <= ScoreMap(d)[better.status[d]]
  }

  /** The same milestones with no status lower in any dimension. */
  ghost predicate Raised(ms: seq<Milestone>, better: seq<Milestone>) {
    |ms| == |better| && forall i | 0 <= i < |ms| ::
      && ms[i].workstream == better[i].workstream && ms[i].weight == better[i].weight > 0
      && ms[i].scored == better[i].scored
      && forall d :: NotLower(ms[i], better[i], d)
  }

  lemma {:induction false} LocalTermsRise(ms: seq<Milestone>, better: seq<Milestone>, id: string, d: Dimension)
    requires Raised(ms, better)
    ensures Dominated(LocalTerms(ms, id, d), LocalTerms(better, id, d))
  {
    if ms != [] {
      var n := |ms| - 1;
      LocalTermsRise(ms[..n], better[..n], id, d);
      assert NotLower(ms[n], better[n], d);
    }
  }

  lemma LocalRises(ms: seq<Milestone>, better: seq<Milestone>, id: string, d: Dimension)
    requires Raised(ms, better)
    ensures LocalScore(ms, id, d) <= LocalScore(better, id, d)
    ensures HasScore(ms, id, d) == HasScore(better, id, d)
  {
    LocalTermsRise(ms, better, id, d);
    MeanMonotone(LocalTerms(ms, id, d), LocalTerms(better, id, d));
  }

  lemma {:induction false} StreamTermsRise(ms: seq<Milestone>, better: seq<Milestone>, w: Workstream,
                                           ds: seq<Dimension>)
    requires Raised(ms, better) && forall d | d in w.dimensionWeights :: w.dimensionWeights[d] >= 0
    ensures Dominated(StreamTerms(ms, w, ds), StreamTerms(better, w, ds))
  {
    if ds != [] {
      StreamTermsRise(ms, better, w, ds[..|ds| - 1]);
      LocalRises(ms, better, w.id, ds[|ds| - 1]);
    }
  }

  lemma {:induction false} GlobalTermsRise(ms: seq<Milestone>, better: seq<Milestone>, ws: seq<Workstream>,
                                           d: Dimension)
    requires Raised(ms, better) && forall w | w in ws :: w.weight > 0
    ensures Dominated(GlobalTerms(ms, ws, d), GlobalTerms(better, ws, d))
  {
    if ws != [] {
      GlobalTermsRise(ms, better, ws[..|ws| - 1], d);
      LocalRises(ms, better, ws[|ws| - 1].id, d);
    }
  }

  /** Moving statuses up lowers no workstream, dimension or overall score. */
  lemma ScoresAreMonotone(ms: seq<Milestone>, better: seq<Milestone>, ws: seq<Workstream>)
    requires ValidWeights(ms, ws) && Raised(ms, better)
    ensures OverallScore(ms, ws) <= OverallScore(better, ws)
    ensures forall d :: GlobalScore(ms, ws, d) <= GlobalScore(better, ws, d)
    ensures forall w | w in ws :: StreamScore(ms, w) <= StreamScore(better, w) &&
              forall d :: LocalScore(ms, w.id, d) <= LocalScore(better, w.id, d)
  {
    forall w | w in ws
      ensures StreamScore(ms, w) <= StreamScore(better, w) &&
              forall d :: LocalScore(ms, w.id, d) <= LocalScore(better, w.id, d)
    {
      StreamTermsRise(ms, better, w, DIMENSIONS);
      MeanMonotone(StreamTerms(ms, w, DIMENSIONS), StreamTerms(better, w, DIMENSIONS));
      forall d ensures LocalScore(ms, w.id, d) <= LocalScore(better, w.id, d) { LocalRises(ms, better, w.id, d); }
    }
    forall d ensures GlobalScore(ms, ws, d) <= GlobalScore(better, ws, d) {
      GlobalTermsRise(ms, better, ws, d);
      MeanMonotone(GlobalTerms(ms, ws, d), GlobalTerms(better, ws, d));
    }
    assert Dominated(OverallTerms(ms, ws), OverallTerms(better, ws)) by {
      assert forall i | 0 <= i < |ws| :: ws[i] in ws;
    }
    MeanMonotone(OverallTerms(ms, ws), OverallTerms(better, ws));
  }

  // ---------- scores in terms of statuses ----------

  /** What a milestone is worth in a dimension: the table's value of its status, nothing for any other status. */
  ghost predicate Worth(m: Milestone, d: Dimension, c: real) {
    if d in m.status && m.status[d] in ScoreMap(d) then c == ScoreMap(d)[m.status[d]] else c == 0.0
  }

  /** Some milestone of the workstream is scored in the dimension. */
  ghost predicate ScoredIn(ms: seq<Milestone>, id: string, d: Dimension) {
    exists m :: m in ms && m.workstream == id && d in m.scored
  }

  lemma {:induction false} HasScoreMeans(ms: seq<Milestone>, id: string, d: Dimension)
    requires forall m | m in ms :: m.weight > 0
    ensures Weight(LocalTerms(ms, id, d)) >= 0.0
    ensures HasScore(ms, id, d) <==> ScoredIn(ms, id, d)
  {
    if ms != [] {
      var n := |ms| - 1;
      HasScoreMeans(ms[..n], id, d);
      assert ms == ms[..n] + [ms[n]];
      assert ScoredIn(ms, id, d) <==> ScoredIn(ms[..n], id, d) || Applies(ms[n], id, d);
    }
  }

  ghost predicate Level(ts: seq<Term>, c: real) {
    forall i | 0 <= i < |ts| :: ts[i].weight >= 0.0 && ts[i].score == c
  }

  lemma {:induction false} LevelMean(ts: seq<Term>, c: real)
    requires Level(ts, c)
    ensures Weight(ts) >= 0.0 && Weighted(ts) == Weight(ts) * c
    ensures Mean(ts) == if Weight(ts) > 0.0 then c else 0.0
  {
    if ts != [] { LevelMean(ts[..|ts| - 1], c); }
  }

  ghost predicate AllWorth(ms: seq<Milestone>, c: real) {
    forall m, d | m in ms && d in m.scored :: Worth(m, d, c)
  }

  lemma {:induction false} LocalLevel(ms: seq<Milestone>, id: string, d: Dimension, c: real)
    requires AllWorth(ms, c) && forall m | m in ms :: m.weight > 0
    ensures Level(LocalTerms(ms, id, d), c)
  {
    if ms != [] {
      var n := |ms| - 1;
      LocalLevel(ms[..n], id, d, c);
      assert ms[n] in ms;
      if d in ms[n].scored { assert Worth(ms[n], d, c); }
    }
  }

  lemma LocalOfLevel(ms: seq<Milestone>, id: string, d: Dimension, c: real)
    requires AllWorth(ms, c) && forall m | m in ms :: m.weight > 0
    ensures LocalScore(ms, id, d) == if ScoredIn(ms, id, d) then c else 0.0
  {
    LocalLevel(ms, id, d, c);
    LevelMean(LocalTerms(ms, id, d), c);
    HasScoreMeans(ms, id, d);
  }

  /** Some dimension of positive weight is scored in the workstream. */
  ghost predicate Counts(ms: seq<Milestone>, w: Workstream, ds: seq<Dimension>) {
    exists d :: d in ds && ScoredIn(ms, w.id, d) && d in w.dimensionWeights && w.dimensionWeights[d] > 0
  }

  lemma {:induction false} StreamLevel(ms: seq<Milestone>, w: Workstream, ds: seq<Dimension>, c: real)
    requires AllWorth(ms, c) && forall m | m in ms :: m.weight > 0
    requires forall d | d in w.dimensionWeights :: w.dimensionWeights[d] >= 0
    ensures Level(StreamTerms(ms, w, ds), c) && Weight(StreamTerms(ms, w, ds)) >= 0.0
    ensures Weight(StreamTerms(ms, w, ds)) > 0.0 <==> Counts(ms, w, ds)
  {
    if ds != [] {
      var n := |ds| - 1;
      StreamLevel(ms, w, ds[..n], c);
      HasScoreMeans(ms, w.id, ds[n]);
      LocalOfLevel(ms, w.id, ds[n], c);
      CountsSnoc(ms, w, ds);
      StreamWeightSnoc(ms, w, ds);
    }
  }

  /** What the last dimension adds to the weight of a stream. */
  lemma StreamWeightSnoc(ms: seq<Milestone>, w: Workstream, ds: seq<Dimension>)
    requires ds != []
    ensures var n := |ds| - 1;
            Weight(StreamTerms(ms, w, ds)) ==
            Weight(StreamTerms(ms, w, ds[..n])) + if HasScore(ms, w.id, ds[n]) then DimensionWeight(w, ds[n]) else 0.0
  {
    var n := |ds| - 1;
    SumsSnoc(StreamTerms(ms, w, ds[..n]), Term(DimensionWeight(w, ds[n]), LocalScore(ms, w.id, ds[n])));
  }

  lemma CountsSnoc(ms: seq<Milestone>, w: Workstream, ds: seq<Dimension>)
    requires ds != []
    ensures var n := |ds| - 1;
            Counts(ms, w, ds) <==>
            Counts(ms, w, ds[..n]) || (ScoredIn(ms, w.id, ds[n]) && DimensionWeight(w, ds[n]) > 0.0)
  {
    var n := |ds| - 1;
    assert ds == ds[..n] + [ds[n]];
    assert DimensionWeight(w, ds[n]) > 0.0 <==> ds[n] in w.dimensionWeights && w.dimensionWeights[ds[n]] > 0;
  }

  lemma {:induction false} GlobalLevel(ms: seq<Milestone>, ws: seq<Workstream>, d: Dimension, c: real)
    requires AllWorth(ms, c) && (forall m | m in ms :: m.weight > 0) && forall w | w in ws :: w.weight > 0
    ensures Level(GlobalTerms(ms, ws, d), c) && Weight(GlobalTerms(ms, ws, d)) >= 0.0
    ensures Weight(GlobalTerms(ms, ws, d)) > 0.0 <==> exists w :: w in ws && ScoredIn(ms, w.id, d)
  {
    if ws != [] {
      var n := |ws| - 1;
      GlobalLevel(ms, ws[..n], d, c);
      assert ws == ws[..n] + [ws[n]];
      HasScoreMeans(ms, ws[n].id, d);
      LocalOfLevel(ms, ws[n].id, d, c);
    }
  }

  /** When every scored status is worth the same, so is every score that something stands behind, and every
      other score is nothing: all at the top of their tables give 100 everywhere, all unknown give 0. */
  lemma SameWorthEverywhere(ms: seq<Milestone>, ws: seq<Workstream>, c: real)
    requires ValidWeights(ms, ws) && AllWorth(ms, c)
    ensures forall w, d | w in ws :: LocalScore(ms, w.id, d) == if ScoredIn(ms, w.id, d) then c else 0.0
    ensures forall w | w in ws :: StreamScore(ms, w) == if Counts(ms, w, DIMENSIONS) then c else 0.0
    ensures forall d :: GlobalScore(ms, ws, d) == if exists w :: w in ws && ScoredIn(ms, w.id, d) then c else 0.0
    ensures (forall w | w in ws :: Counts(ms, w, DIMENSIONS)) ==> OverallScore(ms, ws) == c
  {
    forall w, d | w in ws ensures LocalScore(ms, w.id, d) == if ScoredIn(ms, w.id, d) then c else 0.0 {
      LocalOfLevel(ms, w.id, d, c);
    }
    forall w | w in ws ensures StreamScore(ms, w) == if Counts(ms, w, DIMENSIONS) then c else 0.0 {
      StreamLevel(ms, w, DIMENSIONS, c);
      LevelMean(StreamTerms(ms, w, DIMENSIONS), c);
    }
    forall d ensures GlobalScore(ms, ws, d) == if exists w :: w in ws && ScoredIn(ms, w.id, d) then c else 0.0 {
      GlobalLevel(ms, ws, d, c);
      LevelMean(GlobalTerms(ms, ws, d), c);
    }
    if forall w | w in ws :: Counts(ms, w, DIMENSIONS) {
      assert forall i | 0 <= i < |ws| :: ws[i] in ws;
      LevelMean(OverallTerms(ms, ws), c);
      PositiveTotal(OverallTerms(ms, ws));
    }
  }

  /** The milestones of one workstream. */
  ghost function Of(ms: seq<Milestone>, id: string): seq<Milestone> {
    if ms == [] then []
    else Of(ms[..|ms| - 1], id) + if ms[|ms| - 1].workstream == id then [ms[|ms| - 1]] else []
  }

  lemma {:induction false} TermsOfStream(ms: seq<Milestone>, id: string, d: Dimension)
    ensures LocalTerms(ms, id, d) == LocalTerms(Of(ms, id), id, d)
  {
    if ms != [] {
      var n := |ms| - 1;
      TermsOfStream(ms[..n], id, d);
      var front := Of(ms[..n], id);
      if ms[n].workstream == id {
        assert (front + [ms[n]])[..|front|] == front;
      } else {
        assert front + [] == front;
      }
    }
  }

  /** The scores of a workstream depend on its own milestones only. */
  lemma LocalScoresAreLocal(ms: seq<Milestone>, other: seq<Milestone>, w: Workstream)
    requires Of(ms, w.id) == Of(other, w.id)
    ensures forall d :: LocalScore(ms, w.id, d) == LocalScore(other, w.id, d)
    ensures StreamScore(ms, w) == StreamScore(other, w)
  {
    forall d ensures LocalTerms(ms, w.id, d) == LocalTerms(other, w.id, d) {
      TermsOfStream(ms, w.id, d);
      TermsOfStream(other, w.id, d);
    }
    StreamTermsAgree(ms, other, w, DIMENSIONS);
  }

  lemma {:induction false} StreamTermsAgree(ms: seq<Milestone>, other: seq<Milestone>, w: Workstream,
                                            ds: seq<Dimension>)
    requires forall d :: LocalTerms(ms, w.id, d) == LocalTerms(other, w.id, d)
    ensures StreamTerms(ms, w, ds) == StreamTerms(other, w, ds)
  {
    if ds != [] { StreamTermsAgree(ms, other, w, ds[..|ds| - 1]); }
  }

  /** The milestone at `i` made heavier. */
  function Heavier(ms: seq<Milestone>, i: nat, more: nat): seq<Milestone>
    requires i < |ms|
  {
    ms[i := ms[i].(weight := ms[i].weight + more)]
  }

  lemma LocalSums(ms: seq<Milestone>, id: string, d: Dimension)
    requires ms != []
    ensures var n := |ms| - 1;
            var front, added := LocalTerms(ms[..n], id, d), Term(ms[n].weight as real, Score(ms[n], d));
            && Weight(LocalTerms(ms, id, d)) == Weight(front) + (if Applies(ms[n], id, d) then added.weight else 0.0)
            && Weighted(LocalTerms(ms, id, d)) ==
               Weighted(front) + (if Applies(ms[n], id, d) then Contribution(added) else 0.0)
  {
    var n := |ms| - 1;
    SumsSnoc(LocalTerms(ms[..n], id, d), Term(ms[n].weight as real, Score(ms[n], d)));
  }

  /** The sums of `us` are those of `ts` with more weight of the score `s`. */
  ghost predicate Gains(ts: seq<Term>, us: seq<Term>, more: real, s: real) {
    Weight(us) == Weight(ts) + more && Weighted(us) == Weighted(ts) + Contribution(Term(more, s))
  }

  lemma {:induction false} HeavierSums(ms: seq<Milestone>, i: nat, more: nat, id: string, d: Dimension, s: real)
    requires i < |ms| && Applies(ms[i], id, d) && Worth(ms[i], d, s)
    ensures Gains(LocalTerms(ms, id, d), LocalTerms(Heavier(ms, i, more), id, d), more as real, s)
  {
    var n := |ms| - 1;
    var after := Heavier(ms, i, more);
    if i < n {
      assert after[..n] == Heavier(ms[..n], i, more) && after[n] == ms[n];
      HeavierSums(ms[..n], i, more, id, d, s);
      GainsStay(ms, after, id, d, more as real, s);
    } else {
      HeavierLast(ms, more, id, d, s);
    }
  }

  lemma GainsStay(ms: seq<Milestone>, after: seq<Milestone>, id: string, d: Dimension, more: real, s: real)
    requires ms != [] && |after| == |ms| && after[|ms| - 1] == ms[|ms| - 1]
    requires Gains(LocalTerms(ms[..|ms| - 1], id, d), LocalTerms(after[..|ms| - 1], id, d), more, s)
    ensures Gains(LocalTerms(ms, id, d), LocalTerms(after, id, d), more, s)
  {
    LocalSums(ms, id, d);
    LocalSums(after, id, d);
  }

  lemma HeavierLast(ms: seq<Milestone>, more: nat, id: string, d: Dimension, s: real)
    requires ms != [] && Applies(ms[|ms| - 1], id, d) && Worth(ms[|ms| - 1], d, s)
    ensures Gains(LocalTerms(ms, id, d), LocalTerms(Heavier(ms, |ms| - 1, more), id, d), more as real, s)
  {
    var n := |ms| - 1;
    var after := Heavier(ms, n, more);
    assert after[..n] == ms[..n];
    assert Score(after[n], d) == s == Score(ms[n], d);
    LocalSums(ms, id, d);
    LocalSums(after, id, d);
    HeavierTerm(ms[n].weight as real, more as real, s);
  }

  lemma HeavierTerm(w: real, more: real, s: real)
    ensures Contribution(Term(w + more, s)) == Contribution(Term(w, s)) + Contribution(Term(more, s))
  {
  }

  /** As a milestone grows heavier the local score moves toward what its status is worth, and never past it. */
  lemma WeightPulls(ms: seq<Milestone>, i: nat, more: nat, id: string, d: Dimension, s: real)
    requires i < |ms| && Applies(ms[i], id, d) && Worth(ms[i], d, s) && more > 0
    requires forall m | m in ms :: m.weight > 0
    ensures Toward(LocalScore(ms, id, d), LocalScore(Heavier(ms, i, more), id, d), s)
  {
    var ts, us := LocalTerms(ms, id, d), LocalTerms(Heavier(ms, i, more), id, d);
    HeavierSums(ms, i, more, id, d, s);
    ContributionAdds(Weighted(us), Weighted(ts), more as real, s);
    assert ms[i] in ms;
    HasScoreMeans(ms, id, d);
    MeanIsQuotient(ts);
    MeanIsQuotient(us);
    MeanPulled(Mean(ts), Mean(us), Weighted(ts), Weighted(us), Weight(ts), more as real, s);
  }

  lemma ContributionAdds(after: real, before: real, more: real, s: real)
    requires after == before + Contribution(Term(more, s))
    ensures AddsProduct(after, before, more, s)
  {
  }

  lemma MeanIsQuotient(ts: seq<Term>)
    requires Weight(ts) > 0.0
    ensures QuotientIs(Mean(ts), Weighted(ts), Weight(ts))
  {
  }

  // ---------- both ways of averaging agree ----------

  /** One number for each dimension. */
  datatype Four = Four(research: real, implementation: real, effectiveness: real, readiness: real)

  ghost predicate Covered(dw: map<Dimension, int>) { forall d :: d in dw }

  ghost predicate Weighty(dw: map<Dimension, int>) {
    Covered(dw) && (forall d :: d in dw ==> dw[d] >= 0) && exists d :: d in dw && dw[d] > 0
  }

  ghost predicate AllScored(ms: seq<Milestone>, id: string) { forall d :: HasScore(ms, id, d) }

  /** The four numbers under the dimension weights. */
  ghost function FourTerms(dw: map<Dimension, int>, x: Four): (r: seq<Term>)
    requires Covered(dw)
  {
    [Term(dw[Research] as real, x.research), Term(dw[Implementation] as real, x.implementation),
     Term(dw[Effectiveness] as real, x.effectiveness), Term(dw[Readiness] as real, x.readiness)]
  }

  ghost function Locals(ms: seq<Milestone>, id: string): Four {
    Four(LocalScore(ms, id, Research), LocalScore(ms, id, Implementation),
         LocalScore(ms, id, Effectiveness), LocalScore(ms, id, Readiness))
  }

  ghost function GlobalSums(ms: seq<Milestone>, ws: seq<Workstream>): Four {
    Four(Weighted(GlobalTerms(ms, ws, Research)), Weighted(GlobalTerms(ms, ws, Implementation)),
         Weighted(GlobalTerms(ms, ws, Effectiveness)), Weighted(GlobalTerms(ms, ws, Readiness)))
  }

  ghost function Globals(ms: seq<Milestone>, ws: seq<Workstream>): Four {
    Four(GlobalScore(ms, ws, Research), GlobalScore(ms, ws, Implementation),
         GlobalScore(ms, ws, Effectiveness), GlobalScore(ms, ws, Readiness))
  }

  function PlusTimes(x: Four, c: real, y: Four): Four {
    Four(x.research + c * y.research, x.implementation + c * y.implementation,
         x.effectiveness + c * y.effectiveness, x.readiness + c * y.readiness)
  }

  function Divided(x: Four, t: real): Four
    requires t > 0.0
  {
    Four(x.research / t, x.implementation / t, x.effectiveness / t, x.readiness / t)
  }

  /** Every workstream uses the weights `dw` and is scored in all four dimensions. */
  ghost predicate Uniform(ms: seq<Milestone>, ws: seq<Workstream>, dw: map<Dimension, int>) {
    Weighty(dw) && forall w | w in ws :: w.dimensionWeights == dw && AllScored(ms, w.id)
  }

  lemma FourSums(ts: seq<Term>)
    requires |ts| == 4
    ensures Weight(ts) == ts[0].weight + ts[1].weight + ts[2].weight + ts[3].weight
    ensures Weighted(ts) == ts[0].weight * ts[0].score + ts[1].weight * ts[1].score
                          + ts[2].weight * ts[2].score + ts[3].weight * ts[3].score
  {
    SumsSnoc([], ts[0]);
    SumsSnoc([ts[0]], ts[1]);
    SumsSnoc([ts[0], ts[1]], ts[2]);
    SumsSnoc([ts[0], ts[1], ts[2]], ts[3]);
    assert [] + [ts[0]] == [ts[0]] && [ts[0]] + [ts[1]] == [ts[0], ts[1]];
    assert [ts[0], ts[1]] + [ts[2]] == [ts[0], ts[1], ts[2]];
    assert [ts[0], ts[1], ts[2]] + [ts[3]] == ts;
  }

  lemma FourWeight(dw: map<Dimension, int>, x: Four, y: Four)
    requires Weighty(dw)
    ensures Weight(FourTerms(dw, x)) == Weight(FourTerms(dw, y)) > 0.0
  {
    FourSums(FourTerms(dw, x));
    FourSums(FourTerms(dw, y));
    var d :| d in dw && dw[d] > 0;
    match d case Research => case Implementation => case Effectiveness => case Readiness =>
  }

  lemma UniformStream(ms: seq<Milestone>, ws: seq<Workstream>, w: Workstream, dw: map<Dimension, int>)
    requires Uniform(ms, ws, dw) && w in ws
    ensures StreamTerms(ms, w, DIMENSIONS) == FourTerms(dw, Locals(ms, w.id))
  {
    assert DIMENSIONS[..3] == [Research, Implementation, Effectiveness];
    assert DIMENSIONS[..3][..2] == [Research, Implementation];
    assert [Research, Implementation][..1] == [Research];
    assert [Research][..0] == [];
    assert StreamTerms(ms, w, [Research]) ==
           [Term(w.dimensionWeights[Research] as real, LocalScore(ms, w.id, Research))];
    assert |StreamTerms(ms, w, [Research, Implementation])| == 2;
    assert |StreamTerms(ms, w, DIMENSIONS[..3])| == 3;
  }

  lemma FourLinear(dw: map<Dimension, int>, x: Four, c: real, y: Four)
    requires Covered(dw)
    ensures Weighted(FourTerms(dw, PlusTimes(x, c, y))) == Weighted(FourTerms(dw, x)) + c * Weighted(FourTerms(dw, y))
  {
    FourSums(FourTerms(dw, x));
    FourSums(FourTerms(dw, y));
    FourSums(FourTerms(dw, PlusTimes(x, c, y)));
    Distribute(dw[Research] as real, x.research, y.research, c);
    Distribute(dw[Implementation] as real, x.implementation, y.implementation, c);
    Distribute(dw[Effectiveness] as real, x.effectiveness, y.effectiveness, c);
    Distribute(dw[Readiness] as real, x.readiness, y.readiness, c);
    var a, b := dw[Research] as real * y.research, dw[Implementation] as real * y.implementation;
    var e, f := dw[Effectiveness] as real * y.effectiveness, dw[Readiness] as real * y.readiness;
    assert c * (a + b + e + f) == c * a + c * b + c * e + c * f;
  }

  lemma FourQuotient(dw: map<Dimension, int>, x: Four, t: real)
    requires t > 0.0 && Covered(dw)
    ensures Weighted(FourTerms(dw, Divided(x, t))) == Weighted(FourTerms(dw, x)) / t
  {
    FourSums(FourTerms(dw, x));
    FourSums(FourTerms(dw, Divided(x, t)));
    MoveQuotient(dw[Research] as real, x.research, t);
    MoveQuotient(dw[Implementation] as real, x.implementation, t);
    MoveQuotient(dw[Effectiveness] as real, x.effectiveness, t);
    MoveQuotient(dw[Readiness] as real, x.readiness, t);
  }

  lemma GlobalSumsStep(ms: seq<Milestone>, ws: seq<Workstream>, n: nat)
    requires |ws| == n + 1 && AllScored(ms, ws[n].id)
    ensures GlobalSums(ms, ws) == PlusTimes(GlobalSums(ms, ws[..n]), ws[n].weight as real, Locals(ms, ws[n].id))
  {
    assert ws[..n + 1] == ws;
    forall d
      ensures Weighted(GlobalTerms(ms, ws, d)) ==
              Weighted(GlobalTerms(ms, ws[..n], d)) + ws[n].weight as real * LocalScore(ms, ws[n].id, d)
    {
      GlobalSumsSnoc(ms, ws, n, d);
    }
  }

  lemma OverallTermsSnoc(ms: seq<Milestone>, ws: seq<Workstream>, n: nat)
    requires |ws| == n + 1
    ensures OverallTerms(ms, ws) == OverallTerms(ms, ws[..n]) + [Term(ws[n].weight as real, StreamScore(ms, ws[n]))]
  {
  }

  lemma OverallSumsStep(ms: seq<Milestone>, ws: seq<Workstream>, n: nat)
    requires |ws| == n + 1
    ensures var c := ws[n].weight as real;
            && Weight(OverallTerms(ms, ws)) == Weight(OverallTerms(ms, ws[..n])) + c
            && AddsProduct(Weighted(OverallTerms(ms, ws)), Weighted(OverallTerms(ms, ws[..n])), c,
                           StreamScore(ms, ws[n]))
  {
    var last := Term(ws[n].weight as real, StreamScore(ms, ws[n]));
    OverallTermsSnoc(ms, ws, n);
    SumsSnoc(OverallTerms(ms, ws[..n]), last);
  }

  lemma GlobalSumsAdd(ms: seq<Milestone>, ws: seq<Workstream>, n: nat, dw: map<Dimension, int>)
    requires |ws| == n + 1 && AllScored(ms, ws[n].id) && Covered(dw)
    ensures AddsProduct(Weighted(FourTerms(dw, GlobalSums(ms, ws))), Weighted(FourTerms(dw, GlobalSums(ms, ws[..n]))),
                        ws[n].weight as real, Weighted(FourTerms(dw, Locals(ms, ws[n].id))))
  {
    GlobalSumsStep(ms, ws, n);
    FourLinear(dw, GlobalSums(ms, ws[..n]), ws[n].weight as real, Locals(ms, ws[n].id));
  }

  ghost predicate Interchanged(ms: seq<Milestone>, ws: seq<Workstream>, dw: map<Dimension, int>, t: real)
    requires Covered(dw)
  {
    ProductIs(Weighted(OverallTerms(ms, ws)), t, Weighted(FourTerms(dw, GlobalSums(ms, ws))))
  }

  lemma InterchangeSnoc(ms: seq<Milestone>, ws: seq<Workstream>, n: nat, dw: map<Dimension, int>, t: real)
    requires Uniform(ms, ws, dw) && |ws| == n + 1 && t > 0.0
    requires t == Weight(FourTerms(dw, Locals(ms, ws[n].id)))
    requires Interchanged(ms, ws[..n], dw, t)
    ensures Interchanged(ms, ws, dw, t)
  {
    var s, v := StreamScore(ms, ws[n]), Weighted(FourTerms(dw, Locals(ms, ws[n].id)));
    UniformStream(ms, ws, ws[n], dw);
    assert QuotientIs(s, v, t);
    OverallSumsStep(ms, ws, n);
    GlobalSumsAdd(ms, ws, n, dw);
    InterchangeStep(Weighted(OverallTerms(ms, ws)), Weighted(OverallTerms(ms, ws[..n])), ws[n].weight as real, s, v, t,
                    Weighted(FourTerms(dw, GlobalSums(ms, ws[..n]))), Weighted(FourTerms(dw, GlobalSums(ms, ws))));
  }

  /** The double sum, taken by workstream or by dimension. */
  lemma {:induction false} SumsInterchange(ms: seq<Milestone>, ws: seq<Workstream>, dw: map<Dimension, int>, t: real)
    requires Uniform(ms, ws, dw) && t > 0.0 && forall x :: Weight(FourTerms(dw, x)) == t
    ensures Interchanged(ms, ws, dw, t)
  {
    if ws == [] {
      FourSums(FourTerms(dw, GlobalSums(ms, ws)));
    } else {
      var n := |ws| - 1;
      SumsInterchange(ms, ws[..n], dw, t);
      InterchangeSnoc(ms, ws, n, dw, t);
    }
  }

  lemma {:induction false} GlobalWeights(ms: seq<Milestone>, ws: seq<Workstream>, d: Dimension)
    requires forall w | w in ws :: AllScored(ms, w.id)
    ensures Weight(GlobalTerms(ms, ws, d)) == Weight(OverallTerms(ms, ws))
  {
    if ws != [] {
      var n := |ws| - 1;
      GlobalWeights(ms, ws[..n], d);
      assert ws[..n + 1] == ws;
      GlobalSumsSnoc(ms, ws, n, d);
      OverallSumsStep(ms, ws, n);
    }
  }

  /** With shared dimension weights and every dimension scored everywhere, the overall score is the
      dimension-weighted mean of the four global dimension scores. */
  lemma OverallIsMeanOfDimensions(ms: seq<Milestone>, ws: seq<Workstream>, dw: map<Dimension, int>)
    requires ValidWeights(ms, ws) && Uniform(ms, ws, dw)
    ensures OverallScore(ms, ws) == Mean(FourTerms(dw, Globals(ms, ws)))
  {
    var t := Weight(FourTerms(dw, Globals(ms, ws)));
    forall x ensures Weight(FourTerms(dw, x)) == t && t > 0.0 { FourWeight(dw, x, Globals(ms, ws)); }
    SumsInterchange(ms, ws, dw, t);
    var terms := OverallTerms(ms, ws);
    assert forall i | 0 <= i < |ws| :: ws[i] in ws;
    PositiveTotal(terms);
    forall d ensures Weight(GlobalTerms(ms, ws, d)) == Weight(terms) { GlobalWeights(ms, ws, d); }
    DivideBoth(ms, ws, dw, t, Weight(terms));
  }

  lemma DivideBoth(ms: seq<Milestone>, ws: seq<Workstream>, dw: map<Dimension, int>, t: real, u: real)
    requires Covered(dw) && t > 0.0 && u > 0.0 && Interchanged(ms, ws, dw, t)
    requires u == Weight(OverallTerms(ms, ws)) && forall d :: Weight(GlobalTerms(ms, ws, d)) == u
    requires t == Weight(FourTerms(dw, Globals(ms, ws)))
    ensures OverallScore(ms, ws) == Mean(FourTerms(dw, Globals(ms, ws)))
  {
    assert Globals(ms, ws) == Divided(GlobalSums(ms, ws), u);
    var sum := Weighted(FourTerms(dw, GlobalSums(ms, ws)));
    assert QuotientIs(Weighted(FourTerms(dw, Globals(ms, ws))), sum, u) by { FourQuotient(dw, GlobalSums(ms, ws), u); }
    SwapQuotients(Weighted(OverallTerms(ms, ws)), sum, t, u, Weighted(FourTerms(dw, Globals(ms, ws))));
  }
}
