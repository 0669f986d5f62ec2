/** The append-only assessment history of a milestone, as the validator accepts it. */
module History {
  import opened Ordering
  import opened Text
  import opened Scoring

  /** One dated assessment. `reason` and `evidence` say whether the text and the references are there. */
  datatype Event = Event(
    date: string, research: string, outcome: Option<string>,
    implementation: string, effectiveness: string, readiness: string,
    reassessment: bool, reason: bool, evidence: bool)

  /** The milestone's current record. */
  datatype Current = Current(
    research: string, outcome: Option<string>, implementation: string, effectiveness: string, readiness: string)

  const OUTCOMES: set<string> := {"positive", "negative", "inconclusive", "infeasible", "superseded", "blocked"}

  const CONCLUDED := "research_concluded"

  // ---------- dates ----------

  /** `\d{4}-\d{2}-\d{2}`. */
  predicate IsoShape(s: string) {
    |s| == 10 && s[4] == '-' && s[7] == '-' &&
    forall i | 0 <= i < 10 && i != 4 && i != 7 :: IsDigit(s[i])
  }

  function Year(s: string): nat
    requires IsoShape(s)
  {
    1000 * DigitValue(s[0]) + 100 * DigitValue(s[1]) + 10 * DigitValue(s[2]) + DigitValue(s[3])
  }

  function Month(s: string): nat
    requires IsoShape(s)
  {
    10 * DigitValue(s[5]) + DigitValue(s[6])
  }

  function Day(s: string): nat
    requires IsoShape(s)
  {
    10 * DigitValue(s[8]) + DigitValue(s[9])
  }

  predicate Leap(y: nat) { y % 4 == 0 && (y % 100 != 0 || y % 400 == 0) }

  function DaysIn(y: nat, m: nat): nat {
    if m == 2 then (if Leap(y) then 29 else 28)
    else if m in {4, 6, 9, 11} then 30
    else 31
  }

  /** `date.fromisoformat` accepts the date. */
  predicate CalendarDate(s: string) {
    IsoShape(s) && Year(s) >= 1 && 1 <= Month(s) <= 12 && 1 <= Day(s) <= DaysIn(Year(s), Month(s))
  }

  predicate Earlier(s: string, t: string)
    requires IsoShape(s) && IsoShape(t)
  {
    Year(s) < Year(t) || (Year(s) == Year(t) && (Month(s) < Month(t) || (Month(s) == Month(t) && Day(s) < Day(t))))
  }

  /** String order is decided at the first difference. */
  lemma {:induction false} LessAt(s: string, t: string, n: nat)
    requires |s| == |t| && n <= |s| && s[..n] == t[..n]
    ensures StrLess(s, t) <==> StrLess(s[n..], t[n..])
  {
    if n > 0 {
      assert s[0] == s[..n][0] == t[..n][0] == t[0];
      assert s[1..][..n - 1] == s[..n][1..] && t[1..][..n - 1] == t[..n][1..];
      LessAt(s[1..], t[1..], n - 1);
      assert s[1..][n - 1..] == s[n..] && t[1..][n - 1..] == t[n..];
    } else {
      assert s[0..] == s && t[0..] == t;
    }
  }

  /** Comparing two dates as strings compares them as dates. */
  lemma DateOrder(s: string, t: string)
    requires IsoShape(s) && IsoShape(t)
    ensures StrLess(s, t) <==> Earlier(s, t)
  {
    if s == t {
      StrLessTotal();
    } else {
      var n := FirstDifference(s, t, 0);
      LessAt(s, t, n);
      assert s[n..][0] == s[n] && t[n..][0] == t[n];
      assert forall i | 0 <= i < n :: s[i] == s[..n][i] == t[..n][i] == t[i];
      assert DigitValue(s[n]) < DigitValue(t[n]) <==> s[n] < t[n];
    }
  }

  lemma {:induction false} FirstDifference(s: string, t: string, k: nat) returns (n: nat)
    requires IsoShape(s) && IsoShape(t) && s != t && k <= 10 && s[..k] == t[..k]
    ensures k <= n < 10 && s[..n] == t[..n] && s[n] != t[n] && n != 4 && n != 7
    decreases 10 - k
  {
    assert s[..10] == s && t[..10] == t;
    if k == 10 {
      assert false;
    } else if s[k] != t[k] {
      n := k;
    } else {
      assert s[..k + 1] == s[..k] + [s[k]] && t[..k + 1] == t[..k] + [t[k]];
      n := FirstDifference(s, t, k + 1);
    }
  }

  // ---------- what the validator accepts ----------

  predicate EventValid(e: Event) {
    && e.research in RESEARCH_SCORES && e.implementation in IMPLEMENTATION_SCORES
    && e.effectiveness in EFFECTIVENESS_SCORES && e.readiness in READINESS_SCORES
    && (e.outcome.Some? ==> e.outcome.value in OUTCOMES)
    && (e.research == CONCLUDED <==> e.outcome.Some?)
    && CalendarDate(e.date)
  }

  /** A reassessment with a reason and evidence may lower a score ... */
  predicate MayLower(e: Event) { e.reassessment && e.reason && e.evidence }

  /** ... but a reason alone may change a concluded outcome. */
  predicate MayReopen(e: Event) { e.reassessment && e.reason }

  predicate Falls(scores: map<string, real>, before: string, after: string) {
    before in scores && after in scores && scores[after] < scores[before]
  }

  predicate AnyFalls(previous: Event, e: Event) {
    || Falls(RESEARCH_SCORES, previous.research, e.research)
    || Falls(IMPLEMENTATION_SCORES, previous.implementation, e.implementation)
    || Falls(READINESS_SCORES, previous.readiness, e.readiness)
  }

  predicate StepValid(previous: Event, e: Event) {
    && !StrLess(e.date, previous.date)
    && (AnyFalls(previous, e) ==> MayLower(e))
    && (previous.outcome.Some? && previous.outcome != e.outcome ==> MayReopen(e))
  }

  function Snapshot(e: Event): Current {
    Current(e.research, e.outcome, e.implementation, e.effectiveness, e.readiness)
  }

  predicate ReadinessBacked(c: Current) {
    c.readiness == "integrated_main" ==>
      c.implementation in IMPLEMENTATION_SCORES &&
      IMPLEMENTATION_SCORES[c.implementation] >= IMPLEMENTATION_SCORES["integrated"]
  }

  ghost predicate Accepted(history: seq<Event>, current: Current) {
    && history != []
    && (forall e | e in history :: EventValid(e))
    && (forall i | 0 < i < |history| :: StepValid(history[i - 1], history[i]))
    && Snapshot(history[|history| - 1]) == current
    && ReadinessBacked(current)
  }

  datatype Field = ResearchStatus | ResearchOutcome | ImplementationStatus | EffectivenessStatus | ReadinessStatus

  datatype HistoryError =
    | NoHistory | DatesOutOfOrder | BadStatus(field: Field) | BadOutcome | Unpaired | BadDate
    | Regressed(field: Field) | OutcomeChanged | Differs(field: Field) | ReadinessUnbacked

  predicate KnownStatus(e: Event, field: Field) {
    match field
    case ResearchStatus => e.research in RESEARCH_SCORES
    case ImplementationStatus => e.implementation in IMPLEMENTATION_SCORES
    case EffectivenessStatus => e.effectiveness in EFFECTIVENESS_SCORES
    case ReadinessStatus => e.readiness in READINESS_SCORES
    case ResearchOutcome => true
  }

  predicate FieldFalls(previous: Event, e: Event, field: Field) {
    match field
    case ResearchStatus => Falls(RESEARCH_SCORES, previous.research, e.research)
    case ImplementationStatus => Falls(IMPLEMENTATION_SCORES, previous.implementation, e.implementation)
    case ReadinessStatus => Falls(READINESS_SCORES, previous.readiness, e.readiness)
    case _ => false
  }

  predicate SameField(a: Current, b: Current, field: Field) {
    match field
    case ResearchStatus => a.research == b.research
    case ResearchOutcome => a.outcome == b.outcome
    case ImplementationStatus => a.implementation == b.implementation
    case EffectivenessStatus => a.effectiveness == b.effectiveness
    case ReadinessStatus => a.readiness == b.readiness
  }

  /** What is wrong with one event on its own. */
  ghost predicate EventFault(e: Event, x: HistoryError) {
    || (x.BadStatus? && !KnownStatus(e, x.field))
    || (x.BadOutcome? && e.outcome.Some? && e.outcome.value !in OUTCOMES)
    || (x.Unpaired? && (e.research == CONCLUDED) != e.outcome.Some?)
    || (x.BadDate? && !CalendarDate(e.date))
  }

  /** What is wrong with an event after the one before it. */
  ghost predicate StepFault(previous: Event, e: Event, x: HistoryError) {
    || (x.DatesOutOfOrder? && StrLess(e.date, previous.date))
    || (x.Regressed? && FieldFalls(previous, e, x.field) && !MayLower(e))
    || (x.OutcomeChanged? && previous.outcome.Some? && previous.outcome != e.outcome && !MayReopen(e))
  }

  /** What is wrong with the current record after the last event. */
  ghost predicate CurrentFault(last: Event, c: Current, x: HistoryError) {
    || (x.Differs? && !SameField(Snapshot(last), c, x.field))
    || (x.ReadinessUnbacked? && !ReadinessBacked(c))
  }

  ghost predicate FaultAt(history: seq<Event>, k: nat, x: HistoryError)
    requires k < |history|
  {
    EventFault(history[k], x) || (k > 0 && StepFault(history[k - 1], history[k], x))
  }

  ghost predicate FaultUpTo(history: seq<Event>, n: nat, x: HistoryError)
    requires n <= |history|
  {
    exists k: nat :: k < n && FaultAt(history, k, x)
  }

  ghost predicate HistoryFault(history: seq<Event>, current: Current, x: HistoryError) {
    if history == [] then x == NoHistory
    else FaultUpTo(history, |history|, x) || CurrentFault(history[|history| - 1], current, x)
  }

  ghost predicate NoEventFault(e: Event) { forall x :: !EventFault(e, x) }

  lemma EventFaults(e: Event)
    ensures EventValid(e) <==> NoEventFault(e)
  {
    if NoEventFault(e) {
      assert !EventFault(e, BadStatus(ResearchStatus)) && !EventFault(e, BadStatus(ImplementationStatus));
      assert !EventFault(e, BadStatus(EffectivenessStatus)) && !EventFault(e, BadStatus(ReadinessStatus));
      assert !EventFault(e, BadOutcome) && !EventFault(e, Unpaired) && !EventFault(e, BadDate);
    }
  }

  ghost predicate NoStepFault(previous: Event, e: Event) { forall x :: !StepFault(previous, e, x) }

  lemma StepFaults(previous: Event, e: Event)
    ensures StepValid(previous, e) <==> NoStepFault(previous, e)
  {
    if NoStepFault(previous, e) {
      assert !StepFault(previous, e, DatesOutOfOrder) && !StepFault(previous, e, OutcomeChanged);
      assert !StepFault(previous, e, Regressed(ResearchStatus));
      assert !StepFault(previous, e, Regressed(ImplementationStatus));
      assert !StepFault(previous, e, Regressed(ReadinessStatus));
    }
  }

  ghost predicate NoCurrentFault(last: Event, c: Current) { forall x :: !CurrentFault(last, c, x) }

  lemma CurrentFaults(last: Event, c: Current)
    ensures Snapshot(last) == c && ReadinessBacked(c) <==> NoCurrentFault(last, c)
  {
    if NoCurrentFault(last, c) {
      assert !CurrentFault(last, c, Differs(ResearchStatus)) && !CurrentFault(last, c, Differs(ResearchOutcome));
      assert !CurrentFault(last, c, Differs(ImplementationStatus));
      assert !CurrentFault(last, c, Differs(EffectivenessStatus));
      assert !CurrentFault(last, c, Differs(ReadinessStatus)) && !CurrentFault(last, c, ReadinessUnbacked);
    }
  }

  ghost predicate NoFaultAt(history: seq<Event>, k: nat)
    requires k < |history|
  {
    forall x :: !FaultAt(history, k, x)
  }

  ghost predicate ValidAt(history: seq<Event>, k: nat)
    requires k < |history|
  {
    EventValid(history[k]) && (k > 0 ==> StepValid(history[k - 1], history[k]))
  }

  lemma FaultsAt(history: seq<Event>, k: nat)
    requires k < |history|
    ensures ValidAt(history, k) <==> NoFaultAt(history, k)
  {
    var e := history[k];
    EventFaults(e);
    forall x ensures EventFault(e, x) ==> FaultAt(history, k, x) {}
    if k > 0 {
      var previous := history[k - 1];
      StepFaults(previous, e);
      forall x ensures StepFault(previous, e, x) ==> FaultAt(history, k, x) {}
    }
  }

  /** An accepted history is one without a fault. */
  lemma AcceptedMeansFaultless(history: seq<Event>, current: Current)
    ensures Accepted(history, current) <==> forall x :: !HistoryFault(history, current, x)
  {
    if history == [] {
      assert HistoryFault(history, current, NoHistory);
    } else {
      var last := history[|history| - 1];
      CurrentFaults(last, current);
      forall k: nat | k < |history| ensures ValidAt(history, k) <==> NoFaultAt(history, k) { FaultsAt(history, k); }
      assert Accepted(history, current) <==>
             (forall k: nat | k < |history| :: ValidAt(history, k)) && NoCurrentFault(last, current)
        by { AcceptedAtEveryPlace(history, current); }
      if forall x :: !HistoryFault(history, current, x) {
        forall x ensures !CurrentFault(last, current, x) { assert !HistoryFault(history, current, x); }
        forall k: nat, x | k < |history| ensures !FaultAt(history, k, x) {
          assert !HistoryFault(history, current, x) && !FaultUpTo(history, |history|, x);
        }
      } else {
        var x :| HistoryFault(history, current, x);
        if FaultUpTo(history, |history|, x) {
          var k: nat :| k < |history| && FaultAt(history, k, x);
          assert !NoFaultAt(history, k);
        }
      }
    }
  }

  lemma AcceptedAtEveryPlace(history: seq<Event>, current: Current)
    requires history != []
    ensures Accepted(history, current) <==>
            && (forall k: nat | k < |history| :: ValidAt(history, k))
            && Snapshot(history[|history| - 1]) == current && ReadinessBacked(current)
  {
    if forall k: nat | k < |history| :: ValidAt(history, k) {
      forall e | e in history ensures EventValid(e) {
        var k: nat :| k < |history| && history[k] == e;
        assert ValidAt(history, k);
      }
      forall k | 0 < k < |history| ensures StepValid(history[k - 1], history[k]) { assert ValidAt(history, k); }
    }
  }

  // ---------- acceptance in terms of the records ----------

  /** The implementation statuses that a claim of main readiness may stand on. */
  const MAIN_READY: set<string> := {"integrated", "regression_tested", "production_validated"}

  ghost predicate EventSpelledOut(e: Event) {
    && e.research in ScoreMap(Research) && e.implementation in ScoreMap(Implementation)
    && e.effectiveness in ScoreMap(Effectiveness) && e.readiness in ScoreMap(Readiness)
    && (if e.research == "research_concluded" then e.outcome.Some? && e.outcome.value in OUTCOMES
        else e.outcome.None?)
    && CalendarDate(e.date)
  }

  /** The table's value of one status is below that of another. */
  ghost predicate Below(d: Dimension, low: string, high: string) {
    low in ScoreMap(d) && high in ScoreMap(d) && ScoreMap(d)[low] < ScoreMap(d)[high]
  }

  ghost predicate SomeFall(a: Event, b: Event) {
    Below(Research, b.research, a.research) || Below(Implementation, b.implementation, a.implementation)
    || Below(Readiness, b.readiness, a.readiness)
  }

  ghost predicate StepSpelledOut(a: Event, b: Event) {
    && IsoShape(a.date) && IsoShape(b.date) && !Earlier(b.date, a.date)
    && (SomeFall(a, b) ==> b.reassessment && b.reason && b.evidence)
    && (a.outcome.Some? && b.outcome != a.outcome ==> b.reassessment && b.reason)
  }

  ghost predicate CurrentSpelledOut(last: Event, c: Current) {
    && c.research == last.research && c.outcome == last.outcome && c.implementation == last.implementation
    && c.effectiveness == last.effectiveness && c.readiness == last.readiness
    && (c.readiness == "integrated_main" ==> c.implementation in MAIN_READY)
  }

  lemma ReadyImplementations(s: string)
    requires s in IMPLEMENTATION_SCORES
    ensures IMPLEMENTATION_SCORES[s] >= IMPLEMENTATION_SCORES["integrated"] <==> s in MAIN_READY
  {
  }

  lemma EventMeans(e: Event)
    ensures EventValid(e) <==> EventSpelledOut(e)
  {
  }

  lemma StepMeans(a: Event, b: Event)
    requires IsoShape(a.date) && IsoShape(b.date)
    ensures StepValid(a, b) <==> StepSpelledOut(a, b)
  {
    DateOrder(b.date, a.date);
  }

  lemma CurrentMeans(last: Event, c: Current)
    requires EventSpelledOut(last)
    ensures Snapshot(last) == c && ReadinessBacked(c) <==> CurrentSpelledOut(last, c)
  {
    ReadyImplementations(last.implementation);
  }

  /** A history is accepted exactly when every event has known statuses, an outcome if and only if its research
      is concluded, and a date of the calendar; dates never go back; every fall of a research, implementation or
      readiness score is a reassessment with reason and evidence, and every change of a concluded outcome one with
      a reason; and the current record is the last event's, with main readiness only on an integrated
      implementation. */
  lemma AcceptedSpelledOut(history: seq<Event>, current: Current)
    ensures Accepted(history, current) <==>
            history != [] && AllSpelledOut(history) && CurrentSpelledOut(history[|history| - 1], current)
  {
    if history != [] {
      AcceptedAtEveryPlace(history, current);
      ValidEverywhere(history);
      EverythingMeans(history);
      if EventSpelledOut(history[|history| - 1]) { CurrentMeans(history[|history| - 1], current); }
    }
  }

  lemma EverythingMeans(history: seq<Event>)
    ensures (forall k | 0 <= k < |history| :: EventValid(history[k])) &&
            (forall k | 0 < k < |history| :: StepValid(history[k - 1], history[k])) <==>
            AllSpelledOut(history)
  {
    forall k | 0 <= k < |history| ensures EventValid(history[k]) <==> EventSpelledOut(history[k]) {
      EventMeans(history[k]);
    }
    forall k | 0 < k < |history| && EventSpelledOut(history[k - 1]) && EventSpelledOut(history[k])
      ensures StepValid(history[k - 1], history[k]) <==> StepSpelledOut(history[k - 1], history[k])
    {
      StepMeans(history[k - 1], history[k]);
    }
  }

  lemma ValidEverywhere(history: seq<Event>)
    ensures (forall k: nat | k < |history| :: ValidAt(history, k)) <==>
            (forall k | 0 <= k < |history| :: EventValid(history[k])) &&
            (forall k | 0 < k < |history| :: StepValid(history[k - 1], history[k]))
  {
    if forall k: nat | k < |history| :: ValidAt(history, k) {
      forall k | 0 <= k < |history| ensures EventValid(history[k]) { assert ValidAt(history, k); }
      forall k | 0 < k < |history| ensures StepValid(history[k - 1], history[k]) { assert ValidAt(history, k); }
    }
  }

  /** Main readiness stands on an integrated implementation in every accepted history, and each of the three
      such statuses is accepted while no other is. */
  lemma MainReadiness(history: seq<Event>, current: Current)
    requires Accepted(history, current) && current.readiness == "integrated_main"
    ensures current.implementation in {"integrated", "regression_tested", "production_validated"}
  {
    AcceptedSpelledOut(history, current);
  }

  lemma MainReadinessVerdict(date: string, implementation: string)
    requires CalendarDate(date) && implementation in IMPLEMENTATION_SCORES
    ensures var e := Event(date, "not_investigated", None, implementation, "not_assessed", "integrated_main",
                           false, false, false);
            Accepted([e], Snapshot(e)) <==>
            implementation in {"integrated", "regression_tested", "production_validated"}
  {
    var e := Event(date, "not_investigated", None, implementation, "not_assessed", "integrated_main",
                   false, false, false);
    AcceptedSpelledOut([e], Snapshot(e));
  }

  /** Every event and every step is as it should be. */
  ghost predicate AllSpelledOut(history: seq<Event>) {
    && (forall k | 0 <= k < |history| :: EventSpelledOut(history[k]))
    && (forall k | 0 < k < |history| :: StepSpelledOut(history[k - 1], history[k]))
  }

  lemma AllSpelledOutSnoc(history: seq<Event>, e: Event)
    requires history != []
    ensures AllSpelledOut(history + [e]) <==>
            AllSpelledOut(history) && EventSpelledOut(e) && StepSpelledOut(history[|history| - 1], e)
  {
    var all := history + [e];
    forall k | 0 <= k < |history| ensures all[k] == history[k] {}
    assert all[|history|] == e && all[|history| - 1] == history[|history| - 1];
    if AllSpelledOut(all) {
      forall k | 0 <= k < |history| ensures EventSpelledOut(history[k]) { assert EventSpelledOut(all[k]); }
      forall k | 0 < k < |history| ensures StepSpelledOut(history[k - 1], history[k]) {
        assert StepSpelledOut(all[k - 1], all[k]);
      }
    }
  }

  /** One more event on an accepted history. */
  lemma AcceptedNext(history: seq<Event>, e: Event)
    requires history != [] && Accepted(history, Snapshot(history[|history| - 1]))
    ensures Accepted(history + [e], Snapshot(e)) <==>
            EventSpelledOut(e) && StepSpelledOut(history[|history| - 1], e) && CurrentSpelledOut(e, Snapshot(e))
  {
    AcceptedSpelledOut(history, Snapshot(history[|history| - 1]));
    AcceptedSpelledOut(history + [e], Snapshot(e));
    AllSpelledOutSnoc(history, e);
  }

  /** The event declared a reassessment with reason and evidence. */
  function Reassessed(e: Event): Event { e.(reassessment := true, reason := true, evidence := true) }

  /** A fall that would pass as a full reassessment passes exactly when reassessment, reason and evidence are
      all there; a changed outcome without a fall, exactly when reassessment and reason are. */
  lemma ReassessmentVerdict(history: seq<Event>, e: Event)
    requires history != [] && Accepted(history, Snapshot(history[|history| - 1]))
    requires Accepted(history + [Reassessed(e)], Snapshot(e))
    ensures var last := history[|history| - 1];
            Accepted(history + [e], Snapshot(e)) <==>
              if SomeFall(last, e) then e.reassessment && e.reason && e.evidence
              else last.outcome.Some? && e.outcome != last.outcome ==> e.reassessment && e.reason
  {
    AcceptedNext(history, e);
    AcceptedNext(history, Reassessed(e));
  }

  /** A history whose second event lowers readiness: none of the three may be missing. */
  lemma FallVerdict(date: string, reassessment: bool, reason: bool, evidence: bool)
    requires CalendarDate(date)
    ensures var high := Event(date, "not_investigated", None, "integrated", "not_assessed", "release_validated",
                              false, false, false);
            var low := Event(date, "not_investigated", None, "integrated", "not_assessed", "ci_validated",
                             reassessment, reason, evidence);
            Accepted([high, low], Snapshot(low)) <==> reassessment && reason && evidence
  {
    var high := Event(date, "not_investigated", None, "integrated", "not_assessed", "release_validated",
                      false, false, false);
    var low := Event(date, "not_investigated", None, "integrated", "not_assessed", "ci_validated",
                     reassessment, reason, evidence);
    AcceptedSpelledOut([high], Snapshot(high));
    AcceptedNext([high], low);
    assert [high] + [low] == [high, low];
  }

  /** A history whose second event changes the outcome: reassessment and reason are needed, evidence is not. */
  lemma OutcomeVerdict(date: string, reassessment: bool, reason: bool, evidence: bool)
    requires CalendarDate(date)
    ensures var first := Event(date, CONCLUDED, Some("positive"), "not_implemented", "not_assessed", "not_assessed",
                               false, false, false);
            var second := Event(date, CONCLUDED, Some("negative"), "not_implemented", "not_assessed", "not_assessed",
                                reassessment, reason, evidence);
            Accepted([first, second], Snapshot(second)) <==> reassessment && reason
  {
    var first := Event(date, CONCLUDED, Some("positive"), "not_implemented", "not_assessed", "not_assessed",
                       false, false, false);
    var second := Event(date, CONCLUDED, Some("negative"), "not_implemented", "not_assessed", "not_assessed",
                        reassessment, reason, evidence);
    AcceptedSpelledOut([first], Snapshot(first));
    AcceptedNext([first], second);
    assert [first] + [second] == [first, second];
  }

  // ---------- the faults in terms of the records ----------

  /** What one event lacks on its own. */
  lemma EventFaultsSpelledOut(e: Event)
    ensures EventFault(e, BadStatus(ResearchStatus)) <==> e.research !in ScoreMap(Research)
    ensures EventFault(e, BadStatus(ImplementationStatus)) <==> e.implementation !in ScoreMap(Implementation)
    ensures EventFault(e, BadStatus(EffectivenessStatus)) <==> e.effectiveness !in ScoreMap(Effectiveness)
    ensures EventFault(e, BadStatus(ReadinessStatus)) <==> e.readiness !in ScoreMap(Readiness)
    ensures EventFault(e, BadOutcome) <==> e.outcome.Some? && e.outcome.value !in OUTCOMES
    ensures EventFault(e, Unpaired) <==> (e.research == "research_concluded") != e.outcome.Some?
    ensures EventFault(e, BadDate) <==> !CalendarDate(e.date)
    ensures forall x | EventFault(e, x) :: x.BadStatus? || x.BadOutcome? || x.Unpaired? || x.BadDate?
    ensures !EventFault(e, BadStatus(ResearchOutcome))
  {
  }

  lemma StepFaultsSpelledOut(a: Event, b: Event)
    ensures StepFault(a, b, DatesOutOfOrder) <==> StrLess(b.date, a.date)
    ensures StepFault(a, b, Regressed(ResearchStatus)) <==>
            Below(Research, b.research, a.research) && !(b.reassessment && b.reason && b.evidence)
    ensures StepFault(a, b, Regressed(ImplementationStatus)) <==>
            Below(Implementation, b.implementation, a.implementation) && !(b.reassessment && b.reason && b.evidence)
    ensures StepFault(a, b, Regressed(ReadinessStatus)) <==>
            Below(Readiness, b.readiness, a.readiness) && !(b.reassessment && b.reason && b.evidence)
    ensures StepFault(a, b, OutcomeChanged) <==>
            a.outcome.Some? && a.outcome != b.outcome && !(b.reassessment && b.reason)
    ensures forall x | StepFault(a, b, x) :: x.DatesOutOfOrder? || x.OutcomeChanged? ||
              x in {Regressed(ResearchStatus), Regressed(ImplementationStatus), Regressed(ReadinessStatus)}
  {
  }

  lemma CurrentFaultsSpelledOut(last: Event, c: Current)
    ensures CurrentFault(last, c, Differs(ResearchStatus)) <==> last.research != c.research
    ensures CurrentFault(last, c, Differs(ResearchOutcome)) <==> last.outcome != c.outcome
    ensures CurrentFault(last, c, Differs(ImplementationStatus)) <==> last.implementation != c.implementation
    ensures CurrentFault(last, c, Differs(EffectivenessStatus)) <==> last.effectiveness != c.effectiveness
    ensures CurrentFault(last, c, Differs(ReadinessStatus)) <==> last.readiness != c.readiness
    ensures CurrentFault(last, c, ReadinessUnbacked) <==>
            c.readiness == "integrated_main" && c.implementation !in MAIN_READY
    ensures forall x | CurrentFault(last, c, x) :: x.Differs? || x.ReadinessUnbacked?
  {
    if c.implementation in IMPLEMENTATION_SCORES { ReadyImplementations(c.implementation); }
  }

  lemma FaultsAre(history: seq<Event>, current: Current, x: HistoryError)
    requires history != []
    ensures HistoryFault(history, current, x) <==>
            || (exists k: nat :: k < |history| && EventFault(history[k], x))
            || (exists k: nat :: 0 < k < |history| && StepFault(history[k - 1], history[k], x))
            || CurrentFault(history[|history| - 1], current, x)
  {
    if k: nat :| k < |history| && EventFault(history[k], x) { assert FaultAt(history, k, x); }
    if k: nat :| 0 < k < |history| && StepFault(history[k - 1], history[k], x) { assert FaultAt(history, k, x); }
  }

  /** A score of the dimension falls at `k` without a full reassessment. */
  ghost predicate FallsUnexcused(history: seq<Event>, d: Dimension, k: nat)
    requires 0 < k < |history|
  {
    var a, b := Snapshot(history[k - 1]), Snapshot(history[k]);
    Below(d, StatusOf(b, d), StatusOf(a, d))
    && !(history[k].reassessment && history[k].reason && history[k].evidence)
  }

  lemma EventFaultIsReported(history: seq<Event>, current: Current, x: HistoryError)
    requires history != [] && (x.BadStatus? || x.BadOutcome? || x.Unpaired? || x.BadDate?)
    ensures HistoryFault(history, current, x) <==> exists k: nat :: k < |history| && EventFault(history[k], x)
  {
    FaultsAre(history, current, x);
  }

  lemma StepFaultIsReported(history: seq<Event>, current: Current, x: HistoryError)
    requires history != [] && (x.DatesOutOfOrder? || x.OutcomeChanged? || x.Regressed?)
    ensures HistoryFault(history, current, x) <==>
            exists k: nat :: 0 < k < |history| && StepFault(history[k - 1], history[k], x)
  {
    FaultsAre(history, current, x);
  }

  lemma CurrentFaultIsReported(history: seq<Event>, current: Current, x: HistoryError)
    requires history != [] && (x.Differs? || x.ReadinessUnbacked?)
    ensures HistoryFault(history, current, x) <==> CurrentFault(history[|history| - 1], current, x)
  {
    FaultsAre(history, current, x);
  }

  /** The reported faults of single events. */
  lemma EventFaultsReported(history: seq<Event>, current: Current, d: Dimension)
    requires history != []
    ensures HistoryFault(history, current, BadStatus(FieldOf(d))) <==>
            exists k: nat :: k < |history| && StatusOf(Snapshot(history[k]), d) !in ScoreMap(d)
    ensures HistoryFault(history, current, BadOutcome) <==>
            exists k: nat :: k < |history| && history[k].outcome.Some? && history[k].outcome.value !in OUTCOMES
    ensures HistoryFault(history, current, Unpaired) <==>
            exists k: nat :: k < |history| && (history[k].research == "research_concluded") != history[k].outcome.Some?
    ensures HistoryFault(history, current, BadDate) <==>
            exists k: nat :: k < |history| && !CalendarDate(history[k].date)
  {
    EventFaultIsReported(history, current, BadStatus(FieldOf(d)));
    EventFaultIsReported(history, current, BadOutcome);
    EventFaultIsReported(history, current, Unpaired);
    EventFaultIsReported(history, current, BadDate);
    forall k: nat | k < |history| { EventFaultsSpelledOut(history[k]); }
  }

  lemma UnexcusedFall(history: seq<Event>, d: Dimension, k: nat)
    requires 0 < k < |history| && d != Effectiveness
    ensures StepFault(history[k - 1], history[k], Regressed(FieldOf(d))) <==> FallsUnexcused(history, d, k)
  {
    StepFaultsSpelledOut(history[k - 1], history[k]);
  }

  /** The reported falls. */
  lemma FallsReported(history: seq<Event>, current: Current, d: Dimension)
    requires history != [] && d != Effectiveness
    ensures HistoryFault(history, current, Regressed(FieldOf(d))) <==>
            exists k: nat :: 0 < k < |history| && FallsUnexcused(history, d, k)
  {
    StepFaultIsReported(history, current, Regressed(FieldOf(d)));
    forall k: nat | 0 < k < |history|
      ensures StepFault(history[k - 1], history[k], Regressed(FieldOf(d))) <==> FallsUnexcused(history, d, k)
    {
      UnexcusedFall(history, d, k);
    }
  }

  /** The reported dates that go back and changed outcomes. */
  lemma StepFaultsReported(history: seq<Event>, current: Current)
    requires history != []
    ensures HistoryFault(history, current, DatesOutOfOrder) <==>
            exists k: nat :: 0 < k < |history| && StrLess(history[k].date, history[k - 1].date)
    ensures HistoryFault(history, current, OutcomeChanged) <==>
            exists k: nat :: 0 < k < |history| && history[k - 1].outcome.Some? &&
              history[k].outcome != history[k - 1].outcome && !(history[k].reassessment && history[k].reason)
  {
    StepFaultIsReported(history, current, DatesOutOfOrder);
    StepFaultIsReported(history, current, OutcomeChanged);
  }

  /** The reported faults of the current record. */
  lemma CurrentFaultsReported(history: seq<Event>, current: Current, d: Dimension)
    requires history != []
    ensures HistoryFault(history, current, ReadinessUnbacked) <==>
            current.readiness == "integrated_main" && current.implementation !in MAIN_READY
    ensures HistoryFault(history, current, Differs(FieldOf(d))) <==>
            StatusOf(Snapshot(history[|history| - 1]), d) != StatusOf(current, d)
    ensures HistoryFault(history, current, Differs(ResearchOutcome)) <==>
            history[|history| - 1].outcome != current.outcome
  {
    CurrentFaultIsReported(history, current, ReadinessUnbacked);
    CurrentFaultIsReported(history, current, Differs(FieldOf(d)));
    CurrentFaultIsReported(history, current, Differs(ResearchOutcome));
    CurrentFaultsSpelledOut(history[|history| - 1], current);
  }

  /** The field that holds the status of a dimension. */
  function FieldOf(d: Dimension): Field {
    match d
    case Research => ResearchStatus
    case Implementation => ImplementationStatus
    case Effectiveness => EffectivenessStatus
    case Readiness => ReadinessStatus
  }

  // ---------- dates as they are written ----------

  function Digit(n: nat): char
    requires n < 10
  {
    DIGITS[n]
  }

  /** `YYYY-MM-DD`, with leading zeros. */
  function DateText(y: nat, m: nat, d: nat): string
    requires y < 10000 && m < 100 && d < 100
  {
    [Digit(y / 1000), Digit(y / 100 % 10), Digit(y / 10 % 10), Digit(y % 10), '-',
     Digit(m / 10), Digit(m % 10), '-', Digit(d / 10), Digit(d % 10)]
  }

  /** The lengths of the months of a common year. */
  const MONTHS: seq<nat> := [31, 28, 31, 30, 31, 30, 31, 31, 30, 31, 30, 31]

  lemma DigitOf(n: nat)
    requires n < 10
    ensures IsDigit(Digit(n)) && DigitValue(Digit(n)) == n
  {
    DigitsInOrder(n);
  }

  lemma FourDigits(y: nat)
    requires y < 10000
    ensures y == 1000 * (y / 1000) + 100 * (y / 100 % 10) + 10 * (y / 10 % 10) + y % 10 && y / 1000 < 10
  {
    var tens, hundreds, thousands := y / 10, y / 100, y / 1000;
    LastDigit(y);
    LastDigit(tens);
    LastDigit(hundreds);
    assert tens / 10 == hundreds && hundreds / 10 == thousands;
  }

  lemma LastDigit(n: nat)
    ensures n == 10 * (n / 10) + n % 10
  {
  }

  lemma DateTextReads(y: nat, m: nat, d: nat)
    requires y < 10000 && m < 100 && d < 100
    ensures var s := DateText(y, m, d); IsoShape(s) && Year(s) == y && Month(s) == m && Day(s) == d
  {
    FourDigits(y);
    DigitOf(y / 1000);
    DigitOf(y / 100 % 10);
    DigitOf(y / 10 % 10);
    DigitOf(y % 10);
    DigitOf(m / 10);
    DigitOf(m % 10);
    DigitOf(d / 10);
    DigitOf(d % 10);
  }

  lemma LeapMeans(y: nat)
    ensures Leap(y) <==> if y % 100 == 0 then y % 400 == 0 else y % 4 == 0
  {
    if y % 100 == 0 { assert y == 4 * (25 * (y / 100)); }
    if y % 400 == 0 { assert y == 100 * (4 * (y / 400)); }
  }

  lemma MonthLengths(y: nat, m: nat)
    requires 1 <= m <= 12
    ensures DaysIn(y, m) == MONTHS[m - 1] + if m == 2 && Leap(y) then 1 else 0
  {
  }

  /** A written date is accepted exactly when the year is not zero and the month has the day; February has its
      29th in years divisible by four, but of the centuries only in those divisible by four hundred. */
  lemma DateVerdict(y: nat, m: nat, d: nat)
    requires y < 10000 && m < 100 && d < 100
    ensures CalendarDate(DateText(y, m, d)) <==>
            && y > 0 && m in {1, 2, 3, 4, 5, 6, 7, 8, 9, 10, 11, 12} && d > 0
            && (d <= MONTHS[m - 1] ||
                (m == 2 && d == 29 && if y % 100 == 0 then y % 400 == 0 else y % 4 == 0))
  {
    DateTextReads(y, m, d);
    LeapMeans(y);
    if 1 <= m <= 12 { MonthLengths(y, m); }
  }

  lemma FourBack(a: nat, b: nat, c: nat, e: nat)
    requires a < 10 && b < 10 && c < 10 && e < 10
    ensures var y := 1000 * a + 100 * b + 10 * c + e;
            y < 10000 && y / 1000 == a && y / 100 % 10 == b && y / 10 % 10 == c && y % 10 == e
  {
    var y := 1000 * a + 100 * b + 10 * c + e;
    assert y / 1000 == a && y / 100 == 10 * a + b && y / 10 == 100 * a + 10 * b + c;
  }

  lemma TwoBack(a: nat, b: nat)
    requires a < 10 && b < 10
    ensures (10 * a + b) / 10 == a && (10 * a + b) % 10 == b && 10 * a + b < 100
  {
  }

  lemma DigitBack(c: char)
    requires IsDigit(c)
    ensures DigitValue(c) < 10 && Digit(DigitValue(c)) == c
  {
    DigitOf(DigitValue(c));
  }

  lemma YearBack(s: string)
    requires IsoShape(s)
    ensures var y := Year(s);
            && y < 10000 && s[0] == Digit(y / 1000) && s[1] == Digit(y / 100 % 10)
            && s[2] == Digit(y / 10 % 10) && s[3] == Digit(y % 10)
  {
    DigitBack(s[0]);
    DigitBack(s[1]);
    DigitBack(s[2]);
    DigitBack(s[3]);
    FourBack(DigitValue(s[0]), DigitValue(s[1]), DigitValue(s[2]), DigitValue(s[3]));
  }

  lemma MonthAndDayBack(s: string)
    requires IsoShape(s)
    ensures Month(s) < 100 && s[5] == Digit(Month(s) / 10) && s[6] == Digit(Month(s) % 10)
    ensures Day(s) < 100 && s[8] == Digit(Day(s) / 10) && s[9] == Digit(Day(s) % 10)
  {
    DigitBack(s[5]);
    DigitBack(s[6]);
    DigitBack(s[8]);
    DigitBack(s[9]);
    TwoBack(DigitValue(s[5]), DigitValue(s[6]));
    TwoBack(DigitValue(s[8]), DigitValue(s[9]));
  }

  /** Text of any other shape is refused. */
  lemma DatesAreWritten(s: string)
    requires CalendarDate(s)
    ensures Year(s) < 10000 && Month(s) < 100 && Day(s) < 100 && s == DateText(Year(s), Month(s), Day(s))
  {
    YearBack(s);
    MonthAndDayBack(s);
  }

  // ---------- the report ----------

  const STATUS_CHECKS: seq<HistoryError> := [BadStatus(ResearchStatus), BadStatus(ImplementationStatus),
    BadStatus(EffectivenessStatus), BadStatus(ReadinessStatus)]

  /** The fields whose scores must not fall, and those compared with the current record. */
  const SCORED_FIELDS: seq<Field> := [ResearchStatus, ImplementationStatus, ReadinessStatus]
  const CURRENT_FIELDS: seq<Field> :=
    [ResearchStatus, ResearchOutcome, ImplementationStatus, EffectivenessStatus, ReadinessStatus]

  function Regressions(fields: seq<Field>): (r: seq<HistoryError>)
    ensures |r| == |fields| && forall i | 0 <= i < |r| :: r[i] == Regressed(fields[i])
  {
    seq(|fields|, i requires 0 <= i < |fields| => Regressed(fields[i]))
  }

  function Differences(fields: seq<Field>): (r: seq<HistoryError>)
    ensures |r| == |fields| && forall i | 0 <= i < |r| :: r[i] == Differs(fields[i])
  {
    seq(|fields|, i requires 0 <= i < |fields| => Differs(fields[i]))
  }

  /** What is looked for at each event, in order. */
  function EventChecks(): seq<HistoryError> {
    [DatesOutOfOrder] + STATUS_CHECKS + [BadOutcome, Unpaired, BadDate]
    + (Regressions(SCORED_FIELDS) + [OutcomeChanged])
  }

  function CurrentChecks(): seq<HistoryError> { Differences(CURRENT_FIELDS) + [ReadinessUnbacked] }

  ghost predicate FaultAfter(previous: Option<Event>, e: Event, x: HistoryError) {
    EventFault(e, x) || (previous.Some? && StepFault(previous.value, e, x))
  }

  ghost function Previous(history: seq<Event>, k: nat): Option<Event>
    requires k < |history|
  {
    if k == 0 then None else Some(history[k - 1])
  }

  ghost function EventReport(previous: Option<Event>, e: Event): seq<HistoryError> {
    Keep(x => FaultAfter(previous, e, x), EventChecks())
  }

  ghost function EventReports(history: seq<Event>, n: nat): seq<HistoryError>
    requires n <= |history|
  {
    if n == 0 then [] else EventReports(history, n - 1) + EventReport(Previous(history, n - 1), history[n - 1])
  }

  ghost function CurrentReport(last: Event, c: Current): seq<HistoryError> {
    Keep(x => CurrentFault(last, c, x), CurrentChecks())
  }

  /** The faults of each event in turn, then those of the current record, each in the order looked for. */
  ghost function Report(history: seq<Event>, current: Current): seq<HistoryError> {
    if history == [] then [NoHistory]
    else EventReports(history, |history|) + CurrentReport(history[|history| - 1], current)
  }

  lemma EventFaultIsLookedFor(previous: Option<Event>, e: Event, x: HistoryError)
    requires FaultAfter(previous, e, x)
    ensures x in EventChecks()
  {
    var checks := EventChecks();
    assert checks[0] == DatesOutOfOrder && checks[1..5] == STATUS_CHECKS;
    assert checks[5..8] == [BadOutcome, Unpaired, BadDate];
    assert checks[8..11] == Regressions(SCORED_FIELDS) && checks[11] == OutcomeChanged;
    match x
    case BadStatus(ResearchStatus) => assert STATUS_CHECKS[0] == x;
    case BadStatus(ImplementationStatus) => assert STATUS_CHECKS[1] == x;
    case BadStatus(EffectivenessStatus) => assert STATUS_CHECKS[2] == x;
    case BadStatus(ReadinessStatus) => assert STATUS_CHECKS[3] == x;
    case Regressed(ResearchStatus) => assert Regressions(SCORED_FIELDS)[0] == x;
    case Regressed(ImplementationStatus) => assert Regressions(SCORED_FIELDS)[1] == x;
    case Regressed(ReadinessStatus) => assert Regressions(SCORED_FIELDS)[2] == x;
    case _ =>
  }

  lemma CurrentFaultIsLookedFor(last: Event, c: Current, x: HistoryError)
    requires CurrentFault(last, c, x)
    ensures x in CurrentChecks()
  {
    var checks := CurrentChecks();
    assert checks[..5] == Differences(CURRENT_FIELDS) && checks[5] == ReadinessUnbacked;
    match x
    case Differs(ResearchStatus) => assert checks[0] == x;
    case Differs(ResearchOutcome) => assert checks[1] == x;
    case Differs(ImplementationStatus) => assert checks[2] == x;
    case Differs(EffectivenessStatus) => assert checks[3] == x;
    case Differs(ReadinessStatus) => assert checks[4] == x;
    case _ =>
  }

  lemma {:induction false} EventReportsAreFaults(history: seq<Event>, n: nat)
    requires n <= |history|
    ensures forall x :: x in EventReports(history, n) <==> FaultUpTo(history, n, x)
  {
    if n > 0 {
      EventReportsAreFaults(history, n - 1);
      var previous, e := Previous(history, n - 1), history[n - 1];
      KeepMembers(x => FaultAfter(previous, e, x), EventChecks());
      forall x ensures x in EventReport(previous, e) <==> FaultAt(history, n - 1, x) {
        if FaultAfter(previous, e, x) { EventFaultIsLookedFor(previous, e, x); }
      }
      FaultUpToNext(history, n);
    }
  }

  lemma FaultUpToNext(history: seq<Event>, n: nat)
    requires 0 < n <= |history|
    ensures forall x :: FaultUpTo(history, n, x) <==> FaultUpTo(history, n - 1, x) || FaultAt(history, n - 1, x)
  {
  }

  /** The report lists exactly the faults. */
  lemma ReportIsFaults(history: seq<Event>, current: Current)
    ensures forall x :: x in Report(history, current) <==> HistoryFault(history, current, x)
  {
    if history != [] {
      var last := history[|history| - 1];
      EventReportsAreFaults(history, |history|);
      KeepMembers(x => CurrentFault(last, current, x), CurrentChecks());
      forall x ensures x in CurrentReport(last, current) <==> CurrentFault(last, current, x) {
        if CurrentFault(last, current, x) { CurrentFaultIsLookedFor(last, current, x); }
      }
    }
  }

  // ---------- the checks ----------

  /** The property of being a fault of this event. */
  ghost predicate Finds(p: HistoryError -> bool, previous: Option<Event>, e: Event) {
    forall x :: p(x) <==> FaultAfter(previous, e, x)
  }

  method CheckStatuses(ghost previous: Option<Event>, e: Event, ghost p: HistoryError -> bool)
    returns (errors: seq<HistoryError>)
    requires Finds(p, previous, e)
    ensures errors == Keep(p, STATUS_CHECKS)
  {
    errors := Flag(e.research !in RESEARCH_SCORES, BadStatus(ResearchStatus));
    errors := errors + Flag(e.implementation !in IMPLEMENTATION_SCORES, BadStatus(ImplementationStatus));
    errors := errors + Flag(e.effectiveness !in EFFECTIVENESS_SCORES, BadStatus(EffectivenessStatus));
    KeepThree(p, BadStatus(ResearchStatus), BadStatus(ImplementationStatus), BadStatus(EffectivenessStatus));
    KeepSnoc(p, [BadStatus(ResearchStatus), BadStatus(ImplementationStatus), BadStatus(EffectivenessStatus)],
             BadStatus(ReadinessStatus));
    errors := errors + Flag(e.readiness !in READINESS_SCORES, BadStatus(ReadinessStatus));
    assert [BadStatus(ResearchStatus), BadStatus(ImplementationStatus), BadStatus(EffectivenessStatus)]
      + [BadStatus(ReadinessStatus)] == STATUS_CHECKS;
  }

  method CheckOutcomeAndDate(ghost previous: Option<Event>, e: Event, ghost p: HistoryError -> bool)
    returns (errors: seq<HistoryError>)
    requires Finds(p, previous, e)
    ensures errors == Keep(p, [BadOutcome, Unpaired, BadDate])
  {
    var bad := e.outcome.Some? && e.outcome.value !in OUTCOMES;
    errors := Flag(bad, BadOutcome) + Flag((e.research == CONCLUDED) != e.outcome.Some?, Unpaired)
              + Flag(!CalendarDate(e.date), BadDate);
    KeepThree(p, BadOutcome, Unpaired, BadDate);
  }

  method CheckRegressions(previous: Option<Event>, e: Event, ghost p: HistoryError -> bool)
    returns (errors: seq<HistoryError>)
    requires Finds(p, previous, e)
    ensures errors == Keep(p, Regressions(SCORED_FIELDS))
  {
    errors := [];
    ghost var checks := Regressions(SCORED_FIELDS);
    for i := 0 to |SCORED_FIELDS|
      invariant errors == Keep(p, checks[..i])
    {
      var field := SCORED_FIELDS[i];
      KeepNext(p, checks, i);
      if previous.Some? && FieldFalls(previous.value, e, field) && !MayLower(e) {
        errors := errors + [Regressed(field)];
      }
    }
    assert checks[..|checks|] == checks;
  }

  /** The body of the loop over events. */
  method CheckEvent(previous: Option<Event>, e: Event) returns (errors: seq<HistoryError>)
    ensures errors == EventReport(previous, e)
  {
    ghost var p := (x: HistoryError) => FaultAfter(previous, e, x);
    assert Finds(p, previous, e);
    var early := previous.Some? && StrLess(e.date, previous.value.date);
    var statuses := CheckStatuses(previous, e, p);
    var rest := CheckOutcomeAndDate(previous, e, p);
    var regressions := CheckRegressions(previous, e, p);
    var changed := previous.Some? && previous.value.outcome != e.outcome && previous.value.outcome.Some?
                   && !MayReopen(e);
    EventReportParts(previous, e, p);
    OuterFaults(previous, e);
    errors := Flag(early, DatesOutOfOrder) + statuses + rest + (regressions + Flag(changed, OutcomeChanged));
  }

  lemma OuterFaults(previous: Option<Event>, e: Event)
    ensures FaultAfter(previous, e, DatesOutOfOrder) == (previous.Some? && StrLess(e.date, previous.value.date))
    ensures FaultAfter(previous, e, OutcomeChanged) ==
            (previous.Some? && previous.value.outcome != e.outcome && previous.value.outcome.Some? && !MayReopen(e))
  {
  }

  lemma EventReportParts(previous: Option<Event>, e: Event, p: HistoryError -> bool)
    requires Finds(p, previous, e)
    ensures EventReport(previous, e) ==
            Flag(FaultAfter(previous, e, DatesOutOfOrder), DatesOutOfOrder) + Keep(p, STATUS_CHECKS)
            + Keep(p, [BadOutcome, Unpaired, BadDate])
            + (Keep(p, Regressions(SCORED_FIELDS)) + Flag(FaultAfter(previous, e, OutcomeChanged), OutcomeChanged))
  {
    KeepParts(p, DatesOutOfOrder, STATUS_CHECKS, [BadOutcome, Unpaired, BadDate], Regressions(SCORED_FIELDS),
              OutcomeChanged);
    KeepAgrees(p, x => FaultAfter(previous, e, x), EventChecks());
  }

  lemma KeepParts<T>(p: T -> bool, x: T, a: seq<T>, b: seq<T>, c: seq<T>, y: T)
    ensures Keep(p, [x] + a + b + (c + [y])) ==
            Flag(p(x), x) + Keep(p, a) + Keep(p, b) + (Keep(p, c) + Flag(p(y), y))
  {
    KeepAppend(p, [x] + a + b, c + [y]);
    KeepAppend(p, [x] + a, b);
    KeepAppend(p, [x], a);
    KeepSnoc(p, [], x);
    KeepSnoc(p, c, y);
    assert [] + [x] == [x];
  }

  method CheckCurrent(last: Event, c: Current) returns (errors: seq<HistoryError>)
    ensures errors == CurrentReport(last, c)
  {
    ghost var p := (x: HistoryError) => CurrentFault(last, c, x);
    ghost var checks := Differences(CURRENT_FIELDS);
    errors := [];
    for i := 0 to |CURRENT_FIELDS|
      invariant errors == Keep(p, checks[..i])
    {
      KeepNext(p, checks, i);
      if !SameField(Snapshot(last), c, CURRENT_FIELDS[i]) { errors := errors + [Differs(CURRENT_FIELDS[i])]; }
    }
    assert checks[..|checks|] == checks;
    errors := errors + Flag(!ReadinessBacked(c), ReadinessUnbacked);
    KeepSnoc(p, checks, ReadinessUnbacked);
    KeepAgrees(p, x => CurrentFault(last, c, x), CurrentChecks());
  }

  /** The history loop and the comparison with the current record: the report, which is empty exactly on
      accepted histories. */
  method ValidateHistory(history: seq<Event>, current: Current) returns (errors: seq<HistoryError>)
    ensures errors == Report(history, current)
    ensures errors == [] <==> Accepted(history, current)
  {
    AcceptedMeansFaultless(history, current);
    ReportIsFaults(history, current);
    if history == [] {
      errors := [NoHistory];
      return;
    }
    errors := [];
    var previous: Option<Event> := None;
    for i := 0 to |history|
      invariant previous == if i == 0 then None else Some(history[i - 1])
      invariant errors == EventReports(history, i)
    {
      var found := CheckEvent(previous, history[i]);
      errors := errors + found;
      previous := Some(history[i]);
    }
    var differing := CheckCurrent(previous.value, current);
    errors := errors + differing;
    assert errors != [] ==> errors[0] in errors;
  }

  // ---------- whole histories ----------

  function StatusOf(c: Current, d: Dimension): string {
    match d
    case Research => c.research
    case Implementation => c.implementation
    case Effectiveness => c.effectiveness
    case Readiness => c.readiness
  }

  /** The score a record gives a dimension. */
  function ScoreOf(c: Current, d: Dimension): real {
    if StatusOf(c, d) in ScoreMap(d) then ScoreMap(d)[StatusOf(c, d)] else 0.0
  }

  /** The scores of a dimension over a history. */
  function Series(history: seq<Event>, d: Dimension): (r: seq<real>)
    ensures |r| == |history| && forall k | 0 <= k < |r| :: r[k] == ScoreOf(Snapshot(history[k]), d)
  {
    seq(|history|, k requires 0 <= k < |history| => ScoreOf(Snapshot(history[k]), d))
  }

  lemma {:induction false} FallHasStep(s: seq<real>, i: nat, j: nat)
    requires i <= j < |s| && s[j] < s[i]
    ensures exists k :: i < k <= j && s[k] < s[k - 1]
    decreases j
  {
    if !(s[j] < s[j - 1]) { FallHasStep(s, i, j - 1); }
  }

  lemma StepFall(previous: Event, e: Event, d: Dimension)
    requires EventValid(previous) && EventValid(e) && StepValid(previous, e) && d != Effectiveness
    requires ScoreOf(Snapshot(e), d) < ScoreOf(Snapshot(previous), d)
    ensures MayLower(e)
  {
  }

  /** Between two events of an accepted history a research, implementation or readiness score is lower
      only if some event in between is a reasoned reassessment with evidence that lowered it. */
  lemma FallNeedsReassessment(history: seq<Event>, current: Current, i: nat, j: nat, d: Dimension)
    requires Accepted(history, current) && i <= j < |history| && d != Effectiveness
    requires Series(history, d)[j] < Series(history, d)[i]
    ensures exists k :: i < k <= j && history[k].reassessment && history[k].reason && history[k].evidence &&
                        Series(history, d)[k] < Series(history, d)[k - 1]
  {
    FallHasStep(Series(history, d), i, j);
    var k :| i < k <= j && Series(history, d)[k] < Series(history, d)[k - 1];
    StepFall(history[k - 1], history[k], d);
  }

  /** A concluded outcome changes only at a reasoned reassessment. */
  lemma {:induction false} OutcomeChangeNeedsReason(history: seq<Event>, current: Current, i: nat, j: nat)
    requires Accepted(history, current) && i <= j < |history|
    requires history[i].outcome.Some? && history[j].outcome != history[i].outcome
    ensures exists k :: i < k <= j && history[k].reassessment && history[k].reason &&
                        history[k].outcome != history[k - 1].outcome
    decreases j
  {
    assert StepValid(history[j - 1], history[j]);
    if history[j - 1].outcome != history[i].outcome {
      OutcomeChangeNeedsReason(history, current, i, j - 1);
    }
  }

  ghost predicate NoReassessmentAfter(history: seq<Event>, i: nat, j: nat) {
    forall k | i < k <= j && k < |history| :: !history[k].reassessment
  }

  /** With no reassessment after the first of two events nothing falls, and a concluded status stays
      concluded with the same outcome. */
  lemma HistoryNeverFalls(history: seq<Event>, current: Current, i: nat, j: nat)
    requires Accepted(history, current) && i <= j < |history| && NoReassessmentAfter(history, i, j)
    ensures forall d | d != Effectiveness :: Series(history, d)[i] <= Series(history, d)[j]
    ensures history[i].research == CONCLUDED ==>
              history[j].research == CONCLUDED && history[j].outcome == history[i].outcome
  {
    forall d | d != Effectiveness ensures Series(history, d)[i] <= Series(history, d)[j] {
      if Series(history, d)[j] < Series(history, d)[i] { FallNeedsReassessment(history, current, i, j, d); }
    }
    assert EventValid(history[i]) && EventValid(history[j]);
    if history[i].research == CONCLUDED {
      if history[j].outcome != history[i].outcome { OutcomeChangeNeedsReason(history, current, i, j); }
    }
  }

  /** The current record is at least as good as every event since the last reassessment. */
  lemma CurrentDominates(history: seq<Event>, current: Current, i: nat)
    requires Accepted(history, current) && i < |history| && NoReassessmentAfter(history, i, |history| - 1)
    ensures forall d | d != Effectiveness :: ScoreOf(Snapshot(history[i]), d) <= ScoreOf(current, d)
    ensures history[i].outcome.Some? ==> current.outcome == history[i].outcome
  {
    var last := |history| - 1;
    HistoryNeverFalls(history, current, i, last);
    assert EventValid(history[i]);
    forall d | d != Effectiveness ensures ScoreOf(Snapshot(history[i]), d) <= ScoreOf(current, d) {
      assert Series(history, d)[i] <= Series(history, d)[last];
    }
  }

  /** Dates never go back. */
  lemma {:induction false} DatesNeverGoBack(history: seq<Event>, current: Current, i: nat, j: nat)
    requires Accepted(history, current) && i <= j < |history|
    ensures IsoShape(history[i].date) && IsoShape(history[j].date) && !Earlier(history[j].date, history[i].date)
    decreases j
  {
    assert EventValid(history[i]) && EventValid(history[j]);
    if i < j {
      DatesNeverGoBack(history, current, i, j - 1);
      assert StepValid(history[j - 1], history[j]);
      DateOrder(history[j].date, history[j - 1].date);
    }
  }

  /** The same assessment but for its effectiveness, which both hold to be a known status. */
  predicate Rerated(a: Event, b: Event) {
    && b == a.(effectiveness := b.effectiveness)
    && a.effectiveness in EFFECTIVENESS_SCORES && b.effectiveness in EFFECTIVENESS_SCORES
  }

  ghost predicate AllRerated(a: seq<Event>, b: seq<Event>) {
    |a| == |b| && forall i | 0 <= i < |a| :: Rerated(a[i], b[i])
  }

  lemma RerateEvents(a: Event, b: Event, a': Event, b': Event)
    requires Rerated(a, b) && Rerated(a', b')
    ensures EventValid(a) <==> EventValid(b)
    ensures StepValid(a, a') <==> StepValid(b, b')
  {
  }

  lemma RerateKeeps(a: seq<Event>, b: seq<Event>, current: Current)
    requires AllRerated(a, b) && Accepted(a, current)
    ensures Accepted(b, Snapshot(b[|b| - 1]))
  {
    forall i: nat | i < |b| ensures ValidAt(b, i) {
      AcceptedAtEveryPlace(a, current);
      assert ValidAt(a, i);
      RerateEvents(a[i], b[i], a[i], b[i]);
      if i > 0 { RerateEvents(a[i - 1], b[i - 1], a[i], b[i]); }
    }
    AcceptedAtEveryPlace(b, Snapshot(b[|b| - 1]));
  }

  /** Acceptance does not depend on effectiveness: histories that differ in nothing else, with known statuses,
      are accepted alike, each with its own last record. */
  lemma EffectivenessIsFree(a: seq<Event>, b: seq<Event>)
    requires AllRerated(a, b) && a != []
    ensures Accepted(a, Snapshot(a[|a| - 1])) <==> Accepted(b, Snapshot(b[|b| - 1]))
  {
    if Accepted(a, Snapshot(a[|a| - 1])) { RerateKeeps(a, b, Snapshot(a[|a| - 1])); }
    if Accepted(b, Snapshot(b[|b| - 1])) {
      forall i | 0 <= i < |b| ensures Rerated(b[i], a[i]) { assert Rerated(a[i], b[i]); }
      RerateKeeps(b, a, Snapshot(b[|b| - 1]));
    }
  }

  /** Effectiveness is not protected: an accepted history in which it falls without reassessment. */
  lemma EffectivenessMayFall(date: string)
    requires CalendarDate(date)
    ensures var high := Event(date, "not_investigated", None, "not_implemented", "production_validated",
                              "not_assessed", false, false, false);
            var low := high.(effectiveness := "measured_negative");
            && Accepted([high, low], Snapshot(low))
            && ScoreOf(Snapshot(low), Effectiveness) < ScoreOf(Snapshot(high), Effectiveness)
  {
    var high := Event(date, "not_investigated", None, "not_implemented", "production_validated",
                      "not_assessed", false, false, false);
    var low := high.(effectiveness := "measured_negative");
    StrLessTotal();
    assert StepValid(high, low);
    assert forall e | e in [high, low] :: e == high || e == low;
  }

  /** A concluded outcome may flip on a reason without evidence, which could not lower a score. */
  lemma OutcomeMayFlipWithoutEvidence(date: string)
    requires CalendarDate(date)
    ensures var first := Event(date, CONCLUDED, Some("positive"), "not_implemented", "not_assessed", "not_assessed",
                               false, false, false);
            var second := first.(outcome := Some("negative"), reassessment := true, reason := true);
            Accepted([first, second], Snapshot(second)) && !second.evidence
  {
    var first := Event(date, CONCLUDED, Some("positive"), "not_implemented", "not_assessed", "not_assessed",
                       false, false, false);
    var second := first.(outcome := Some("negative"), reassessment := true, reason := true);
    StrLessTotal();
    assert StepValid(first, second);
    assert forall e | e in [first, second] :: e == first || e == second;
  }
}
