/** The roadmap catalogs: their validators, the reversed edges, and the Ready/Blocked/Done board. */
module Roadmap {
  import opened Ordering
  import opened DependencyGraph

  datatype Issue = Issue(
    key: string, title: string, milestone: string, phase: string,
    priority: string, kind: string, effort: string, risk: string,
    dependencies: seq<string>, acceptance: seq<string>, tests: seq<string>,
    protocol: string, completion: string)

  function Keys(issues: seq<Issue>): (r: seq<string>)
    ensures |r| == |issues| && forall i | 0 <= i < |issues| :: r[i] == issues[i].key
  {
    seq(|issues|, i requires 0 <= i < |issues| => issues[i].key)
  }

  function Titles(issues: seq<Issue>): (r: seq<string>)
    ensures |r| == |issues| && forall i | 0 <= i < |issues| :: r[i] == issues[i].title
  {
    seq(|issues|, i requires 0 <= i < |issues| => issues[i].title)
  }

  /** Every dependency is in `base` or the key of an earlier issue. */
  ghost predicate DependsEarlier(issues: seq<Issue>, base: set<string>) {
    forall i | 0 <= i < |issues| ::
      forall d | d in issues[i].dependencies :: d in base || d in Keys(issues[..i])
  }

  // ---------- roadmap_catalog.validate_catalog: stop at the first violation ----------

  datatype LegacyError =
    | DuplicateKey(key: string)
    | UnknownMilestone(key: string)
    | UnknownPhase(key: string)
    | MissingDependencies(key: string, missing: set<string>)
    | LacksCriteria(key: string)

  ghost predicate LegacyValid(issues: seq<Issue>, milestones: set<string>, phases: set<string>) {
    && Distinct(Keys(issues))
    && DependsEarlier(issues, {})
    && forall s | s in issues ::
         s.milestone in milestones && s.phase in phases && s.acceptance != [] && s.tests != []
  }

  /** What is wrong with one issue, given the keys seen before it. */
  ghost predicate Faults(s: Issue, seen: set<string>, milestones: set<string>, phases: set<string>, e: LegacyError) {
    e.key == s.key &&
    match e
    case DuplicateKey(_) => s.key in seen
    case UnknownMilestone(_) => s.milestone !in milestones
    case UnknownPhase(_) => s.phase !in phases
    case MissingDependencies(_, missing) => missing == Elements(s.dependencies) - seen && missing != {}
    case LacksCriteria(_) => s.acceptance == [] || s.tests == []
  }

  /** The conditions on one issue, given the keys seen before it. */
  ghost predicate LegacyIssueValid(s: Issue, seen: set<string>, milestones: set<string>, phases: set<string>) {
    && s.key !in seen && s.milestone in milestones && s.phase in phases
    && (forall d | d in s.dependencies :: d in seen)
    && s.acceptance != [] && s.tests != []
  }

  lemma LegacyFaults(s: Issue, seen: set<string>, milestones: set<string>, phases: set<string>)
    ensures LegacyIssueValid(s, seen, milestones, phases) <==> forall e :: !Faults(s, seen, milestones, phases, e)
  {
    if forall e :: !Faults(s, seen, milestones, phases, e) {
      var missing := Elements(s.dependencies) - seen;
      assert !Faults(s, seen, milestones, phases, MissingDependencies(s.key, missing));
      assert !Faults(s, seen, milestones, phases, DuplicateKey(s.key));
      assert !Faults(s, seen, milestones, phases, UnknownMilestone(s.key));
      assert !Faults(s, seen, milestones, phases, UnknownPhase(s.key));
      assert !Faults(s, seen, milestones, phases, LacksCriteria(s.key));
      forall d | d in s.dependencies ensures d in seen { assert d !in missing; }
    }
  }

  lemma DependsSnoc(front: seq<Issue>, s: Issue)
    ensures DependsEarlier(front + [s], {}) <==>
            DependsEarlier(front, {}) && forall d | d in s.dependencies :: d in Keys(front)
  {
    var all, n := front + [s], |front|;
    forall j | 0 <= j <= n ensures all[..j] == front[..j] { }
    assert front[..n] == front;
    if DependsEarlier(all, {}) {
      forall j | 0 <= j < n ensures forall d | d in front[j].dependencies :: d in Keys(front[..j]) {
        assert all[j] == front[j];
      }
      assert all[n] == s;
    }
  }

  lemma LegacyValidSnoc(issues: seq<Issue>, i: nat, milestones: set<string>, phases: set<string>)
    requires i < |issues|
    ensures LegacyValid(issues[..i + 1], milestones, phases) <==>
            LegacyValid(issues[..i], milestones, phases) &&
            forall e :: !Faults(issues[i], Elements(Keys(issues[..i])), milestones, phases, e)
  {
    var front, s := issues[..i], issues[i];
    assert issues[..i + 1] == front + [s];
    KeysAppend(front, [s]);
    assert Keys([s]) == [s.key];
    DistinctSnoc(Keys(front), s.key);
    DependsSnoc(front, s);
    LegacyFaults(s, Elements(Keys(front)), milestones, phases);
    assert forall x :: x in front + [s] <==> x in front || x == s;
  }

  /** The order in which the faults of one issue are looked for. */
  function Rank(e: LegacyError): nat {
    match e
    case DuplicateKey(_) => 0
    case UnknownMilestone(_) => 1
    case UnknownPhase(_) => 2
    case MissingDependencies(_, _) => 3
    case LacksCriteria(_) => 4
  }

  /** The fault raised for an issue: the first in that order. */
  ghost predicate FirstFaultOf(s: Issue, seen: set<string>, milestones: set<string>, phases: set<string>,
                               e: LegacyError) {
    && Faults(s, seen, milestones, phases, e)
    && forall f | Faults(s, seen, milestones, phases, f) :: Rank(e) <= Rank(f)
  }

  /** Accepts exactly the valid catalogs; a refusal names the first fault of the first faulty issue. */
  method ValidateLegacy(issues: seq<Issue>, milestones: set<string>, phases: set<string>)
    returns (r: Outcome<(), LegacyError>)
    ensures r.Ok? <==> LegacyValid(issues, milestones, phases)
    ensures r.Fail? ==> exists i :: 0 <= i < |issues| && LegacyValid(issues[..i], milestones, phases) &&
                          FirstFaultOf(issues[i], Elements(Keys(issues[..i])), milestones, phases, r.error)
  {
    var seen: set<string> := {};
    for i := 0 to |issues|
      invariant seen == Elements(Keys(issues[..i]))
      invariant LegacyValid(issues[..i], milestones, phases)
    {
      var spec := issues[i];
      var error := FirstFault(spec, seen, milestones, phases);
      LegacyValidSnoc(issues, i, milestones, phases);
      if error.Some? {
        LegacyInvalidFrom(issues, i + 1, milestones, phases);
        return Fail(error.value);
      }
      SeenSnoc(issues, i);
      seen := seen + {spec.key};
    }
    assert issues[..|issues|] == issues;
    r := Ok(());
  }

  method FirstFault(spec: Issue, seen: set<string>, milestones: set<string>, phases: set<string>)
    returns (e: Option<LegacyError>)
    ensures e.Some? ==> FirstFaultOf(spec, seen, milestones, phases, e.value)
    ensures e.None? ==> forall f :: !Faults(spec, seen, milestones, phases, f)
  {
    if spec.key in seen { return Some(DuplicateKey(spec.key)); }
    if spec.milestone !in milestones { return Some(UnknownMilestone(spec.key)); }
    if spec.phase !in phases { return Some(UnknownPhase(spec.key)); }
    var missing := Elements(spec.dependencies) - seen;
    if missing != {} { return Some(MissingDependencies(spec.key, missing)); }
    if spec.acceptance == [] || spec.tests == [] { return Some(LacksCriteria(spec.key)); }
    e := None;
  }

  lemma {:induction false} LegacyInvalidFrom(issues: seq<Issue>, n: nat, milestones: set<string>, phases: set<string>)
    requires n <= |issues| && !LegacyValid(issues[..n], milestones, phases)
    ensures !LegacyValid(issues, milestones, phases)
    decreases |issues| - n
  {
    if n == |issues| {
      assert issues[..n] == issues;
    } else {
      LegacyValidSnoc(issues, n, milestones, phases);
      LegacyInvalidFrom(issues, n + 1, milestones, phases);
    }
  }

  // ---------- bootstrap_post_v1.validate_catalog: collect every violation ----------

  datatype FieldOptions = FieldOptions(
    phases: set<string>, priorities: set<string>, kinds: set<string>, efforts: set<string>, risks: set<string>)

  datatype IssueField = MilestoneTitle | PhaseOption | PriorityOption | WorkTypeOption | EffortOption | RiskOption

  /** The fields in the order they are checked. */
  const FIELDS: seq<IssueField> :=
    [MilestoneTitle, PhaseOption, PriorityOption, WorkTypeOption, EffortOption, RiskOption]

  datatype PostError =
    | DuplicateKeys | DuplicateTitles | OverlapsLegacy(keys: set<string>)
    | BadField(issue: string, field: IssueField)
    | DanglingDependency(issue: string, dependency: string)
    | Incomplete(issue: string)
    | MilestoneSize(milestone: string, found: nat)

  function CountIn(issues: seq<Issue>, milestone: string): nat {
    if issues == [] then 0
    else CountIn(issues[..|issues| - 1], milestone) +
         if issues[|issues| - 1].milestone == milestone then 1 else 0
  }

  ghost predicate FieldsValid(s: Issue, milestones: seq<string>, o: FieldOptions) {
    && s.milestone in milestones && s.phase in o.phases && s.priority in o.priorities
    && s.kind in o.kinds && s.effort in o.efforts && s.risk in o.risks
  }

  ghost predicate IssueValid(s: Issue, seen: set<string>, milestones: seq<string>, o: FieldOptions) {
    && FieldsValid(s, milestones, o)
    && (forall d | d in s.dependencies :: d in seen)
    && s.acceptance != [] && s.protocol != "" && s.completion != ""
  }

  ghost predicate PostValid(legacy: set<string>, issues: seq<Issue>, milestones: seq<string>, o: FieldOptions) {
    && Distinct(Keys(issues)) && Distinct(Titles(issues))
    && (forall s | s in issues :: s.key !in legacy)
    && IssuesValid(legacy, issues, |issues|, milestones, o)
    && (forall m | m in milestones :: 6 <= CountIn(issues, m) <= 15)
  }

  /** `len(xs) == len(set(xs))`. */
  method AllDifferent(xs: seq<string>) returns (r: bool)
    ensures r <==> Distinct(xs)
  {
    DistinctBySize(xs);
    r := |xs| == |Elements(xs)|;
  }

  lemma DistinctSnoc(front: seq<string>, x: string)
    ensures Distinct(front + [x]) <==> Distinct(front) && x !in front
  {
    var xs := front + [x];
    assert forall i | 0 <= i < |front| :: front[i] == xs[i];
    assert xs[|front|] == x;
  }

  lemma {:induction false} DistinctBySize(xs: seq<string>)
    ensures |Elements(xs)| <= |xs|
    ensures |Elements(xs)| == |xs| <==> Distinct(xs)
  {
    if xs != [] {
      var front, x := xs[..|xs| - 1], xs[|xs| - 1];
      DistinctBySize(front);
      DistinctSnoc(front, x);
      assert xs == front + [x];
      assert Elements(xs) == Elements(front) + {x};
      assert x in Elements(front) <==> x in front;
    }
  }

  predicate FieldKnown(s: Issue, field: IssueField, milestones: seq<string>, o: FieldOptions) {
    match field
    case MilestoneTitle => s.milestone in milestones
    case PhaseOption => s.phase in o.phases
    case PriorityOption => s.priority in o.priorities
    case WorkTypeOption => s.kind in o.kinds
    case EffortOption => s.effort in o.efforts
    case RiskOption => s.risk in o.risks
  }

  /** What is wrong with one issue, given the keys seen before it. */
  ghost predicate IssueFault(s: Issue, seen: set<string>, milestones: seq<string>, o: FieldOptions, e: PostError) {
    || (e.BadField? && e.issue == s.key && !FieldKnown(s, e.field, milestones, o))
    || (e.DanglingDependency? && e.issue == s.key && e.dependency in s.dependencies && e.dependency !in seen)
    || (e.Incomplete? && e.issue == s.key && (s.acceptance == [] || s.protocol == "" || s.completion == ""))
  }

  /** The faults of an issue, one by one. */
  lemma IssueFaultsSpelledOut(s: Issue, seen: set<string>, milestones: seq<string>, o: FieldOptions, k: string)
    ensures IssueFault(s, seen, milestones, o, BadField(k, MilestoneTitle)) <==>
            k == s.key && s.milestone !in milestones
    ensures IssueFault(s, seen, milestones, o, BadField(k, PhaseOption)) <==> k == s.key && s.phase !in o.phases
    ensures IssueFault(s, seen, milestones, o, BadField(k, PriorityOption)) <==>
            k == s.key && s.priority !in o.priorities
    ensures IssueFault(s, seen, milestones, o, BadField(k, WorkTypeOption)) <==> k == s.key && s.kind !in o.kinds
    ensures IssueFault(s, seen, milestones, o, BadField(k, EffortOption)) <==> k == s.key && s.effort !in o.efforts
    ensures IssueFault(s, seen, milestones, o, BadField(k, RiskOption)) <==> k == s.key && s.risk !in o.risks
    ensures forall d :: IssueFault(s, seen, milestones, o, DanglingDependency(k, d)) <==>
              k == s.key && d in s.dependencies && d !in seen
    ensures IssueFault(s, seen, milestones, o, Incomplete(k)) <==>
            k == s.key && (s.acceptance == [] || s.protocol == "" || s.completion == "")
  {
  }

  /** What is wrong with the lists of keys and titles. */
  ghost predicate ListFault(legacy: set<string>, issues: seq<Issue>, e: PostError) {
    || (e.DuplicateKeys? && !Distinct(Keys(issues)))
    || (e.DuplicateTitles? && !Distinct(Titles(issues)))
    || (e.OverlapsLegacy? && e.keys == legacy * Elements(Keys(issues)) && e.keys != {})
  }

  /** A milestone that holds too few or too many issues. */
  ghost predicate SizeFault(issues: seq<Issue>, milestones: seq<string>, e: PostError) {
    e.MilestoneSize? && e.milestone in milestones && e.found == CountIn(issues, e.milestone) && !(6 <= e.found <= 15)
  }

  ghost predicate IssueFaultUpTo(legacy: set<string>, issues: seq<Issue>, n: nat, milestones: seq<string>,
                                 o: FieldOptions, e: PostError)
    requires n <= |issues|
  {
    exists i: nat :: i < n && IssueFault(issues[i], legacy + Elements(Keys(issues[..i])), milestones, o, e)
  }

  ghost predicate PostFault(legacy: set<string>, issues: seq<Issue>, milestones: seq<string>, o: FieldOptions,
                            e: PostError) {
    || ListFault(legacy, issues, e)
    || IssueFaultUpTo(legacy, issues, |issues|, milestones, o, e)
    || SizeFault(issues, milestones, e)
  }

  // ---------- the report ----------

  function BadFields(key: string, fields: seq<IssueField>): (r: seq<PostError>)
    ensures |r| == |fields| && forall i | 0 <= i < |r| :: r[i] == BadField(key, fields[i])
  {
    seq(|fields|, i requires 0 <= i < |fields| => BadField(key, fields[i]))
  }

  function Danglings(key: string, dependencies: seq<string>): (r: seq<PostError>)
    ensures |r| == |dependencies| && forall i | 0 <= i < |r| :: r[i] == DanglingDependency(key, dependencies[i])
  {
    seq(|dependencies|, i requires 0 <= i < |dependencies| => DanglingDependency(key, dependencies[i]))
  }

  function Sizes(issues: seq<Issue>, milestones: seq<string>): (r: seq<PostError>)
    ensures |r| == |milestones| &&
            forall i | 0 <= i < |r| :: r[i] == MilestoneSize(milestones[i], CountIn(issues, milestones[i]))
  {
    seq(|milestones|, i requires 0 <= i < |milestones| => MilestoneSize(milestones[i], CountIn(issues, milestones[i])))
  }

  /** What is looked for at one issue, in order: every field, every dependency, the completion contract. */
  function IssueChecks(s: Issue): seq<PostError> {
    BadFields(s.key, FIELDS) + Danglings(s.key, s.dependencies) + [Incomplete(s.key)]
  }

  function ListChecks(legacy: set<string>, issues: seq<Issue>): seq<PostError> {
    [DuplicateKeys, DuplicateTitles, OverlapsLegacy(legacy * Elements(Keys(issues)))]
  }

  ghost function IssueReport(s: Issue, seen: set<string>, milestones: seq<string>, o: FieldOptions): seq<PostError> {
    Keep(e => IssueFault(s, seen, milestones, o, e), IssueChecks(s))
  }

  ghost function IssueReports(legacy: set<string>, issues: seq<Issue>, n: nat, milestones: seq<string>,
                              o: FieldOptions): seq<PostError>
    requires n <= |issues|
  {
    if n == 0 then []
    else IssueReports(legacy, issues, n - 1, milestones, o) +
         IssueReport(issues[n - 1], legacy + Elements(Keys(issues[..n - 1])), milestones, o)
  }

  ghost function ListReport(legacy: set<string>, issues: seq<Issue>): seq<PostError> {
    Keep(e => ListFault(legacy, issues, e), ListChecks(legacy, issues))
  }

  ghost function SizeReport(issues: seq<Issue>, milestones: seq<string>): seq<PostError> {
    Keep(e => SizeFault(issues, milestones, e), Sizes(issues, milestones))
  }

  /** The faults of the lists, of each issue in turn, and of the milestones, each in the order looked for. */
  ghost function PostReport(legacy: set<string>, issues: seq<Issue>, milestones: seq<string>,
                            o: FieldOptions): seq<PostError> {
    ListReport(legacy, issues) + IssueReports(legacy, issues, |issues|, milestones, o) + SizeReport(issues, milestones)
  }

  lemma IssueFaultIsLookedFor(s: Issue, seen: set<string>, milestones: seq<string>, o: FieldOptions, e: PostError)
    requires IssueFault(s, seen, milestones, o, e)
    ensures e in IssueChecks(s)
  {
    if e.BadField? {
      EveryField(e.field);
      var i :| 0 <= i < |FIELDS| && FIELDS[i] == e.field;
      assert BadFields(s.key, FIELDS)[i] == e;
    } else if e.DanglingDependency? {
      var i :| 0 <= i < |s.dependencies| && s.dependencies[i] == e.dependency;
      assert Danglings(s.key, s.dependencies)[i] == e;
    }
  }

  lemma {:induction false} IssueReportsAreFaults(legacy: set<string>, issues: seq<Issue>, n: nat,
                                                 milestones: seq<string>, o: FieldOptions)
    requires n <= |issues|
    ensures forall e :: e in IssueReports(legacy, issues, n, milestones, o) <==>
                        IssueFaultUpTo(legacy, issues, n, milestones, o, e)
  {
    if n > 0 {
      IssueReportsAreFaults(legacy, issues, n - 1, milestones, o);
      IssueReportIsFaults(issues[n - 1], legacy + Elements(Keys(issues[..n - 1])), milestones, o);
      IssueFaultSnoc(legacy, issues, n - 1, milestones, o);
    }
  }

  lemma IssueReportIsFaults(s: Issue, seen: set<string>, milestones: seq<string>, o: FieldOptions)
    ensures forall e :: e in IssueReport(s, seen, milestones, o) <==> IssueFault(s, seen, milestones, o, e)
  {
    KeepMembers(e => IssueFault(s, seen, milestones, o, e), IssueChecks(s));
    forall e | IssueFault(s, seen, milestones, o, e) ensures e in IssueChecks(s) {
      IssueFaultIsLookedFor(s, seen, milestones, o, e);
    }
  }

  lemma SizeReportIsFaults(issues: seq<Issue>, milestones: seq<string>)
    ensures forall e :: e in SizeReport(issues, milestones) <==> SizeFault(issues, milestones, e)
  {
    KeepMembers(e => SizeFault(issues, milestones, e), Sizes(issues, milestones));
    forall e | SizeFault(issues, milestones, e) ensures e in Sizes(issues, milestones) {
      var i :| 0 <= i < |milestones| && milestones[i] == e.milestone;
      assert Sizes(issues, milestones)[i] == e;
    }
  }

  /** The report lists exactly the faults. */
  lemma PostReportIsFaults(legacy: set<string>, issues: seq<Issue>, milestones: seq<string>, o: FieldOptions)
    ensures forall e :: e in PostReport(legacy, issues, milestones, o) <==> PostFault(legacy, issues, milestones, o, e)
  {
    KeepMembers(e => ListFault(legacy, issues, e), ListChecks(legacy, issues));
    IssueReportsAreFaults(legacy, issues, |issues|, milestones, o);
    SizeReportIsFaults(issues, milestones);
  }

  // ---------- the checks ----------

  method CheckFields(s: Issue, milestones: seq<string>, o: FieldOptions, ghost p: PostError -> bool)
    returns (errors: seq<PostError>)
    requires forall f: IssueField :: p(BadField(s.key, f)) <==> !FieldKnown(s, f, milestones, o)
    ensures errors == Keep(p, BadFields(s.key, FIELDS))
  {
    errors := [];
    ghost var checks := BadFields(s.key, FIELDS);
    for i := 0 to |FIELDS|
      invariant errors == Keep(p, checks[..i])
    {
      KeepNext(p, checks, i);
      if !FieldKnown(s, FIELDS[i], milestones, o) { errors := errors + [BadField(s.key, FIELDS[i])]; }
    }
    assert checks[..|checks|] == checks;
  }

  lemma EveryField(f: IssueField)
    ensures f in FIELDS
  {
    match f
    case MilestoneTitle => assert FIELDS[0] == f;
    case PhaseOption => assert FIELDS[1] == f;
    case PriorityOption => assert FIELDS[2] == f;
    case WorkTypeOption => assert FIELDS[3] == f;
    case EffortOption => assert FIELDS[4] == f;
    case RiskOption => assert FIELDS[5] == f;
  }

  method CheckDependencies(s: Issue, seen: set<string>, ghost p: PostError -> bool) returns (errors: seq<PostError>)
    requires forall d | d in s.dependencies :: p(DanglingDependency(s.key, d)) <==> d !in seen
    ensures errors == Keep(p, Danglings(s.key, s.dependencies))
  {
    errors := [];
    ghost var checks := Danglings(s.key, s.dependencies);
    for j := 0 to |s.dependencies|
      invariant errors == Keep(p, checks[..j])
    {
      KeepNext(p, checks, j);
      assert s.dependencies[j] in s.dependencies;
      if s.dependencies[j] !in seen { errors := errors + [DanglingDependency(s.key, s.dependencies[j])]; }
    }
    assert checks[..|checks|] == checks;
  }

  method CheckIssue(s: Issue, seen: set<string>, milestones: seq<string>, o: FieldOptions)
    returns (errors: seq<PostError>)
    ensures errors == IssueReport(s, seen, milestones, o)
  {
    ghost var p := (e: PostError) => IssueFault(s, seen, milestones, o, e);
    var fields := CheckFields(s, milestones, o, p);
    var dangling := CheckDependencies(s, seen, p);
    errors := fields + dangling;
    if s.acceptance == [] || s.protocol == "" || s.completion == "" { errors := errors + [Incomplete(s.key)]; }
    KeepSnoc(p, BadFields(s.key, FIELDS) + Danglings(s.key, s.dependencies), Incomplete(s.key));
    KeepAppend(p, BadFields(s.key, FIELDS), Danglings(s.key, s.dependencies));
    KeepAgrees(p, e => IssueFault(s, seen, milestones, o, e), IssueChecks(s));
  }

  lemma IssueFaults(s: Issue, seen: set<string>, milestones: seq<string>, o: FieldOptions)
    ensures IssueValid(s, seen, milestones, o) <==> forall e :: !IssueFault(s, seen, milestones, o, e)
  {
    if forall e :: !IssueFault(s, seen, milestones, o, e) {
      assert !IssueFault(s, seen, milestones, o, BadField(s.key, MilestoneTitle));
      assert !IssueFault(s, seen, milestones, o, BadField(s.key, PhaseOption));
      assert !IssueFault(s, seen, milestones, o, BadField(s.key, PriorityOption));
      assert !IssueFault(s, seen, milestones, o, BadField(s.key, WorkTypeOption));
      assert !IssueFault(s, seen, milestones, o, BadField(s.key, EffortOption));
      assert !IssueFault(s, seen, milestones, o, BadField(s.key, RiskOption));
      assert !IssueFault(s, seen, milestones, o, Incomplete(s.key));
      forall d | d in s.dependencies ensures d in seen {
        assert !IssueFault(s, seen, milestones, o, DanglingDependency(s.key, d));
      }
    }
  }

  method CheckLists(legacy: set<string>, issues: seq<Issue>) returns (errors: seq<PostError>)
    ensures errors == ListReport(legacy, issues)
  {
    var differentKeys := AllDifferent(Keys(issues));
    var differentTitles := AllDifferent(Titles(issues));
    var overlap := legacy * Elements(Keys(issues));
    errors := Flag(!differentKeys, DuplicateKeys) + Flag(!differentTitles, DuplicateTitles)
              + Flag(overlap != {}, OverlapsLegacy(overlap));
    ghost var p := (e: PostError) => ListFault(legacy, issues, e);
    KeepThree(p, DuplicateKeys, DuplicateTitles, OverlapsLegacy(overlap));
    KeepAgrees(p, e => ListFault(legacy, issues, e), ListChecks(legacy, issues));
  }

  ghost predicate IssuesValid(legacy: set<string>, issues: seq<Issue>, n: nat, milestones: seq<string>, o: FieldOptions)
    requires n <= |issues|
  {
    forall i | 0 <= i < n :: IssueValid(issues[i], legacy + Elements(Keys(issues[..i])), milestones, o)
  }

  function Count(counts: map<string, nat>, m: string): nat { if m in counts then counts[m] else 0 }

  lemma CountSnoc(issues: seq<Issue>, i: nat, m: string)
    requires i < |issues|
    ensures CountIn(issues[..i + 1], m) == CountIn(issues[..i], m) + if issues[i].milestone == m then 1 else 0
  {
    var s := issues[..i + 1];
    assert s[..|s| - 1] == issues[..i] && s[|s| - 1] == issues[i];
  }

  ghost predicate CountsOf(counts: map<string, nat>, issues: seq<Issue>, n: nat)
    requires n <= |issues|
  {
    forall m :: Count(counts, m) == CountIn(issues[..n], m)
  }

  lemma CountOne(counts: map<string, nat>, issues: seq<Issue>, i: nat)
    requires i < |issues| && CountsOf(counts, issues, i)
    ensures var m := issues[i].milestone; CountsOf(counts[m := Count(counts, m) + 1], issues, i + 1)
  {
    var m := issues[i].milestone;
    var after := counts[m := Count(counts, m) + 1];
    forall other ensures Count(after, other) == CountIn(issues[..i + 1], other) {
      CountSnoc(issues, i, other);
    }
  }

  lemma SeenSnoc(issues: seq<Issue>, i: nat)
    requires i < |issues|
    ensures Elements(Keys(issues[..i + 1])) == Elements(Keys(issues[..i])) + {issues[i].key}
  {
    assert Keys(issues[..i + 1]) == Keys(issues[..i]) + [issues[i].key];
  }

  lemma IssueFaultSnoc(legacy: set<string>, issues: seq<Issue>, i: nat, milestones: seq<string>, o: FieldOptions)
    requires i < |issues|
    ensures forall e :: IssueFaultUpTo(legacy, issues, i + 1, milestones, o, e) <==>
              || IssueFaultUpTo(legacy, issues, i, milestones, o, e)
              || IssueFault(issues[i], legacy + Elements(Keys(issues[..i])), milestones, o, e)
  {
  }

  /** The milestones that issues are in. */
  ghost function MilestonesOf(issues: seq<Issue>): set<string> { set s | s in issues :: s.milestone }

  lemma MilestonesSnoc(issues: seq<Issue>, i: nat)
    requires i < |issues|
    ensures MilestonesOf(issues[..i + 1]) == MilestonesOf(issues[..i]) + {issues[i].milestone}
  {
    assert issues[..i + 1] == issues[..i] + [issues[i]];
  }

  method CheckIssues(legacy: set<string>, issues: seq<Issue>, milestones: seq<string>, o: FieldOptions)
    returns (errors: seq<PostError>, counts: map<string, nat>)
    ensures errors == IssueReports(legacy, issues, |issues|, milestones, o)
    ensures (forall m :: Count(counts, m) == CountIn(issues, m)) && counts.Keys == MilestonesOf(issues)
  {
    errors, counts := [], map[];
    var seen := legacy;
    for i := 0 to |issues|
      invariant seen == legacy + Elements(Keys(issues[..i]))
      invariant CountsOf(counts, issues, i) && counts.Keys == MilestonesOf(issues[..i])
      invariant errors == IssueReports(legacy, issues, i, milestones, o)
    {
      var spec := issues[i];
      CountOne(counts, issues, i);
      SeenSnoc(issues, i);
      MilestonesSnoc(issues, i);
      counts := counts[spec.milestone := Count(counts, spec.milestone) + 1];
      var found := CheckIssue(spec, seen, milestones, o);
      errors := errors + found;
      seen := seen + {spec.key};
    }
    assert issues[..|issues|] == issues;
  }

  method CheckSizes(issues: seq<Issue>, milestones: seq<string>, counts: map<string, nat>)
    returns (errors: seq<PostError>)
    requires forall m :: Count(counts, m) == CountIn(issues, m)
    ensures errors == SizeReport(issues, milestones)
  {
    errors := [];
    ghost var p, checks := (e: PostError) => SizeFault(issues, milestones, e), Sizes(issues, milestones);
    for j := 0 to |milestones|
      invariant errors == Keep(p, checks[..j])
    {
      var count := Count(counts, milestones[j]);
      KeepNext(p, checks, j);
      assert milestones[j] in milestones;
      if !(6 <= count <= 15) { errors := errors + [MilestoneSize(milestones[j], count)]; }
    }
    assert checks[..|checks|] == checks;
    KeepAgrees(p, e => SizeFault(issues, milestones, e), checks);
  }

  /** Fails with the report, which is empty exactly on valid catalogs; then counts the issues of every
      milestone. */
  method ValidatePost(legacy: set<string>, issues: seq<Issue>, milestones: seq<string>, o: FieldOptions)
    returns (r: Outcome<map<string, nat>, seq<PostError>>)
    ensures r.Ok? <==> PostValid(legacy, issues, milestones, o)
    ensures r.Ok? ==> forall m :: Count(r.value, m) == CountIn(issues, m)
    ensures r.Ok? ==> r.value.Keys == MilestonesOf(issues)
    ensures r.Fail? ==> r.error == PostReport(legacy, issues, milestones, o)
  {
    var listErrors := CheckLists(legacy, issues);
    var issueErrors, counts := CheckIssues(legacy, issues, milestones, o);
    var sizeErrors := CheckSizes(issues, milestones, counts);
    var errors := listErrors + issueErrors + sizeErrors;
    ValidMeansEmptyReport(legacy, issues, milestones, o);
    r := if errors != [] then Fail(errors) else Ok(counts);
  }

  lemma ValidMeansEmptyReport(legacy: set<string>, issues: seq<Issue>, milestones: seq<string>, o: FieldOptions)
    ensures PostValid(legacy, issues, milestones, o) <==> PostReport(legacy, issues, milestones, o) == []
  {
    var report := PostReport(legacy, issues, milestones, o);
    assert forall e :: e in report <==> PostFault(legacy, issues, milestones, o, e) by {
      PostReportIsFaults(legacy, issues, milestones, o);
    }
    ValidMeansFaultless(legacy, issues, milestones, o);
    if report != [] { assert report[0] in report; }
  }

  /** A valid catalog is one without a fault. */
  lemma ValidMeansFaultless(legacy: set<string>, issues: seq<Issue>, milestones: seq<string>, o: FieldOptions)
    ensures PostValid(legacy, issues, milestones, o) <==> forall e :: !PostFault(legacy, issues, milestones, o, e)
  {
    if PostValid(legacy, issues, milestones, o) {
      forall e ensures !PostFault(legacy, issues, milestones, o, e) {
        ValidHasNoFault(legacy, issues, milestones, o, e);
      }
    }
    if forall e :: !PostFault(legacy, issues, milestones, o, e) {
      FaultlessLists(legacy, issues, milestones, o);
      FaultlessIssues(legacy, issues, milestones, o);
      forall m | m in milestones ensures 6 <= CountIn(issues, m) <= 15 {
        assert !PostFault(legacy, issues, milestones, o, MilestoneSize(m, CountIn(issues, m)));
      }
    }
  }

  lemma ValidHasNoFault(legacy: set<string>, issues: seq<Issue>, milestones: seq<string>, o: FieldOptions, e: PostError)
    requires PostValid(legacy, issues, milestones, o)
    ensures !PostFault(legacy, issues, milestones, o, e)
  {
    OverlapMeans(legacy, issues);
    forall i: nat | i < |issues|
      ensures !IssueFault(issues[i], legacy + Elements(Keys(issues[..i])), milestones, o, e)
    {
      IssueFaults(issues[i], legacy + Elements(Keys(issues[..i])), milestones, o);
    }
  }

  lemma FaultlessLists(legacy: set<string>, issues: seq<Issue>, milestones: seq<string>, o: FieldOptions)
    requires forall e :: !PostFault(legacy, issues, milestones, o, e)
    ensures Distinct(Keys(issues)) && Distinct(Titles(issues)) && forall s | s in issues :: s.key !in legacy
  {
    assert !PostFault(legacy, issues, milestones, o, DuplicateKeys);
    assert !PostFault(legacy, issues, milestones, o, DuplicateTitles);
    assert !PostFault(legacy, issues, milestones, o, OverlapsLegacy(legacy * Elements(Keys(issues))));
    OverlapMeans(legacy, issues);
  }

  lemma FaultlessIssues(legacy: set<string>, issues: seq<Issue>, milestones: seq<string>, o: FieldOptions)
    requires forall e :: !PostFault(legacy, issues, milestones, o, e)
    ensures IssuesValid(legacy, issues, |issues|, milestones, o)
  {
    forall i | 0 <= i < |issues| ensures IssueValid(issues[i], legacy + Elements(Keys(issues[..i])), milestones, o) {
      var s, seen := issues[i], legacy + Elements(Keys(issues[..i]));
      forall e ensures !IssueFault(s, seen, milestones, o, e) {
        assert !PostFault(legacy, issues, milestones, o, e);
      }
      IssueFaults(s, seen, milestones, o);
    }
  }

  lemma OverlapMeans(legacy: set<string>, issues: seq<Issue>)
    ensures legacy * Elements(Keys(issues)) == {} <==> forall s | s in issues :: s.key !in legacy
  {
    forall s | s in issues ensures s.key in Elements(Keys(issues)) {
      var i :| 0 <= i < |issues| && issues[i] == s;
      assert Keys(issues)[i] == s.key;
    }
    forall k | k in Elements(Keys(issues)) ensures exists s :: s in issues && s.key == k {
      var i :| 0 <= i < |issues| && Keys(issues)[i] == k;
      assert issues[i] in issues;
    }
    if forall s | s in issues :: s.key !in legacy {
      forall k ensures k !in legacy * Elements(Keys(issues)) { }
    } else {
      var s :| s in issues && s.key in legacy;
      assert s.key in legacy * Elements(Keys(issues));
    }
  }

  // ---------- the combined graph ----------

  /** `{spec.key: set(spec.dependencies) for spec in issues}`: a later issue replaces an earlier one. */
  function GraphOf(issues: seq<Issue>): Graph {
    if issues == [] then map[]
    else GraphOf(issues[..|issues| - 1])[issues[|issues| - 1].key := issues[|issues| - 1].dependencies]
  }

  ghost predicate LastOfItsKey(issues: seq<Issue>, i: nat) {
    i < |issues| && forall j | i < j < |issues| :: issues[j].key != issues[i].key
  }

  lemma LastInFront(issues: seq<Issue>, i: nat)
    requires LastOfItsKey(issues, i) && i < |issues| - 1
    ensures LastOfItsKey(issues[..|issues| - 1], i) && issues[|issues| - 1].key != issues[i].key
  {
    var front := issues[..|issues| - 1];
    forall j | i < j < |front| ensures front[j].key != front[i].key { assert issues[j].key != issues[i].key; }
  }

  lemma GraphStep(issues: seq<Issue>)
    requires issues != []
    ensures var n := |issues| - 1; GraphOf(issues) == GraphOf(issues[..n])[issues[n].key := issues[n].dependencies]
  {
  }

  /** The nodes are the keys of the catalog. */
  lemma {:induction false} GraphNodes(issues: seq<Issue>)
    ensures GraphOf(issues).Keys == Elements(Keys(issues))
  {
    if issues != [] {
      var n := |issues| - 1;
      GraphNodes(issues[..n]);
      GraphStep(issues);
      assert issues[..n + 1] == issues;
      SeenSnoc(issues, n);
    }
  }

  /** Each has the dependencies of the last issue with its key. */
  lemma {:induction false} GraphEdges(issues: seq<Issue>, i: nat)
    requires LastOfItsKey(issues, i)
    ensures issues[i].key in GraphOf(issues) && Deps(GraphOf(issues), issues[i].key) == issues[i].dependencies
  {
    var n := |issues| - 1;
    GraphStep(issues);
    if i < n {
      LastInFront(issues, i);
      GraphEdges(issues[..n], i);
    }
  }

  lemma LastIfDistinct(issues: seq<Issue>, i: nat)
    requires Distinct(Keys(issues)) && i < |issues|
    ensures LastOfItsKey(issues, i)
  {
    forall j | i < j < |issues| ensures issues[j].key != issues[i].key {
      assert Keys(issues)[i] != Keys(issues)[j];
    }
  }

  /** A catalog in dependency order is a topological order of its own graph. */
  lemma OrderedCatalogIsAcyclic(issues: seq<Issue>)
    requires Distinct(Keys(issues)) && DependsEarlier(issues, {})
    ensures Topological(GraphOf(issues), Keys(issues), {}) && Acyclic(GraphOf(issues))
  {
    var g, order := GraphOf(issues), Keys(issues);
    GraphNodes(issues);
    forall i | 0 <= i < |order| ensures forall d | d in Deps(g, order[i]) && d !in {} :: d in order[..i] {
      LastIfDistinct(issues, i);
      GraphEdges(issues, i);
      assert Keys(issues[..i]) == order[..i];
      assert Deps(g, order[i]) == issues[i].dependencies;
    }
    assert forall n | n in g :: n in Elements(Keys(issues));
    TopologicalIsAcyclic(g, order);
  }

  lemma KeysAppend(a: seq<Issue>, b: seq<Issue>)
    ensures Keys(a + b) == Keys(a) + Keys(b)
  {
  }

  lemma CatalogKeysDistinct(legacy: seq<Issue>, post: seq<Issue>)
    requires Distinct(Keys(legacy)) && Distinct(Keys(post))
    requires forall s | s in post :: s.key !in Elements(Keys(legacy))
    ensures Distinct(Keys(legacy + post))
  {
    var all := legacy + post;
    KeysAppend(legacy, post);
    forall i, j | 0 <= i < j < |all| ensures Keys(all)[i] != Keys(all)[j] {
      if i < |legacy| && |legacy| <= j {
        assert Keys(legacy)[i] in Elements(Keys(legacy));
        assert post[j - |legacy|] in post;
      } else if |legacy| <= i {
        assert Keys(post)[i - |legacy|] != Keys(post)[j - |legacy|];
      }
    }
  }

  ghost predicate DependsOnSeen(post: seq<Issue>, base: set<string>) {
    forall k | 0 <= k < |post| :: forall d | d in post[k].dependencies :: d in base + Elements(Keys(post[..k]))
  }

  lemma CatalogDependsEarlier(legacy: seq<Issue>, post: seq<Issue>)
    requires DependsEarlier(legacy, {}) && DependsOnSeen(post, Elements(Keys(legacy)))
    ensures DependsEarlier(legacy + post, {})
  {
    var all := legacy + post;
    forall i | 0 <= i < |all| ensures forall d | d in all[i].dependencies :: d in Keys(all[..i]) {
      if i < |legacy| {
        assert all[..i] == legacy[..i];
      } else {
        var k := i - |legacy|;
        assert all[..i] == legacy + post[..k] && all[i] == post[k];
        KeysAppend(legacy, post[..k]);
      }
    }
  }

  /** Both validators accept: keys are unique across the catalogs, every dependency is defined
      earlier, and the combined graph has no cycle. */
  lemma AcceptedCatalogsAreOrdered(legacy: seq<Issue>, post: seq<Issue>, legacyMilestones: set<string>,
                                   phases: set<string>, milestones: seq<string>, o: FieldOptions)
    requires LegacyValid(legacy, legacyMilestones, phases)
    requires PostValid(Elements(Keys(legacy)), post, milestones, o)
    ensures Distinct(Keys(legacy + post)) && DependsEarlier(legacy + post, {})
    ensures Acyclic(GraphOf(legacy + post))
  {
    CatalogKeysDistinct(legacy, post);
    CatalogDependsEarlier(legacy, post);
    OrderedCatalogIsAcyclic(legacy + post);
  }

  /** So after both accept, `cycle_nodes` returns the empty list. */
  method AuditCycles(legacy: seq<Issue>, post: seq<Issue>, ghost legacyMilestones: set<string>,
                     ghost phases: set<string>, ghost milestones: seq<string>, ghost o: FieldOptions)
    returns (cycles: seq<string>)
    ensures LegacyValid(legacy, legacyMilestones, phases) && PostValid(Elements(Keys(legacy)), post, milestones, o)
            ==> cycles == []
    ensures BreaksExactlyTheCycles(GraphOf(legacy + post), Elements(cycles))
  {
    ghost var order;
    cycles, order := CycleNodes(GraphOf(legacy + post));
    if LegacyValid(legacy, legacyMilestones, phases) && PostValid(Elements(Keys(legacy)), post, milestones, o) {
      AcceptedCatalogsAreOrdered(legacy, post, legacyMilestones, phases, milestones, o);
    }
  }

  // ---------- blocks_by_key: the edges reversed ----------

  function EdgesTo(key: string, dependencies: seq<string>): (r: seq<(string, string)>)
    ensures |r| == |dependencies| && forall i | 0 <= i < |r| :: r[i] == (dependencies[i], key)
  {
    seq(|dependencies|, i requires 0 <= i < |dependencies| => (dependencies[i], key))
  }

  /** Every (dependency, dependant) pair, with repetition, in catalog order. */
  function EdgeList(issues: seq<Issue>): seq<(string, string)> {
    if issues == [] then []
    else EdgeList(issues[..|issues| - 1]) + EdgesTo(issues[|issues| - 1].key, issues[|issues| - 1].dependencies)
  }

  /** The dependants of `d`, in catalog order. */
  function Targets(edges: seq<(string, string)>, d: string): seq<string> {
    if edges == [] then []
    else
      var last := edges[|edges| - 1];
      Targets(edges[..|edges| - 1], d) + if last.0 == d then [last.1] else []
  }

  function Blocked(blocks: map<string, seq<string>>, d: string): seq<string> {
    if d in blocks then blocks[d] else []
  }

  ghost function Total(blocks: map<string, seq<string>>): nat {
    if blocks == map[] then 0
    else
      var d :| d in blocks;
      |blocks[d]| + Total(blocks - {d})
  }

  lemma {:induction false} TotalWithout(blocks: map<string, seq<string>>, d: string)
    requires d in blocks
    ensures Total(blocks) == |blocks[d]| + Total(blocks - {d})
    decreases |blocks|
  {
    var c :| c in blocks && Total(blocks) == |blocks[c]| + Total(blocks - {c});
    if c != d {
      TotalWithout(blocks - {c}, d);
      TotalWithout(blocks - {d}, c);
      assert blocks - {c} - {d} == blocks - {d} - {c};
    }
  }

  lemma TotalAfterAppend(blocks: map<string, seq<string>>, d: string, k: string)
    ensures Total(blocks[d := Blocked(blocks, d) + [k]]) == Total(blocks) + 1
  {
    var after := blocks[d := Blocked(blocks, d) + [k]];
    TotalWithout(after, d);
    assert after - {d} == blocks - {d};
    if d in blocks { TotalWithout(blocks, d); } else { assert blocks - {d} == blocks; }
  }

  ghost predicate Reverses(blocks: map<string, seq<string>>, edges: seq<(string, string)>) {
    (forall d :: Blocked(blocks, d) == Targets(edges, d)) && Total(blocks) == |edges|
  }

  method AppendEdge(blocks: map<string, seq<string>>, d: string, k: string, ghost edges: seq<(string, string)>)
    returns (after: map<string, seq<string>>)
    requires Reverses(blocks, edges)
    ensures Reverses(after, edges + [(d, k)])
  {
    after := blocks[d := Blocked(blocks, d) + [k]];
    TotalAfterAppend(blocks, d, k);
    var all := edges + [(d, k)];
    assert all[..|all| - 1] == edges;
  }

  method AppendEdges(blocks: map<string, seq<string>>, spec: Issue, ghost before: seq<(string, string)>)
    returns (after: map<string, seq<string>>)
    requires Reverses(blocks, before)
    ensures Reverses(after, before + EdgesTo(spec.key, spec.dependencies))
  {
    after := blocks;
    ghost var added := EdgesTo(spec.key, spec.dependencies);
    assert before + added[..0] == before;
    for j := 0 to |spec.dependencies|
      invariant Reverses(after, before + added[..j])
    {
      after := AppendEdge(after, spec.dependencies[j], spec.key, before + added[..j]);
      assert (before + added[..j]) + [added[j]] == before + added[..j + 1];
    }
    assert added[..|added|] == added;
  }

  /** `blocks_by_key`: the dependants of every key in catalog order, one entry per edge. */
  method BlocksByKey(issues: seq<Issue>) returns (blocks: map<string, seq<string>>)
    ensures Reverses(blocks, EdgeList(issues))
  {
    blocks := map[];
    for i := 0 to |issues|
      invariant Reverses(blocks, EdgeList(issues[..i]))
    {
      var spec := issues[i];
      assert issues[..i + 1][..i] == issues[..i];
      blocks := AppendEdges(blocks, spec, EdgeList(issues[..i]));
    }
    assert issues[..|issues|] == issues;
  }

  lemma {:induction false} TargetsInverse(edges: seq<(string, string)>, d: string, k: string)
    ensures multiset(Targets(edges, d))[k] == multiset(edges)[(d, k)]
  {
    if edges != [] {
      var front, last := edges[..|edges| - 1], edges[|edges| - 1];
      TargetsInverse(front, d, k);
      assert edges == front + [last];
    }
  }

  lemma {:induction false} EdgesAreDependencies(issues: seq<Issue>, d: string, k: string)
    ensures (d, k) in EdgeList(issues) <==> exists s :: s in issues && s.key == k && d in s.dependencies
  {
    if issues != [] {
      var n := |issues| - 1;
      var front, s := issues[..n], issues[n];
      EdgesAreDependencies(front, d, k);
      assert issues == front + [s];
      var added := EdgesTo(s.key, s.dependencies);
      if d in s.dependencies && s.key == k {
        var i :| 0 <= i < |s.dependencies| && s.dependencies[i] == d;
        assert added[i] == (d, k);
      }
      if (d, k) in added { assert d in s.dependencies && s.key == k; }
    }
  }

  /** Blocks is the exact inverse of the dependency relation, and no edge is lost or added. */
  lemma BlocksInvertDependencies(issues: seq<Issue>, blocks: map<string, seq<string>>, d: string, k: string)
    requires Reverses(blocks, EdgeList(issues))
    ensures multiset(Blocked(blocks, d))[k] == multiset(EdgeList(issues))[(d, k)]
    ensures k in Blocked(blocks, d) <==> exists s :: s in issues && s.key == k && d in s.dependencies
    ensures Total(blocks) == |EdgeList(issues)|
  {
    TargetsInverse(EdgeList(issues), d, k);
    EdgesAreDependencies(issues, d, k);
    assert k in Blocked(blocks, d) <==> k in multiset(Blocked(blocks, d));
    assert (d, k) in EdgeList(issues) <==> (d, k) in multiset(EdgeList(issues));
  }

  // ---------- the board ----------

  datatype Status = Done | Blocking | Ready

  ghost predicate HasOpenBlocker(s: Issue, closed: set<string>) { exists d :: d in s.dependencies && d !in closed }

  /** The status rule of `audit_github.audit`. */
  ghost function AuditStatus(s: Issue, closed: set<string>): Status {
    if s.key in closed then Done else if HasOpenBlocker(s, closed) then Blocking else Ready
  }

  /** The rule of `ensure_project_items` and `audit_post_v1`, which never says Done. */
  ghost function ProjectStatus(s: Issue, closed: set<string>): Status {
    if HasOpenBlocker(s, closed) then Blocking else Ready
  }

  /** Done means closed; an open issue is Blocked when a dependency is open and Ready when none is. The other
      rule says the same of dependencies, whether the issue itself is closed or not. */
  lemma StatusMeans(s: Issue, closed: set<string>)
    ensures AuditStatus(s, closed) == Done <==> s.key in closed
    ensures AuditStatus(s, closed) == Blocking <==>
            s.key !in closed && exists d :: d in s.dependencies && d !in closed
    ensures AuditStatus(s, closed) == Ready <==> s.key !in closed && forall d | d in s.dependencies :: d in closed
    ensures ProjectStatus(s, closed) == Blocking <==> exists d :: d in s.dependencies && d !in closed
    ensures ProjectStatus(s, closed) == Ready <==> forall d | d in s.dependencies :: d in closed
  {
  }

  /** The two rules agree exactly on open issues. */
  lemma StatusRulesAgree(s: Issue, closed: set<string>)
    ensures AuditStatus(s, closed) == ProjectStatus(s, closed) <==> s.key !in closed
  {
  }

  ghost predicate ReadyKey(catalog: seq<Issue>, closed: set<string>, k: string) {
    exists s :: s in catalog && s.key == k && AuditStatus(s, closed) == Ready
  }

  function Open(catalog: seq<Issue>, closed: set<string>): set<string> { Elements(Keys(catalog)) - closed }

  ghost predicate Ordered(catalog: seq<Issue>) { Distinct(Keys(catalog)) && DependsEarlier(catalog, {}) }

  /** Every closed catalog issue has all its dependencies closed. */
  ghost predicate Closure(catalog: seq<Issue>, closed: set<string>) {
    forall s | s in catalog && s.key in closed :: forall d | d in s.dependencies :: d in closed
  }

  /** Each step closes one issue that is Ready at that moment. */
  ghost predicate IsRun(catalog: seq<Issue>, closed: set<string>, run: seq<string>) {
    forall i | 0 <= i < |run| :: ReadyKey(catalog, closed + Elements(run[..i]), run[i])
  }

  /** While an issue is open, the first open one in catalog order is Ready. */
  lemma NoDeadlock(catalog: seq<Issue>, closed: set<string>)
    requires Ordered(catalog) && Open(catalog, closed) != {}
    ensures exists k :: ReadyKey(catalog, closed, k)
  {
    var k :| k in Open(catalog, closed);
    var i :| 0 <= i < |catalog| && Keys(catalog)[i] == k;
    FirstOpenIsReady(catalog, closed, i);
  }

  lemma {:induction false} FirstOpenIsReady(catalog: seq<Issue>, closed: set<string>, i: nat)
    requires Ordered(catalog) && i < |catalog| && catalog[i].key !in closed
    ensures exists k :: ReadyKey(catalog, closed, k)
    decreases i
  {
    if j: nat :| j < i && catalog[j].key !in closed {
      FirstOpenIsReady(catalog, closed, j);
    } else {
      forall d | d in catalog[i].dependencies ensures d in closed {
        assert d in Keys(catalog[..i]);
        var j :| 0 <= j < i && Keys(catalog[..i])[j] == d;
        assert catalog[j].key == d;
      }
      assert catalog[i] in catalog && AuditStatus(catalog[i], closed) == Ready;
      assert ReadyKey(catalog, closed, catalog[i].key);
    }
  }

  /** Closing more issues never turns an open Ready issue back into a blocked one. */
  lemma ReadyPersists(catalog: seq<Issue>, closed: set<string>, more: set<string>, k: string)
    requires ReadyKey(catalog, closed, k) && closed <= more && k !in more
    ensures ReadyKey(catalog, more, k)
  {
    var s :| s in catalog && s.key == k && AuditStatus(s, closed) == Ready;
    assert AuditStatus(s, more) == Ready;
  }

  lemma RunFront(catalog: seq<Issue>, closed: set<string>, run: seq<string>)
    requires IsRun(catalog, closed, run) && run != []
    ensures IsRun(catalog, closed, run[..|run| - 1])
    ensures ReadyKey(catalog, closed + Elements(run[..|run| - 1]), run[|run| - 1])
    ensures Elements(run) == Elements(run[..|run| - 1]) + {run[|run| - 1]}
  {
    var n := |run| - 1;
    forall i | 0 <= i < n ensures run[..n][..i] == run[..i] { }
    assert run == run[..n] + [run[n]];
  }

  /** Along a run the closed set stays closed under dependencies. */
  lemma {:induction false} RunKeepsClosure(catalog: seq<Issue>, closed: set<string>, run: seq<string>)
    requires Ordered(catalog) && Closure(catalog, closed) && IsRun(catalog, closed, run)
    ensures Closure(catalog, closed + Elements(run))
  {
    if run == [] {
      assert closed + Elements(run) == closed;
    } else {
      var n := |run| - 1;
      var before := closed + Elements(run[..n]);
      RunFront(catalog, closed, run);
      RunKeepsClosure(catalog, closed, run[..n]);
      var s :| s in catalog && s.key == run[n] && AuditStatus(s, before) == Ready;
      forall x | x in catalog && x.key in before + {run[n]}
        ensures forall d | d in x.dependencies :: d in before + {run[n]}
      {
        if x.key == run[n] { SameKeySameIssue(catalog, s, x); }
      }
      assert closed + Elements(run) == before + {run[n]};
    }
  }

  lemma SameKeySameIssue(catalog: seq<Issue>, s: Issue, x: Issue)
    requires Distinct(Keys(catalog)) && s in catalog && x in catalog && s.key == x.key
    ensures s == x
  {
    var i :| 0 <= i < |catalog| && catalog[i] == s;
    var j :| 0 <= j < |catalog| && catalog[j] == x;
    assert Keys(catalog)[i] == Keys(catalog)[j];
  }

  lemma ReadyIsOpen(catalog: seq<Issue>, closed: set<string>, k: string)
    requires ReadyKey(catalog, closed, k)
    ensures k in Open(catalog, closed)
  {
    var s :| s in catalog && s.key == k && AuditStatus(s, closed) == Ready;
    var i :| 0 <= i < |catalog| && catalog[i] == s;
    assert Keys(catalog)[i] == k;
  }

  lemma StepIsFresh(catalog: seq<Issue>, closed: set<string>, run: seq<string>, i: nat)
    requires IsRun(catalog, closed, run) && i < |run|
    ensures run[i] in Open(catalog, closed) && forall j | 0 <= j < i :: run[j] != run[i]
  {
    ReadyIsOpen(catalog, closed + Elements(run[..i]), run[i]);
    forall j | 0 <= j < i ensures run[j] in Elements(run[..i]) { assert run[..i][j] == run[j]; }
  }

  /** Every step closes one open issue. */
  lemma RunCloses(catalog: seq<Issue>, closed: set<string>, run: seq<string>)
    requires IsRun(catalog, closed, run)
    ensures Distinct(run) && Elements(run) <= Open(catalog, closed)
    ensures |Open(catalog, closed) - Elements(run)| + |run| == |Open(catalog, closed)|
  {
    forall i | 0 <= i < |run| ensures run[i] in Open(catalog, closed) && forall j | 0 <= j < i :: run[j] != run[i] {
      StepIsFresh(catalog, closed, run, i);
    }
    DistinctBySize(run);
    SubsetSize(Open(catalog, closed), Elements(run));
  }

  lemma SubsetSize(all: set<string>, part: set<string>)
    requires part <= all
    ensures |all - part| + |part| == |all|
  {
    assert all == (all - part) + part;
  }

  /** A run cannot be extended exactly when it has closed all n open issues, in exactly n steps. */
  lemma MaximalRuns(catalog: seq<Issue>, closed: set<string>, run: seq<string>)
    requires Ordered(catalog) && IsRun(catalog, closed, run)
    ensures |run| <= |Open(catalog, closed)|
    ensures (forall k :: !ReadyKey(catalog, closed + Elements(run), k)) <==> |run| == |Open(catalog, closed)|
    ensures |run| == |Open(catalog, closed)| <==> Open(catalog, closed + Elements(run)) == {}
  {
    var after := closed + Elements(run);
    RunCloses(catalog, closed, run);
    assert Open(catalog, after) == Open(catalog, closed) - Elements(run);
    if Open(catalog, after) == {} {
      forall k ensures !ReadyKey(catalog, after, k) {
        if ReadyKey(catalog, after, k) { ReadyIsOpen(catalog, after, k); }
      }
    } else {
      NoDeadlock(catalog, after);
    }
  }
}
