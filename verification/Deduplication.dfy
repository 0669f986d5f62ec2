/** Mutation equivalence classes and the exclusion of work already done or under way. */
module Deduplication {
  import opened Ordering

  datatype Candidate = Candidate(
    id: string, mutation: string, kind: string, affected: seq<string>, parameters: seq<(string, string)>)

  /** Adapter-declared classes by mutation id. */
  datatype Declarations = Declarations(adapter: string, version: string, byMutation: map<string, string>)

  /** The payload that is hashed; the hash itself is taken to be collision-free. */
  datatype Key =
    | Declared(adapter: string, version: string, name: string)
    | Canonical(kind: string, components: seq<string>, parameters: seq<(string, string)>)

  function EquivalenceKey(c: Candidate, d: Option<Declarations>): Key {
    if d.Some? && c.mutation in d.value.byMutation then
      Declared(d.value.adapter, d.value.version, d.value.byMutation[c.mutation])
    else Canonical(c.kind, Sort(StrLess, c.affected), c.parameters)
  }

  predicate IsDeclared(c: Candidate, d: Option<Declarations>) { d.Some? && c.mutation in d.value.byMutation }

  /** Two candidates share a class exactly when both are declared alike, or neither is declared and
      they agree on kind, parameters and the components they touch in any order. */
  lemma SameClass(a: Candidate, b: Candidate, d: Option<Declarations>)
    ensures EquivalenceKey(a, d) == EquivalenceKey(b, d) <==>
            if IsDeclared(a, d) || IsDeclared(b, d) then
              IsDeclared(a, d) && IsDeclared(b, d) && d.value.byMutation[a.mutation] == d.value.byMutation[b.mutation]
            else a.kind == b.kind && a.parameters == b.parameters && multiset(a.affected) == multiset(b.affected)
  {
    StrLessTotal();
    SortIsSorted(StrLess, a.affected);
    SortIsSorted(StrLess, b.affected);
    if multiset(a.affected) == multiset(b.affected) {
      SortedUnique(StrLess, Sort(StrLess, a.affected), Sort(StrLess, b.affected));
    }
  }

  function Keys(cs: seq<Candidate>, d: Option<Declarations>): (r: seq<Key>)
    ensures |r| == |cs| && forall i | 0 <= i < |cs| :: r[i] == EquivalenceKey(cs[i], d)
  {
    seq(|cs|, i requires 0 <= i < |cs| => EquivalenceKey(cs[i], d))
  }

  // ---------- the report ----------

  datatype Reason = AlreadyCompleted | AlreadyInFlight | DuplicateEquivalence

  datatype Exclusion = Exclusion(id: string, key: Key, reason: Reason)

  datatype Report = Report(candidates: seq<Candidate>, exclusions: seq<Exclusion>, keys: seq<(string, Key)>)

  datatype DedupError = CompletedAndInFlight

  /** The `i`-th key is new work, and the first of its class. */
  predicate Fresh(keys: seq<Key>, done: set<Key>, i: nat)
    requires i < |keys|
  {
    keys[i] !in done && keys[i] !in keys[..i]
  }

  function ReasonFor(key: Key, completed: set<Key>, inFlight: set<Key>): Reason {
    if key in completed then AlreadyCompleted else if key in inFlight then AlreadyInFlight else DuplicateEquivalence
  }

  /** The accepted ones among the first `n` candidates. */
  function Accepted(cs: seq<Candidate>, keys: seq<Key>, done: set<Key>, n: nat): (r: seq<Candidate>)
    requires n <= |cs| == |keys|
  {
    if n == 0 then []
    else if Fresh(keys, done, n - 1) then Accepted(cs, keys, done, n - 1) + [cs[n - 1]]
    else Accepted(cs, keys, done, n - 1)
  }

  function Excluded(cs: seq<Candidate>, keys: seq<Key>, completed: set<Key>, inFlight: set<Key>, n: nat): seq<Exclusion>
    requires n <= |cs| == |keys|
  {
    if n == 0 then []
    else if Fresh(keys, completed + inFlight, n - 1) then Excluded(cs, keys, completed, inFlight, n - 1)
    else Excluded(cs, keys, completed, inFlight, n - 1) +
         [Exclusion(cs[n - 1].id, keys[n - 1], ReasonFor(keys[n - 1], completed, inFlight))]
  }

  function Named(cs: seq<Candidate>, d: Option<Declarations>): (r: seq<(string, Key)>)
    ensures |r| == |cs| && forall i | 0 <= i < |cs| :: r[i] == (cs[i].id, EquivalenceKey(cs[i], d))
  {
    seq(|cs|, i requires 0 <= i < |cs| => (cs[i].id, EquivalenceKey(cs[i], d)))
  }

  /** `deduplicate_candidates`: accepts what is fresh, in order, and gives each exclusion its reason. */
  method DeduplicateCandidates(cs: seq<Candidate>, completed: seq<Candidate>, inFlight: seq<Candidate>,
                               d: Option<Declarations>)
    returns (r: Outcome<Report, DedupError>)
    ensures r.Ok? <==> Elements(Keys(completed, d)) !! Elements(Keys(inFlight, d))
    ensures r.Ok? ==>
      var keys, c, f := Keys(cs, d), Elements(Keys(completed, d)), Elements(Keys(inFlight, d));
      r.value == Report(Accepted(cs, keys, c + f, |cs|), Excluded(cs, keys, c, f, |cs|), Named(r.value.candidates, d))
  {
    var completedKeys, inFlightKeys := Elements(Keys(completed, d)), Elements(Keys(inFlight, d));
    if completedKeys * inFlightKeys != {} { return Fail(CompletedAndInFlight); }
    ghost var keys, done := Keys(cs, d), completedKeys + inFlightKeys;
    var accepted: seq<Candidate> := [];
    var exclusions: seq<Exclusion> := [];
    var named: seq<(string, Key)> := [];
    var seen: set<Key> := {};
    for i := 0 to |cs|
      invariant accepted == Accepted(cs, keys, done, i) && named == Named(accepted, d)
      invariant exclusions == Excluded(cs, keys, completedKeys, inFlightKeys, i)
      invariant seen == Elements(keys[..i]) - done
    {
      var candidate := cs[i];
      var key := EquivalenceKey(candidate, d);
      assert keys[..i + 1] == keys[..i] + [key];
      assert Elements(keys[..i + 1]) == Elements(keys[..i]) + {key};
      assert key in Elements(keys[..i]) <==> key in keys[..i];
      if key in completedKeys {
        exclusions := exclusions + [Exclusion(candidate.id, key, AlreadyCompleted)];
      } else if key in inFlightKeys {
        exclusions := exclusions + [Exclusion(candidate.id, key, AlreadyInFlight)];
      } else if key in seen {
        exclusions := exclusions + [Exclusion(candidate.id, key, DuplicateEquivalence)];
      } else {
        seen := seen + {key};
        accepted := accepted + [candidate];
        named := named + [(candidate.id, key)];
      }
    }
    r := Ok(Report(accepted, exclusions, named));
  }

  // ---------- the report splits the input in order ----------

  /** Every candidate is accepted at its place among the accepted ones, or excluded at its place among
      the excluded ones; nothing else is listed. */
  lemma {:induction false} ReportSplitsInput(cs: seq<Candidate>, keys: seq<Key>, completed: set<Key>,
                                             inFlight: set<Key>, n: nat, i: nat)
    requires i < n <= |cs| == |keys|
    ensures var done := completed + inFlight;
            var a, e := Accepted(cs, keys, done, n), Excluded(cs, keys, completed, inFlight, n);
            var before := |Accepted(cs, keys, done, i)|;
            && |a| + |e| == n && before <= i
            && if keys[i] !in completed && keys[i] !in inFlight && keys[i] !in keys[..i]
               then before < |a| && a[before] == cs[i]
               else i - before < |e| && e[i - before].id == cs[i].id && e[i - before].key == keys[i] &&
                    match e[i - before].reason
                    case AlreadyCompleted => keys[i] in completed
                    case AlreadyInFlight => keys[i] !in completed && keys[i] in inFlight
                    case DuplicateEquivalence => keys[i] !in completed && keys[i] !in inFlight && keys[i] in keys[..i]
    decreases n
  {
    ListsCount(cs, keys, completed, inFlight, n);
    ListsCount(cs, keys, completed, inFlight, n - 1);
    ListsCount(cs, keys, completed, inFlight, i);
    if i + 1 < n { ReportSplitsInput(cs, keys, completed, inFlight, n - 1, i); }
  }

  lemma {:induction false} ListsCount(cs: seq<Candidate>, keys: seq<Key>, completed: set<Key>, inFlight: set<Key>,
                                      n: nat)
    requires n <= |cs| == |keys|
    ensures |Accepted(cs, keys, completed + inFlight, n)| + |Excluded(cs, keys, completed, inFlight, n)| == n
  {
    if n > 0 { ListsCount(cs, keys, completed, inFlight, n - 1); }
  }

  // ---------- the keys of the accepted candidates ----------

  lemma AddKey(front: seq<Key>, k: Key)
    ensures Elements(front + [k]) == Elements(front) + {k}
    ensures Distinct(front) && k !in Elements(front) ==> Distinct(front + [k])
    ensures k in front <==> k in Elements(front)
  {
    if k !in Elements(front) { assert forall j | 0 <= j < |front| :: front[j] in Elements(front); }
  }

  lemma KeysAppend(a: seq<Candidate>, b: seq<Candidate>, d: Option<Declarations>)
    ensures Keys(a + b, d) == Keys(a, d) + Keys(b, d)
    ensures Elements(Keys(a + b, d)) == Elements(Keys(a, d)) + Elements(Keys(b, d))
  {
    assert Keys(a + b, d) == Keys(a, d) + Keys(b, d);
    assert forall k :: k in Keys(a + b, d) <==> k in Keys(a, d) || k in Keys(b, d);
  }

  lemma {:induction false} AcceptedKeysAre(cs: seq<Candidate>, d: Option<Declarations>, done: set<Key>, n: nat)
    requires n <= |cs|
    ensures var a := Keys(Accepted(cs, Keys(cs, d), done, n), d);
            Elements(a) == Elements(Keys(cs, d)[..n]) - done && Distinct(a)
  {
    if n > 0 {
      var keys := Keys(cs, d);
      var front, k := Accepted(cs, keys, done, n - 1), keys[n - 1];
      AcceptedKeysAre(cs, d, done, n - 1);
      assert keys[..n] == keys[..n - 1] + [k];
      assert Keys(front + [cs[n - 1]], d) == Keys(front, d) + [k];
      NextKey(Keys(front, d), keys[..n - 1], k, done);
    }
  }

  /** One more key among those seen and, when it is new, among those accepted. */
  lemma NextKey(accepted: seq<Key>, seen: seq<Key>, k: Key, done: set<Key>)
    requires Elements(accepted) == Elements(seen) - done && Distinct(accepted)
    ensures if k !in done && k !in seen
            then Elements(accepted + [k]) == Elements(seen + [k]) - done && Distinct(accepted + [k])
            else Elements(accepted) == Elements(seen + [k]) - done
  {
    AddKey(seen, k);
    AddKey(accepted, k);
  }

  /** Accepted keys are distinct, and they are exactly the input's keys that are neither completed nor
      in flight. */
  lemma AcceptedExactly(cs: seq<Candidate>, d: Option<Declarations>, done: set<Key>)
    ensures var a := Keys(Accepted(cs, Keys(cs, d), done, |cs|), d);
            Distinct(a) && Elements(a) == Elements(Keys(cs, d)) - done
  {
    AcceptedKeysAre(cs, d, done, |cs|);
    assert Keys(cs, d)[..|cs|] == Keys(cs, d);
  }

  /** So the accepted classes do not depend on the order of the input. */
  lemma AcceptedClassesIgnoreOrder(a: seq<Candidate>, b: seq<Candidate>, d: Option<Declarations>, done: set<Key>)
    requires multiset(a) == multiset(b)
    ensures Elements(Keys(Accepted(a, Keys(a, d), done, |a|), d)) ==
            Elements(Keys(Accepted(b, Keys(b, d), done, |b|), d))
  {
    AcceptedExactly(a, d, done);
    AcceptedExactly(b, d, done);
    SameKeys(a, b, d);
    SameKeys(b, a, d);
  }

  lemma SameKeys(a: seq<Candidate>, b: seq<Candidate>, d: Option<Declarations>)
    requires multiset(a) == multiset(b)
    ensures Elements(Keys(a, d)) <= Elements(Keys(b, d))
  {
    forall k | k in Elements(Keys(a, d)) ensures k in Elements(Keys(b, d)) {
      var i :| 0 <= i < |a| && Keys(a, d)[i] == k;
      assert a[i] in multiset(b);
      var j :| 0 <= j < |b| && b[j] == a[i];
      assert Keys(b, d)[j] == k;
    }
  }

  /** An accepted candidate is the first of its class in the input. */
  lemma {:induction false} AcceptedIsFirst(cs: seq<Candidate>, keys: seq<Key>, done: set<Key>, n: nat, c: Candidate)
    requires n <= |cs| == |keys|
    ensures c in Accepted(cs, keys, done, n) <==>
            exists i: nat :: i < n && cs[i] == c && keys[i] !in done && keys[i] !in keys[..i]
  {
    if n > 0 {
      AcceptedIsFirst(cs, keys, done, n - 1, c);
      assert Fresh(keys, done, n - 1) <==> keys[n - 1] !in done && keys[n - 1] !in keys[..n - 1];
    }
  }

  // ---------- one batch or two ----------

  lemma {:induction false} AcceptedOfPrefix(xs: seq<Candidate>, ys: seq<Candidate>, kx: seq<Key>, ky: seq<Key>,
                                            done: set<Key>, n: nat)
    requires n <= |xs| == |kx| && |ys| == |ky|
    ensures Accepted(xs + ys, kx + ky, done, n) == Accepted(xs, kx, done, n)
  {
    if n > 0 {
      AcceptedOfPrefix(xs, ys, kx, ky, done, n - 1);
      assert (kx + ky)[..n - 1] == kx[..n - 1];
    }
  }

  /** A key is fresh after a first batch exactly when it is fresh against that batch's accepted keys. */
  lemma FreshInSecondBatch(kx: seq<Key>, ky: seq<Key>, done: set<Key>, first: set<Key>, n: nat)
    requires n < |ky| && first == Elements(kx) - done
    ensures Fresh(kx + ky, done, |kx| + n) <==> Fresh(ky, done + first, n)
  {
    var k := ky[n];
    assert (kx + ky)[..|kx| + n] == kx + ky[..n];
    assert k in kx <==> k in Elements(kx);
  }

  lemma {:induction false} BatchesCompose(xs: seq<Candidate>, ys: seq<Candidate>, kx: seq<Key>, ky: seq<Key>,
                                          done: set<Key>, first: set<Key>, n: nat)
    requires n <= |ys| == |ky| && |xs| == |kx| && first == Elements(kx) - done
    ensures Accepted(xs + ys, kx + ky, done, |xs| + n) ==
            Accepted(xs, kx, done, |xs|) + Accepted(ys, ky, done + first, n)
  {
    if n == 0 {
      AcceptedOfPrefix(xs, ys, kx, ky, done, |xs|);
    } else {
      BatchesCompose(xs, ys, kx, ky, done, first, n - 1);
      FreshInSecondBatch(kx, ky, done, first, n - 1);
      assert (xs + ys)[|xs| + n - 1] == ys[n - 1];
    }
  }

  lemma NoNewConflict(c: set<Key>, f: set<Key>, first: set<Key>, all: set<Key>, later: set<Key>)
    requires c !! f && first == all - (c + f) && later == c + first
    ensures later !! f && later + f == (c + f) + first
  {
  }

  /** Deduplicating two batches at once accepts what deduplicating them in turn accepts, when the first
      batch's accepted candidates count as completed for the second; and no new conflict arises. */
  lemma OneBatchOrTwo(xs: seq<Candidate>, ys: seq<Candidate>, completed: seq<Candidate>, inFlight: seq<Candidate>,
                      d: Option<Declarations>, first: seq<Candidate>)
    requires Elements(Keys(completed, d)) !! Elements(Keys(inFlight, d))
    requires first == Accepted(xs, Keys(xs, d), Elements(Keys(completed, d)) + Elements(Keys(inFlight, d)), |xs|)
    ensures Elements(Keys(completed + first, d)) !! Elements(Keys(inFlight, d))
    ensures Accepted(xs + ys, Keys(xs + ys, d), Elements(Keys(completed, d)) + Elements(Keys(inFlight, d)),
                     |xs + ys|) ==
            first + Accepted(ys, Keys(ys, d), Elements(Keys(completed + first, d)) + Elements(Keys(inFlight, d)), |ys|)
  {
    var c, f := Elements(Keys(completed, d)), Elements(Keys(inFlight, d));
    var firstKeys, later := Elements(Keys(first, d)), Elements(Keys(completed + first, d));
    AcceptedExactly(xs, d, c + f);
    KeysAppend(completed, first, d);
    NoNewConflict(c, f, firstKeys, Elements(Keys(xs, d)), later);
    BatchesCompose(xs, ys, Keys(xs, d), Keys(ys, d), c + f, firstKeys, |ys|);
    KeysAppend(xs, ys, d);
    assert |xs + ys| == |xs| + |ys|;
  }
}
