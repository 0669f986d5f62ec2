/** The bodies published for a catalog, the update of all legacy bodies, and running it twice. */
module IssueTracker {
  import opened Ordering
  import opened Text
  import opened Roadmap
  import opened IssueBody
  import opened LegacyBlocks

  // ---------- published bodies ----------

  ghost predicate Numbered(keys: seq<string>, numbers: map<string, nat>) { forall k | k in keys :: k in numbers }

  function NumbersOf(keys: seq<string>, numbers: map<string, nat>): (r: seq<nat>)
    requires Numbered(keys, numbers)
    ensures |r| == |keys| && forall i | 0 <= i < |r| :: r[i] == numbers[keys[i]]
  {
    seq(|keys|, i requires 0 <= i < |keys| => assert keys[i] in keys; numbers[keys[i]])
  }

  ghost predicate AllNumbered(issues: seq<Issue>, numbers: map<string, nat>) {
    forall s | s in issues :: s.key in numbers && Numbered(s.dependencies, numbers)
  }

  /** No two issues share a number. */
  ghost predicate OneToOne(numbers: map<string, nat>) {
    forall k, l | k in numbers && l in numbers && numbers[k] == numbers[l] :: k == l
  }

  ghost predicate FreeOfLinks(preamble: string) { !Contains(preamble, BLOCKS) && Numbers(preamble) == {} }

  lemma BlockedAreNumbered(issues: seq<Issue>, blocks: map<string, seq<string>>, numbers: map<string, nat>, d: string)
    requires Reverses(blocks, EdgeList(issues)) && AllNumbered(issues, numbers)
    ensures Numbered(Blocked(blocks, d), numbers)
  {
    forall k | k in Blocked(blocks, d) ensures k in numbers {
      BlocksInvertDependencies(issues, blocks, d, k);
    }
  }

  /** The body published for one issue. */
  ghost function Published(issues: seq<Issue>, s: Issue, blocks: map<string, seq<string>>, numbers: map<string, nat>,
                           preamble: string, rest: string): string
    requires Reverses(blocks, EdgeList(issues)) && AllNumbered(issues, numbers) && s in issues
  {
    BlockedAreNumbered(issues, blocks, numbers, s.key);
    RenderBody(preamble, NumbersOf(s.dependencies, numbers), NumbersOf(Blocked(blocks, s.key), numbers), rest)
  }

  lemma NumberListed(keys: seq<string>, numbers: map<string, nat>, k: string)
    requires Numbered(keys, numbers) && OneToOne(numbers) && k in numbers
    ensures numbers[k] in Elements(NumbersOf(keys, numbers)) <==> k in keys
  {
    if numbers[k] in NumbersOf(keys, numbers) {
      var i :| 0 <= i < |keys| && NumbersOf(keys, numbers)[i] == numbers[k];
      assert keys[i] in keys;
    }
    if k in keys {
      var i :| 0 <= i < |keys| && keys[i] == k;
      assert NumbersOf(keys, numbers)[i] == numbers[k];
    }
  }

  /** The audit reads in a published body exactly the keys the issue depends on, legacy keys among them. */
  lemma BlockersAreRead(issues: seq<Issue>, s: Issue, blocks: map<string, seq<string>>, numbers: map<string, nat>,
                        preamble: string, rest: string, d: string)
    requires Reverses(blocks, EdgeList(issues)) && AllNumbered(issues, numbers) && OneToOne(numbers)
    requires s in issues && d in numbers && FreeOfLinks(preamble)
    ensures numbers[d] in AuditBlockedBy(Published(issues, s, blocks, numbers, preamble, rest)) <==> d in s.dependencies
  {
    BlockedAreNumbered(issues, blocks, numbers, s.key);
    AuditReadsRendering(preamble, NumbersOf(s.dependencies, numbers), NumbersOf(Blocked(blocks, s.key), numbers), rest);
    NumberListed(s.dependencies, numbers, d);
  }

  /** And exactly the issues that depend on it. */
  lemma DependantsAreRead(issues: seq<Issue>, d: Issue, blocks: map<string, seq<string>>, numbers: map<string, nat>,
                          preamble: string, rest: string, k: string)
    requires Reverses(blocks, EdgeList(issues)) && AllNumbered(issues, numbers) && OneToOne(numbers)
    requires d in issues && k in numbers && FreeOfLinks(preamble)
    ensures AuditBlocks(Published(issues, d, blocks, numbers, preamble, rest)).Some?
    ensures numbers[k] in AuditBlocks(Published(issues, d, blocks, numbers, preamble, rest)).value <==>
            exists s :: s in issues && s.key == k && d.key in s.dependencies
  {
    BlockedAreNumbered(issues, blocks, numbers, d.key);
    AuditReadsRendering(preamble, NumbersOf(d.dependencies, numbers), NumbersOf(Blocked(blocks, d.key), numbers), rest);
    NumberListed(Blocked(blocks, d.key), numbers, k);
    BlocksInvertDependencies(issues, blocks, d.key, k);
  }

  /** What the audit reads in the published bodies is the catalog's dependency relation, from both ends:
      `s` is blocked by `d` exactly when the body of `s` says so, exactly when the body of `d` says that
      it blocks `s`. */
  lemma PublishedLinksAreReciprocal(issues: seq<Issue>, s: Issue, d: Issue, blocks: map<string, seq<string>>,
                                    numbers: map<string, nat>, p: string, r: string, p': string, r': string)
    requires Reverses(blocks, EdgeList(issues)) && AllNumbered(issues, numbers) && OneToOne(numbers)
    requires Distinct(Keys(issues)) && s in issues && d in issues && FreeOfLinks(p) && FreeOfLinks(p')
    ensures numbers[d.key] in AuditBlockedBy(Published(issues, s, blocks, numbers, p, r)) <==> d.key in s.dependencies
    ensures AuditBlocks(Published(issues, d, blocks, numbers, p', r')).Some?
    ensures numbers[s.key] in AuditBlocks(Published(issues, d, blocks, numbers, p', r')).value <==>
            d.key in s.dependencies
  {
    BlockersAreRead(issues, s, blocks, numbers, p, r, d.key);
    DependantsAreRead(issues, d, blocks, numbers, p', r', s.key);
    forall x | x in issues && x.key == s.key ensures x == s { SameKeySameIssue(issues, s, x); }
  }

  // ---------- legacy bodies ----------

  /** The issue numbers of a key's new dependants. */
  function Children(blocks: map<string, seq<string>>, numbers: map<string, nat>, key: string): set<nat> {
    set k | k in Blocked(blocks, key) && k in numbers :: numbers[k]
  }

  /** What the whole update makes of one body. */
  ghost function Rewritten(body: string, children: set<nat>): string {
    if children == {} || UpdateBody(body, children).None? then body else UpdateBody(body, children).value
  }

  ghost predicate Editable(body: string, children: set<nat>) { children == {} || Search(body).Some? }

  ghost function AllRewritten(bodies: map<string, string>, blocks: map<string, seq<string>>,
                              numbers: map<string, nat>): (r: map<string, string>)
    ensures r.Keys == bodies.Keys
  {
    map k | k in bodies :: Rewritten(bodies[k], Children(blocks, numbers, k))
  }

  /** `bodies` with the given keys taken from `next`. */
  function Taking(bodies: map<string, string>, next: map<string, string>, keys: set<string>): map<string, string>
    requires next.Keys == bodies.Keys
  {
    map k | k in bodies :: if k in keys then next[k] else bodies[k]
  }

  function Differing(bodies: map<string, string>, next: map<string, string>, keys: set<string>): set<string>
    requires next.Keys == bodies.Keys
  {
    set k | k in keys && k in bodies && next[k] != bodies[k]
  }

  ghost function RewriteKeys(bodies: map<string, string>, keys: set<string>,
                             blocks: map<string, seq<string>>, numbers: map<string, nat>): map<string, string> {
    Taking(bodies, AllRewritten(bodies, blocks, numbers), keys)
  }

  /** The keys whose body the update really changes. */
  ghost function Touched(bodies: map<string, string>, keys: set<string>,
                         blocks: map<string, seq<string>>, numbers: map<string, nat>): set<string> {
    Differing(bodies, AllRewritten(bodies, blocks, numbers), keys)
  }

  lemma TakeOneMore(bodies: map<string, string>, next: map<string, string>, keys: set<string>, key: string)
    requires key !in keys && key in bodies && next.Keys == bodies.Keys
    ensures var before := Taking(bodies, next, keys);
            && before[key] == bodies[key]
            && Taking(bodies, next, keys + {key}) == before[key := next[key]]
            && (next[key] == bodies[key] ==> before[key := next[key]] == before)
  {
  }

  lemma DifferOneMore(bodies: map<string, string>, next: map<string, string>, keys: set<string>, key: string)
    requires key !in keys && key in bodies && next.Keys == bodies.Keys
    ensures |Differing(bodies, next, keys + {key})| ==
            |Differing(bodies, next, keys)| + if next[key] != bodies[key] then 1 else 0
  {
    var more := if next[key] != bodies[key] then {key} else {};
    assert Differing(bodies, next, keys + {key}) == Differing(bodies, next, keys) + more;
  }

  /** One `re.search` of a body, with the numbers its section lists. */
  method ReadSection(body: string) returns (m: Option<Section>, existing: set<nat>)
    ensures m == Search(body) && (m.Some? ==> existing == Existing(body))
  {
    m := Search(body);
    existing := {};
    if m.None? { return; }
    var lines := Lines(body[m.value.header..m.value.end]);
    for i := 0 to |lines|
      invariant existing == LinkNumbers(lines[..i])
    {
      assert lines[..i + 1] == lines[..i] + [lines[i]];
      LinkNumbersAppend(lines[..i], [lines[i]]);
      OneLine(lines[i]);
      if IsLink(lines[i]) { existing := existing + {LinkNumber(lines[i])}; }
    }
    assert lines[..|lines|] == lines;
  }

  lemma OneLine(line: string)
    ensures LinkNumbers([line]) == if IsLink(line) then {LinkNumber(line)} else {}
  {
    assert forall x :: x in [line] <==> x == line;
  }

  method RewriteBody(body: string, children: set<nat>) returns (r: Option<string>)
    ensures r == UpdateBody(body, children)
  {
    var m, existing := ReadSection(body);
    if m.None? { return None; }
    var merged := SortedListing(NatLess, existing + children);
    IncreasingUnique(NatLess, merged, SortedNumbers(existing + children));
    r := Some(body[..m.value.header] + Join("\n", LinkLines(merged)) + body[m.value.end..]);
  }

  /** The issue bodies on the tracker. */
  class Tracker {
    var bodies: map<string, string>

    /** The loop over legacy issues: it stops at the first one without an editable section, keeping the updates
        made so far. */
    method UpdateInTurn(legacy: seq<string>, blocks: map<string, seq<string>>, numbers: map<string, nat>)
      returns (changed: nat, failed: Option<string>, ghost done: nat)
      requires Distinct(legacy) && forall k | k in legacy :: k in bodies && Numbered(Blocked(blocks, k), numbers)
      modifies this
      ensures done <= |legacy|
      ensures bodies == RewriteKeys(old(bodies), Elements(legacy[..done]), blocks, numbers)
      ensures changed == |Touched(old(bodies), Elements(legacy[..done]), blocks, numbers)|
      ensures forall i | 0 <= i < done :: Editable(old(bodies)[legacy[i]], Children(blocks, numbers, legacy[i]))
      ensures failed.None? ==> done == |legacy|
      ensures failed.Some? ==> done < |legacy| && failed.value == legacy[done] &&
                               !Editable(old(bodies)[legacy[done]], Children(blocks, numbers, legacy[done]))
    {
      changed, done := 0, 0;
      assert RewriteKeys(bodies, {}, blocks, numbers) == bodies;
      for i := 0 to |legacy|
        invariant done == i
        invariant bodies == RewriteKeys(old(bodies), Elements(legacy[..i]), blocks, numbers)
        invariant changed == |Touched(old(bodies), Elements(legacy[..i]), blocks, numbers)|
        invariant forall j | 0 <= j < i :: Editable(old(bodies)[legacy[j]], Children(blocks, numbers, legacy[j]))
      {
        OneMoreKey(legacy, i);
        ghost var next := AllRewritten(old(bodies), blocks, numbers);
        TakeOneMore(old(bodies), next, Elements(legacy[..i]), legacy[i]);
        DifferOneMore(old(bodies), next, Elements(legacy[..i]), legacy[i]);
        var key := legacy[i];
        var children := Children(blocks, numbers, key);
        if children != {} {
          var updated := RewriteBody(bodies[key], children);
          if updated.None? { return changed, Some(key), i; }
          if updated.value != bodies[key] {
            bodies := bodies[key := updated.value];
            changed := changed + 1;
          }
        }
        done := i + 1;
      }
      failed := None;
    }

    /** `update_legacy_blocks`. After the run the section of every legacy body that was reached lists its old
        numbers and those of exactly the issues that depend on its key, and nothing else of it has changed. A
        body that no issue depends on is left alone and never stops the run. */
    method UpdateLegacyBlocks(issues: seq<Issue>, legacy: seq<string>, numbers: map<string, nat>)
      returns (changed: nat, failed: Option<string>, ghost done: nat)
      requires AllNumbered(issues, numbers) && Distinct(legacy) && forall k | k in legacy :: k in bodies
      modifies this
      ensures done <= |legacy| && bodies.Keys == old(bodies).Keys
      ensures forall k | k in bodies :: if k in legacy[..done]
                then Relinked(old(bodies)[k], bodies[k], Dependants(issues, numbers, k))
                else bodies[k] == old(bodies)[k]
      ensures changed == |set k | k in bodies && bodies[k] != old(bodies)[k]|
      ensures failed.None? ==> done == |legacy|
      ensures failed.Some? ==> done < |legacy| && failed.value == legacy[done] &&
                               Dependants(issues, numbers, failed.value) != {} &&
                               Search(old(bodies)[failed.value]).None?
    {
      var blocks := BlocksByKey(issues);
      forall k | k in legacy ensures Numbered(Blocked(blocks, k), numbers) {
        BlockedAreNumbered(issues, blocks, numbers, k);
      }
      changed, failed, done := UpdateInTurn(legacy, blocks, numbers);
      RunRelinks(old(bodies), legacy[..done], issues, blocks, numbers);
      if failed.Some? { ChildrenAreDependants(issues, blocks, numbers, failed.value); }
    }
  }

  /** The numbers of the issues that depend on a key. */
  ghost function Dependants(issues: seq<Issue>, numbers: map<string, nat>, key: string): set<nat>
    requires AllNumbered(issues, numbers)
  {
    set s | s in issues && key in s.dependencies :: numbers[s.key]
  }

  lemma ChildrenAreDependants(issues: seq<Issue>, blocks: map<string, seq<string>>, numbers: map<string, nat>,
                              key: string)
    requires Reverses(blocks, EdgeList(issues)) && AllNumbered(issues, numbers)
    ensures Children(blocks, numbers, key) == Dependants(issues, numbers, key)
  {
    forall n ensures n in Children(blocks, numbers, key) <==> n in Dependants(issues, numbers, key) {
      if k :| k in Blocked(blocks, key) && k in numbers && numbers[k] == n {
        BlocksInvertDependencies(issues, blocks, key, k);
      }
      if s :| s in issues && key in s.dependencies && numbers[s.key] == n {
        BlocksInvertDependencies(issues, blocks, key, s.key);
      }
    }
  }

  /** One body before and after: the section lists its old numbers and the new ones, sorted, each once, and the
      text around it is as before. */
  ghost predicate Relinked(before: string, after: string, more: set<nat>) {
    if more == {} then after == before
    else
      && Search(before).Some? && Search(after).Some?
      && var m, m' := Search(before).value, Search(after).value;
         && m'.start == m.start && m'.header == m.header
         && after[..m'.header] == before[..m.header] && after[m'.end..] == before[m.end..]
         && after[m'.header..m'.end] ==
            Join("\n", LinkLines(SortedNumbers(Numbers(before[m.header..m.end]) + more)))
  }

  lemma RewrittenIsRelinked(body: string, more: set<nat>)
    requires Editable(body, more)
    ensures Relinked(body, Rewritten(body, more), more)
  {
    if more != {} { UpdateIsExact(body, more); }
  }

  lemma RunRelinks(bodies: map<string, string>, keys: seq<string>, issues: seq<Issue>,
                   blocks: map<string, seq<string>>, numbers: map<string, nat>)
    requires Reverses(blocks, EdgeList(issues)) && AllNumbered(issues, numbers) && forall k | k in keys :: k in bodies
    requires forall i | 0 <= i < |keys| :: Editable(bodies[keys[i]], Children(blocks, numbers, keys[i]))
    ensures var after := RewriteKeys(bodies, Elements(keys), blocks, numbers);
            && after.Keys == bodies.Keys
            && (forall k | k in after :: if k in keys then Relinked(bodies[k], after[k], Dependants(issues, numbers, k))
                                         else after[k] == bodies[k])
            && Touched(bodies, Elements(keys), blocks, numbers) == set k | k in after && after[k] != bodies[k]
  {
    var after := RewriteKeys(bodies, Elements(keys), blocks, numbers);
    forall k | k in keys ensures Relinked(bodies[k], after[k], Dependants(issues, numbers, k)) {
      var i :| 0 <= i < |keys| && keys[i] == k;
      ChildrenAreDependants(issues, blocks, numbers, k);
      RewrittenIsRelinked(bodies[k], Children(blocks, numbers, k));
    }
  }

  lemma OneMoreKey(legacy: seq<string>, i: nat)
    requires Distinct(legacy) && i < |legacy|
    ensures legacy[i] !in Elements(legacy[..i])
    ensures Elements(legacy[..i + 1]) == Elements(legacy[..i]) + {legacy[i]}
  {
    assert legacy[..i + 1] == legacy[..i] + [legacy[i]];
  }

  /** A second run, reading the bodies the first one left, changes nothing and counts no change. */
  lemma SecondRunChangesNothing(bodies: map<string, string>, keys: set<string>,
                                blocks: map<string, seq<string>>, numbers: map<string, nat>)
    requires keys <= bodies.Keys
    requires forall k | k in keys :: Editable(bodies[k], Children(blocks, numbers, k))
    ensures var after := RewriteKeys(bodies, keys, blocks, numbers);
            && RewriteKeys(after, keys, blocks, numbers) == after
            && Touched(after, keys, blocks, numbers) == {}
            && forall k | k in keys :: Editable(after[k], Children(blocks, numbers, k))
  {
    var after := RewriteKeys(bodies, keys, blocks, numbers);
    forall k | k in keys
      ensures Rewritten(after[k], Children(blocks, numbers, k)) == after[k]
      ensures Editable(after[k], Children(blocks, numbers, k))
    {
      RewrittenTwice(bodies[k], Children(blocks, numbers, k));
    }
    var next := AllRewritten(after, blocks, numbers);
    assert forall k | k in keys :: next[k] == after[k];
    assert Taking(after, next, keys) == after;
  }

  lemma RewrittenTwice(body: string, children: set<nat>)
    requires Editable(body, children)
    ensures Rewritten(Rewritten(body, children), children) == Rewritten(body, children)
    ensures Editable(Rewritten(body, children), children)
  {
    if children != {} {
      UpdateAgain(body, children, children);
      UpdateIsExact(body, children);
    }
  }

  // ---------- the audit after a whole run ----------

  /** The audit of one legacy body finds no child missing. */
  ghost predicate LegacyPasses(body: string, children: set<nat>) {
    children == {} || (AuditLegacy(body).Some? && children <= AuditLegacy(body).value)
  }

  /** The audit can see the section of the body, or all its children above it. */
  ghost predicate LegacyReadable(body: string, children: set<nat>)
    requires Editable(body, children)
  {
    children == {} || !StopBetween(body, Search(body).value) || children <= AuditLegacy(body).value
  }

  /** After a run over legacy issues that can all be edited, the audit passes exactly those it can read. */
  lemma LegacyAuditAfterRun(bodies: map<string, string>, keys: set<string>, blocks: map<string, seq<string>>,
                            numbers: map<string, nat>, k: string)
    requires keys <= bodies.Keys && k in keys && Editable(bodies[k], Children(blocks, numbers, k))
    ensures LegacyPasses(RewriteKeys(bodies, keys, blocks, numbers)[k], Children(blocks, numbers, k)) <==>
            LegacyReadable(bodies[k], Children(blocks, numbers, k))
  {
    if Children(blocks, numbers, k) != {} { AuditAfterUpdate(bodies[k], Children(blocks, numbers, k)); }
  }

  /** Then a new issue that depends on a readable legacy issue is found in that issue's body. */
  lemma LegacyDependantsAreRead(issues: seq<Issue>, s: Issue, bodies: map<string, string>, keys: set<string>,
                                blocks: map<string, seq<string>>, numbers: map<string, nat>, k: string)
    requires Reverses(blocks, EdgeList(issues)) && AllNumbered(issues, numbers) && s in issues && k in s.dependencies
    requires keys <= bodies.Keys && k in keys && Editable(bodies[k], Children(blocks, numbers, k))
    requires LegacyReadable(bodies[k], Children(blocks, numbers, k))
    ensures var after := RewriteKeys(bodies, keys, blocks, numbers)[k];
            AuditLegacy(after).Some? && numbers[s.key] in AuditLegacy(after).value
  {
    BlocksInvertDependencies(issues, blocks, k, s.key);
    assert s.key in Blocked(blocks, k) && s.key in numbers;
    assert numbers[s.key] in Children(blocks, numbers, k);
    LegacyAuditAfterRun(bodies, keys, blocks, numbers, k);
  }
}
