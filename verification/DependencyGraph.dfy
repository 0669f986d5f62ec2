/** Depth-first cycle search over dependency graphs, and topological order. */
module DependencyGraph {
  import opened Ordering

  /** Each node's dependencies, in order. */
  type Graph = map<string, seq<string>>

  function Deps(g: Graph, n: string): seq<string> { if n in g then g[n] else [] }

  predicate Edge(g: Graph, a: string, b: string) { b in Deps(g, a) }

  // ---------- paths, cycles, order ----------

  ghost predicate IsWalk(g: Graph, w: seq<string>) {
    forall i | 0 <= i < |w| - 1 :: Edge(g, w[i], w[i + 1])
  }

  /** A closed walk of at least one edge. */
  ghost predicate IsCycle(g: Graph, w: seq<string>) {
    |w| >= 2 && IsWalk(g, w) && w[0] == w[|w| - 1]
  }

  ghost predicate OnCycle(g: Graph, n: string) {
    exists w :: IsCycle(g, w) && w[0] == n
  }

  ghost predicate Acyclic(g: Graph) { forall w :: !IsCycle(g, w) }

  ghost predicate Meets(w: seq<string>, s: set<string>) { exists n :: n in w && n in s }

  /** `s` holds only nodes of cycles, and at least one node of every cycle. */
  ghost predicate BreaksExactlyTheCycles(g: Graph, s: set<string>) {
    (forall n | n in s :: OnCycle(g, n)) && (forall w | IsCycle(g, w) :: Meets(w, s))
  }

  lemma NoneExactlyWhenAcyclic(g: Graph, s: set<string>)
    requires BreaksExactlyTheCycles(g, s)
    ensures s == {} <==> Acyclic(g)
  {
    if n :| n in s {
      var w :| IsCycle(g, w) && w[0] == n;
      assert !Acyclic(g);
    } else {
      forall w ensures !Meets(w, s) { }
    }
  }

  /** Every dependency of an entry is listed earlier, except those in `excused`. */
  ghost predicate Topological(g: Graph, order: seq<string>, excused: set<string>) {
    forall i | 0 <= i < |order| :: forall d | d in Deps(g, order[i]) && d !in excused :: d in order[..i]
  }

  /** Along a walk that avoids the excused nodes, positions in the order go down. */
  lemma {:induction false} WalkDescends(g: Graph, order: seq<string>, excused: set<string>, w: seq<string>, i: nat)
    requires Topological(g, order, excused) && IsWalk(g, w) && w != []
    requires i < |order| && order[i] == w[0] && forall j | 0 < j < |w| :: w[j] !in excused
    ensures exists k: nat :: k <= i && k < |order| && order[k] == w[|w| - 1] && (|w| >= 2 ==> k < i)
    decreases |w|
  {
    if |w| >= 2 {
      assert Edge(g, w[0], w[1]);
      assert w[1] in order[..i];
      var k: nat :| k < i && order[k] == w[1];
      var rest := w[1..];
      forall j | 0 <= j < |rest| - 1 ensures Edge(g, rest[j], rest[j + 1]) { assert Edge(g, w[j + 1], w[j + 2]); }
      WalkDescends(g, order, excused, rest, k);
    }
  }

  /** If an order covers all nodes, every cycle meets an excused node. */
  lemma CyclesMeetExcused(g: Graph, order: seq<string>, excused: set<string>, w: seq<string>)
    requires Topological(g, order, excused) && Distinct(order) && (forall n | n in g :: n in order)
    requires IsCycle(g, w)
    ensures Meets(w, excused)
  {
    if forall n | n in w :: n !in excused {
      assert Edge(g, w[0], w[1]);
      assert w[0] in g;
      var i: nat :| i < |order| && order[i] == w[0];
      WalkDescends(g, order, excused, w, i);
      assert false;
    }
  }

  lemma TopologicalIsAcyclic(g: Graph, order: seq<string>)
    requires Topological(g, order, {}) && Distinct(order) && forall n | n in g :: n in order
    ensures Acyclic(g)
  {
    forall w ensures !IsCycle(g, w) {
      if IsCycle(g, w) { CyclesMeetExcused(g, order, {}, w); }
    }
  }

  // ---------- what the search maintains ----------

  /** The nodes being visited form a walk from the root of the search. */
  ghost predicate StackOf(g: Graph, stack: seq<string>, visiting: set<string>) {
    Distinct(stack) && Elements(stack) == visiting && IsWalk(g, stack)
  }

  /** Between calls: finished nodes are listed in `order`, and only true cycle nodes are reported. */
  ghost predicate SearchState(g: Graph, visiting: set<string>, visited: set<string>,
                              order: seq<string>, reports: set<string>) {
    && Elements(order) == visited && Distinct(order) && visiting !! visited
    && Topological(g, order, reports)
    && (forall n | n in reports :: OnCycle(g, n))
  }

  /** Reaching a node that is being visited closes a cycle through it. */
  lemma BackEdgeClosesCycle(g: Graph, stack: seq<string>, visiting: set<string>, n: string)
    requires StackOf(g, stack, visiting) && n in visiting && Edge(g, stack[|stack| - 1], n)
    ensures OnCycle(g, n)
  {
    assert n in Elements(stack);
    var i :| 0 <= i < |stack| && stack[i] == n;
    var w := stack[i..] + [n];
    forall j | 0 <= j < |w| - 1 ensures Edge(g, w[j], w[j + 1]) {
      if j < |stack| - i - 1 { assert Edge(g, stack[i + j], stack[i + j + 1]); }
    }
    assert IsCycle(g, w) && w[0] == n;
  }

  lemma PushStack(g: Graph, stack: seq<string>, visiting: set<string>, n: string)
    requires StackOf(g, stack, visiting) && n !in visiting
    requires stack != [] ==> Edge(g, stack[|stack| - 1], n)
    ensures StackOf(g, stack + [n], visiting + {n})
  {
    var s := stack + [n];
    assert forall x :: x in stack ==> x in Elements(stack);
    assert Elements(s) == Elements(stack) + {n};
    forall i | 0 <= i < |s| - 1 ensures Edge(g, s[i], s[i + 1]) {
      if i < |stack| - 1 { assert Edge(g, stack[i], stack[i + 1]); }
    }
  }

  /** Each dependency of the node is finished or reported. */
  ghost predicate Settled(g: Graph, visited: set<string>, reports: set<string>, n: string) {
    forall d | d in Deps(g, n) :: d in visited || d in reports
  }

  /** A node finishes when each dependency is finished or reported. */
  lemma FinishNode(g: Graph, visiting: set<string>, visited: set<string>, order: seq<string>,
                   reports: set<string>, n: string)
    requires SearchState(g, visiting, visited, order, reports) && n in visiting
    requires Settled(g, visited, reports, n)
    ensures SearchState(g, visiting - {n}, visited + {n}, order + [n], reports)
  {
    var s := order + [n];
    assert forall x :: x in order <==> x in Elements(order);
    assert Elements(s) == Elements(order) + {n};
    forall i | 0 <= i < |s| ensures forall d | d in Deps(g, s[i]) && d !in reports :: d in s[..i] {
      if i < |order| { assert s[..i] == order[..i]; } else { assert s[..i] == order; }
    }
  }

  lemma MoreReports(g: Graph, order: seq<string>, r: set<string>, r': set<string>)
    requires Topological(g, order, r) && r <= r'
    ensures Topological(g, order, r')
  {
  }

  // ---------- exactly which nodes are reported ----------

  lemma OnStackIsOpen(stack: seq<string>, order: seq<string>, visiting: set<string>, visited: set<string>)
    requires Elements(stack) == visiting && Elements(order) == visited && visiting !! visited
    ensures forall x | x in stack :: x !in order
  {
    forall x | x in stack ensures x !in order {
      assert x in Elements(stack);
      assert x !in Elements(order);
    }
  }

  /** Some node depends on `n` although `n` does not finish before it. */
  ghost predicate AgainstOrder(g: Graph, order: seq<string>, n: string) {
    exists i: nat :: i < |order| && Edge(g, order[i], n) && n !in order[..i]
  }

  /** A node being visited depends on `n`, which stands below it on the stack or is that node. */
  ghost predicate BackOnStack(g: Graph, stack: seq<string>, n: string) {
    exists p: nat, q: nat :: p <= q < |stack| && stack[p] == n && Edge(g, stack[q], n)
  }

  /** Every report was caused by an edge back to a node that was being visited. */
  ghost predicate CausedByBackEdges(g: Graph, stack: seq<string>, order: seq<string>, reports: set<string>) {
    forall n | n in reports :: AgainstOrder(g, order, n) || BackOnStack(g, stack, n)
  }

  lemma CausesStay(g: Graph, stack: seq<string>, order: seq<string>, reports: set<string>, n: string)
    requires CausedByBackEdges(g, stack, order, reports)
    ensures CausedByBackEdges(g, stack + [n], order, reports)
  {
    forall x | x in reports ensures AgainstOrder(g, order, x) || BackOnStack(g, stack + [n], x) {
      if p: nat, q: nat :| p <= q < |stack| && stack[p] == x && Edge(g, stack[q], x) {
        assert (stack + [n])[p] == x && (stack + [n])[q] == stack[q];
      }
    }
  }

  lemma CauseOfReport(g: Graph, stack: seq<string>, order: seq<string>, reports: set<string>, n: string)
    requires CausedByBackEdges(g, stack, order, reports)
    requires stack != [] && n in stack && Edge(g, stack[|stack| - 1], n)
    ensures CausedByBackEdges(g, stack, order, reports + {n})
  {
    var p: nat :| p < |stack| && stack[p] == n;
    assert BackOnStack(g, stack, n);
  }

  lemma CausesFinish(g: Graph, stack: seq<string>, order: seq<string>, reports: set<string>)
    requires CausedByBackEdges(g, stack, order, reports) && stack != [] && forall x | x in stack :: x !in order
    ensures CausedByBackEdges(g, stack[..|stack| - 1], order + [stack[|stack| - 1]], reports)
  {
    var k := |stack| - 1;
    var after := order + [stack[k]];
    assert after[..|order|] == order;
    forall n | n in reports ensures AgainstOrder(g, after, n) || BackOnStack(g, stack[..k], n) {
      if i: nat :| i < |order| && Edge(g, order[i], n) && n !in order[..i] {
        assert after[i] == order[i] && after[..i] == order[..i];
      } else {
        var p: nat, q: nat :| p <= q < |stack| && stack[p] == n && Edge(g, stack[q], n);
        if q == k {
          assert after[|order|] == stack[k] && n in stack;
        } else {
          assert stack[..k][p] == n && stack[..k][q] == stack[q];
        }
      }
    }
  }

  /** At the end the reported nodes are those that some node depends on without their finishing before it. */
  lemma ReportsAreBackEdges(g: Graph, order: seq<string>, reports: set<string>, n: string)
    requires CausedByBackEdges(g, [], order, reports) && Topological(g, order, reports)
    ensures n in reports <==> AgainstOrder(g, order, n)
  {
  }

  // ---------- one error for each edge against the order ----------

  type Edges = seq<(string, string)>

  /** The errors name the targets of the edges, one each. */
  ghost predicate NamesTargets(errors: seq<string>, edges: Edges) {
    |errors| == |edges| && forall i | 0 <= i < |edges| :: errors[i] == edges[i].1
  }

  lemma NamesOneMore(errors: seq<string>, edges: Edges, u: string, n: string)
    requires NamesTargets(errors, edges)
    ensures NamesTargets(errors + [n], edges + [(u, n)])
  {
  }

  /** How often an edge from `u` to `n` is to be reported: as often as it is listed, unless `n` finishes first. */
  ghost function Due(g: Graph, before: seq<string>, u: string, n: string): nat {
    if n in before then 0 else multiset(Deps(g, u))[n]
  }

  /** The edges of finished nodes are reported as often as they are due, those of untouched nodes not at all. */
  ghost predicate Accounted(g: Graph, visiting: set<string>, visited: set<string>, order: seq<string>, edges: Edges) {
    && (forall i, n | 0 <= i < |order| :: multiset(edges)[(order[i], n)] == Due(g, order[..i], order[i], n))
    && (forall u, n | u !in visited && u !in visiting :: multiset(edges)[(u, n)] == 0)
  }

  /** The edges reported of nodes being visited are those from the top of the stack to `node`, if any. */
  ghost predicate OneMoreFromTop(visiting: set<string>, stack: seq<string>, node: string, before: Edges, after: Edges) {
    forall u, n | u in visiting ::
      multiset(after)[(u, n)] ==
      multiset(before)[(u, n)] +
      if node in visiting && stack != [] && u == stack[|stack| - 1] && n == node then 1 else 0
  }

  /** Of the dependencies looked at, those being visited are reported as often as they are listed. */
  ghost predicate Progress(visiting: set<string>, edges: Edges, node: string, done: seq<string>) {
    forall n :: multiset(edges)[(node, n)] == if n in visiting then multiset(done)[n] else 0
  }

  /** No edge from another node being visited has been reported meanwhile. */
  ghost predicate OthersStay(visiting: set<string>, node: string, before: Edges, after: Edges) {
    forall u, n | u in visiting && u != node :: multiset(after)[(u, n)] == multiset(before)[(u, n)]
  }

  /** No edge of this node has been reported. */
  ghost predicate NoneFrom(edges: Edges, node: string) { forall n :: multiset(edges)[(node, n)] == 0 }

  lemma ProgressStart(g: Graph, visiting: set<string>, visited: set<string>, errors: seq<string>, edges: Edges,
                      node: string, deps: seq<string>)
    requires NoneFrom(edges, node)
    ensures Followed(g, visiting, visited, errors, edges, edges, node, deps, 0)
  {
    assert deps[..0] == [];
  }

  lemma ProgressStep(visiting: set<string>, stack: seq<string>, start: Edges, before: Edges, after: Edges,
                     node: string, deps: seq<string>, i: nat)
    requires i < |deps| && Progress(visiting, before, node, deps[..i]) && OthersStay(visiting, node, start, before)
    requires node in visiting && stack != [] && stack[|stack| - 1] == node
    requires OneMoreFromTop(visiting, stack, deps[i], before, after) || (after == before && deps[i] !in visiting)
    ensures Progress(visiting, after, node, deps[..i + 1]) && OthersStay(visiting, node, start, after)
  {
    assert deps[..i + 1] == deps[..i] + [deps[i]];
    assert multiset(deps[..i + 1]) == multiset(deps[..i]) + multiset{deps[i]};
  }

  /** A dependency has been followed: it is unknown, finished, or being visited and reported. */
  ghost predicate Handled(g: Graph, visiting: set<string>, visited: set<string>, errors: seq<string>, d: string) {
    d in g ==> d in visited || (d in visiting && d in errors)
  }

  ghost predicate AllHandled(g: Graph, visiting: set<string>, visited: set<string>, errors: seq<string>,
                             deps: seq<string>) {
    forall d | d in deps :: Handled(g, visiting, visited, errors, d)
  }

  lemma HandledStep(g: Graph, visiting: set<string>, visited: set<string>, visited': set<string>,
                    errors: seq<string>, errors': seq<string>, deps: seq<string>, i: nat)
    requires i < |deps| && AllHandled(g, visiting, visited, errors, deps[..i])
    requires visited <= visited' && errors <= errors' && Handled(g, visiting, visited', errors', deps[i])
    ensures AllHandled(g, visiting, visited', errors', deps[..i + 1])
  {
    assert deps[..i + 1] == deps[..i] + [deps[i]];
  }

  /** The state of a search at some moment. */
  datatype Moment = Moment(
    stack: seq<string>, visiting: set<string>, visited: set<string>, errors: seq<string>, edges: Edges)

  /** Since then only more is finished, and more reported at the end. */
  ghost predicate Since(visited: set<string>, errors: seq<string>, visited': set<string>, errors': seq<string>) {
    visited <= visited' && errors <= errors'
  }

  /** The dependencies before `i` have been followed and reported as often as they should, and those only. */
  ghost predicate Followed(g: Graph, visiting: set<string>, visited: set<string>, errors: seq<string>, start: Edges,
                           edges: Edges, node: string, deps: seq<string>, i: nat)
    requires i <= |deps|
  {
    AllHandled(g, visiting, visited, errors, deps[..i]) && Progress(visiting, edges, node, deps[..i]) &&
    OthersStay(visiting, node, start, edges)
  }

  lemma FollowedNext(g: Graph, visiting: set<string>, stack: seq<string>, visited: set<string>, visited': set<string>,
                     errors: seq<string>, errors': seq<string>, start: Edges, before: Edges, after: Edges,
                     node: string, deps: seq<string>, i: nat)
    requires i < |deps| && Followed(g, visiting, visited, errors, start, before, node, deps, i)
    requires visited <= visited' && errors <= errors' && Handled(g, visiting, visited', errors', deps[i])
    requires node in visiting && stack != [] && stack[|stack| - 1] == node
    requires OneMoreFromTop(visiting, stack, deps[i], before, after) || (after == before && deps[i] !in visiting)
    ensures Followed(g, visiting, visited', errors', start, after, node, deps, i + 1)
  {
    HandledStep(g, visiting, visited, visited', errors, errors', deps, i);
    ProgressStep(visiting, stack, start, before, after, node, deps, i);
  }

  lemma FollowedAll(g: Graph, visiting: set<string>, visited: set<string>, errors: seq<string>, start: Edges,
                    edges: Edges, node: string, deps: seq<string>)
    requires Followed(g, visiting, visited, errors, start, edges, node, deps, |deps|)
    ensures AllHandled(g, visiting, visited, errors, deps) && Progress(visiting, edges, node, deps)
    ensures OthersStay(visiting, node, start, edges)
  {
    assert deps[..|deps|] == deps;
  }

  lemma KnownHandled(g: Graph, visiting: set<string>, visited: set<string>, errors: seq<string>, node: string)
    requires node in g && AllHandled(g, visiting, visited, errors, g[node])
    ensures forall d | d in Deps(Known(g), node) :: d in visited || (d in visiting && d in errors)
  {
    forall d | d in Deps(Known(g), node) ensures d in visited || (d in visiting && d in errors) {
      assert Handled(g, visiting, visited, errors, d);
    }
  }

  lemma KnownProgress(visiting: set<string>, edges: Edges, g: Graph, node: string)
    requires node in g && visiting <= g.Keys && Progress(visiting, edges, node, g[node])
    ensures Progress(visiting, edges, node, Deps(Known(g), node))
  {
    forall n ensures n in visiting ==> multiset(Deps(Known(g), node))[n] == multiset(g[node])[n] {
      KnownCounts(g[node], g.Keys, n);
    }
  }

  /** What a node reports while being visited is no report of the nodes below it. */
  lemma NothingFromBelow(stack: seq<string>, below: set<string>, visiting: set<string>, node: string, before: Edges,
                         after: Edges)
    requires visiting == below + {node} && node !in below && OthersStay(visiting, node, before, after)
    ensures OneMoreFromTop(below, stack, node, before, after)
  {
  }

  lemma AccountReport(g: Graph, stack: seq<string>, visiting: set<string>, visited: set<string>, order: seq<string>,
                      edges: Edges, node: string)
    requires Accounted(g, visiting, visited, order, edges) && Elements(order) == visited && visiting !! visited
    requires stack != [] && stack[|stack| - 1] in visiting && node in visiting
    ensures Accounted(g, visiting, visited, order, edges + [(stack[|stack| - 1], node)])
    ensures OneMoreFromTop(visiting, stack, node, edges, edges + [(stack[|stack| - 1], node)])
  {
    var u := stack[|stack| - 1];
    forall i | 0 <= i < |order| ensures order[i] != u { assert order[i] in Elements(order); }
  }

  lemma AccountEnter(g: Graph, visiting: set<string>, visited: set<string>, order: seq<string>, edges: Edges,
                     node: string)
    requires Accounted(g, visiting, visited, order, edges) && node !in visiting && node !in visited
    ensures Accounted(g, visiting + {node}, visited, order, edges)
    ensures NoneFrom(edges, node)
  {
  }

  /** Every dependency of the node is finished or being visited, and in the second case reported. */
  ghost predicate FullyReported(g: Graph, visiting: set<string>, visited: set<string>, edges: Edges, node: string) {
    (forall d | d in Deps(g, node) :: d in visited || d in visiting) && Progress(visiting, edges, node, Deps(g, node))
  }

  lemma AccountFinish(g: Graph, visiting: set<string>, visited: set<string>, order: seq<string>, edges: Edges,
                      node: string)
    requires Accounted(g, visiting, visited, order, edges) && Elements(order) == visited && visiting !! visited
    requires node in visiting && FullyReported(g, visiting, visited, edges, node)
    ensures Accounted(g, visiting - {node}, visited + {node}, order + [node], edges)
  {
    var after := order + [node];
    assert after[..|order|] == order;
    forall i, n | 0 <= i < |after| ensures multiset(edges)[(after[i], n)] == Due(g, after[..i], after[i], n) {
      if i < |order| {
        assert after[..i] == order[..i];
      } else {
        assert n in order <==> n in Elements(order);
        if n !in order && n !in visiting { assert n !in Deps(g, node); }
      }
    }
  }

  lemma {:induction false} KnownCounts(deps: seq<string>, known: set<string>, n: string)
    ensures multiset(KeepKnown(deps, known))[n] == if n in known then multiset(deps)[n] else 0
  {
    if deps != [] {
      KnownCounts(deps[1..], known, n);
      assert deps == [deps[0]] + deps[1..];
    }
  }

  // ---------- the marks both searches keep ----------

  lemma LeaveSearch(g: Graph, stack: seq<string>, visiting: set<string>, visited: set<string>, order: seq<string>,
                    reports: set<string>, node: string)
    requires StackOf(g, stack, visiting) && SearchState(g, visiting, visited, order, reports)
    requires CausedByBackEdges(g, stack, order, reports)
    requires stack != [] && stack[|stack| - 1] == node && Settled(g, visited, reports, node)
    ensures node in visiting && StackOf(g, stack[..|stack| - 1], visiting - {node})
    ensures SearchState(g, visiting - {node}, visited + {node}, order + [node], reports)
    ensures CausedByBackEdges(g, stack[..|stack| - 1], order + [node], reports)
  {
    PopStack(g, stack, visiting);
    OnStackIsOpen(stack, order, visiting, visited);
    CausesFinish(g, stack, order, reports);
    FinishNode(g, visiting, visited, order, reports, node);
  }

  lemma LeaveCount(g: Graph, visiting: set<string>, visited: set<string>, order: seq<string>, edges: Edges,
                   node: string)
    requires node in visiting && Elements(order) == visited && visiting !! visited
    ensures Accounted(g, visiting, visited, order, edges) && FullyReported(g, visiting, visited, edges, node) ==>
              Accounted(g, visiting - {node}, visited + {node}, order + [node], edges)
  {
    if Accounted(g, visiting, visited, order, edges) && FullyReported(g, visiting, visited, edges, node) {
      AccountFinish(g, visiting, visited, order, edges, node);
    }
  }

  /** The nodes being visited and those finished; the stack of the one and the order of the other. */
  class Marks {
    var visiting: set<string>
    var visited: set<string>
    ghost var stack: seq<string>
    ghost var order: seq<string>
    ghost var edges: Edges

    /** The reported edges are those due so far. */
    ghost predicate Counted(g: Graph)
      reads this
    {
      Accounted(g, visiting, visited, order, edges)
    }

    ghost predicate Sound(g: Graph, reports: set<string>)
      reads this
    {
      StackOf(g, stack, visiting) && SearchState(g, visiting, visited, order, reports) &&
      CausedByBackEdges(g, stack, order, reports)
    }

    /** A search of `g` may go to this node now. */
    ghost predicate Reachable(g: Graph, node: string)
      reads this
    {
      stack != [] ==> Edge(g, stack[|stack| - 1], node)
    }

    constructor ()
      ensures visiting == {} && visited == {} && stack == [] && order == [] && edges == []
    {
      visiting, visited := {}, {};
      stack, order, edges := [], [], [];
    }

    method Enter(ghost g: Graph, ghost reports: set<string>, node: string)
      requires Sound(g, reports) && Reachable(g, node) && node !in visiting && node !in visited
      modifies this
      ensures Sound(g, reports) && visited == old(visited) && order == old(order)
      ensures stack == old(stack) + [node] && visiting == old(visiting) + {node} && edges == old(edges)
      ensures old(Counted(g)) ==> Counted(g) && NoneFrom(edges, node)
    {
      if Counted(g) { AccountEnter(g, visiting, visited, order, edges, node); }
      PushStack(g, stack, visiting, node);
      CausesStay(g, stack, order, reports, node);
      visiting := visiting + {node};
      stack := stack + [node];
    }

    method Leave(ghost g: Graph, ghost reports: set<string>, node: string)
      requires Sound(g, reports) && stack != [] && stack[|stack| - 1] == node && Settled(g, visited, reports, node)
      modifies this
      ensures Sound(g, reports) && visited == old(visited) + {node} && order == old(order) + [node]
      ensures stack == old(stack)[..|old(stack)| - 1] && visiting == old(visiting) - {node} && edges == old(edges)
      ensures old(Counted(g) && FullyReported(g, visiting, visited, edges, node)) ==> Counted(g)
    {
      LeaveSearch(g, stack, visiting, visited, order, reports, node);
      LeaveCount(g, visiting, visited, order, edges, node);
      visiting := visiting - {node};
      visited := visited + {node};
      order := order + [node];
      stack := stack[..|stack| - 1];
    }

    lemma TopIsOpen(g: Graph, reports: set<string>)
      requires Sound(g, reports) && visiting != {}
      ensures stack != [] && stack[|stack| - 1] in visiting
    {
      StackNonempty(g, stack, visiting);
      assert stack[|stack| - 1] in Elements(stack);
    }

    /** Coming back to a node that is being visited closes a cycle, which may be reported. */
    lemma Reported(g: Graph, reports: set<string>, node: string)
      requires Sound(g, reports) && Reachable(g, node) && node in visiting
      ensures Sound(g, reports + {node})
    {
      TopIsOpen(g, reports);
      assert node in Elements(stack);
      CauseOfReport(g, stack, order, reports, node);
      BackEdgeClosesCycle(g, stack, visiting, node);
      MoreReports(g, order, reports, reports + {node});
    }

    /** The edge that is reported. */
    ghost method Record(g: Graph, reports: set<string>, node: string)
      requires Sound(g, reports) && Counted(g) && node in visiting
      modifies this`edges
      ensures Sound(g, reports) && Counted(g) && stack != []
      ensures edges == old(edges) + [(stack[|stack| - 1], node)]
      ensures OneMoreFromTop(visiting, stack, node, old(edges), edges)
    {
      TopIsOpen(g, reports);
      AccountReport(g, stack, visiting, visited, order, edges, node);
      edges := edges + [(stack[|stack| - 1], node)];
    }
  }

  // ---------- audit_post_v1.cycle_nodes ----------

  /** The state the nested `visit` shares with `cycle_nodes`. */
  class CycleSearch {
    const graph: Graph
    const marks: Marks
    var cycles: set<string>

    ghost predicate Valid()
      reads this, marks
    {
      marks.Sound(graph, cycles)
    }

    constructor (graph: Graph)
      ensures Valid() && this.graph == graph && fresh(marks)
      ensures marks.visiting == {} && marks.stack == []
    {
      this.graph := graph;
      marks := new Marks();
      cycles := {};
    }

    /** All nodes a search can reach: the keys and everything they name. */
    ghost function Universe(): set<string> {
      graph.Keys + set k, d | k in graph && d in graph[k] :: d
    }

    lemma EdgeStaysInside(a: string, b: string)
      requires Edge(graph, a, b)
      ensures b in Universe()
    {
    }

    method Report(key: string)
      requires Valid() && marks.Reachable(graph, key) && key in marks.visiting
      modifies this
      ensures Valid() && cycles == old(cycles) + {key}
    {
      marks.Reported(graph, cycles, key);
      cycles := cycles + {key};
    }

    method Visit(key: string)
      requires Valid() && key in Universe() && marks.Reachable(graph, key)
      modifies this, marks
      ensures Valid() && marks.stack == old(marks.stack) && marks.visiting == old(marks.visiting)
      ensures old(marks.visited) <= marks.visited && old(cycles) <= cycles
      ensures if key in marks.visiting then key in cycles else key in marks.visited
      decreases Universe() - marks.visiting - marks.visited, 0
    {
      if key in marks.visiting {
        Report(key);
        return;
      }
      if key in marks.visited { return; }
      assert key in Universe() - marks.visiting - marks.visited;
      marks.Enter(graph, cycles, key);
      assert key !in Universe() - marks.visiting - marks.visited;
      VisitDependencies(key);
      marks.Leave(graph, cycles, key);
      assert marks.visiting == old(marks.visiting);
      assert marks.stack == old(marks.stack);
    }

    /** `for dependency in graph.get(key, set()): visit(dependency)`. */
    method VisitDependencies(key: string)
      requires Valid() && marks.stack != [] && marks.stack[|marks.stack| - 1] == key
      modifies this, marks
      ensures Valid() && marks.stack == old(marks.stack) && marks.visiting == old(marks.visiting)
      ensures old(marks.visited) <= marks.visited && old(cycles) <= cycles
      ensures forall d | d in Deps(graph, key) :: d in marks.visited || d in cycles
      decreases Universe() - marks.visiting - marks.visited, 1
    {
      var dependencies := Deps(graph, key);
      for i := 0 to |dependencies|
        invariant Valid() && marks.stack == old(marks.stack) && marks.visiting == old(marks.visiting)
        invariant old(marks.visited) <= marks.visited && old(cycles) <= cycles
        invariant forall j | 0 <= j < i :: dependencies[j] in marks.visited || dependencies[j] in cycles
      {
        assert Edge(graph, key, dependencies[i]);
        EdgeStaysInside(key, dependencies[i]);
        Visit(dependencies[i]);
      }
    }

    /** `for key in graph: visit(key)`. */
    method VisitAll()
      requires Valid() && marks.stack == [] && marks.visiting == {}
      modifies this, marks
      ensures Valid() && marks.stack == [] && marks.visiting == {} && graph.Keys <= marks.visited
    {
      var todo := graph.Keys;
      while todo != {}
        invariant Valid() && marks.stack == [] && marks.visiting == {}
        invariant todo <= graph.Keys && graph.Keys - todo <= marks.visited
        decreases todo
      {
        var key :| key in todo;
        Visit(key);
        todo := todo - {key};
      }
    }
  }

  lemma PopStack(g: Graph, stack: seq<string>, visiting: set<string>)
    requires StackOf(g, stack, visiting) && stack != []
    ensures var n := |stack| - 1; stack[n] in visiting && StackOf(g, stack[..n], visiting - {stack[n]})
  {
    var n := |stack| - 1;
    assert stack[n] in Elements(stack);
    assert stack == stack[..n] + [stack[n]];
    assert forall x :: x in Elements(stack) <==> x in stack[..n] || x == stack[n];
    assert Elements(stack[..n]) == visiting - {stack[n]};
    forall i | 0 <= i < n - 1 ensures Edge(g, stack[..n][i], stack[..n][i + 1]) {
      assert Edge(g, stack[i], stack[i + 1]);
    }
  }

  lemma StackNonempty(g: Graph, stack: seq<string>, visiting: set<string>)
    requires StackOf(g, stack, visiting) && visiting != {}
    ensures stack != []
  {
    var n :| n in visiting;
    assert n in Elements(stack);
  }

  lemma SearchIsComplete(g: Graph, marks: Marks, reports: set<string>)
    requires marks.Sound(g, reports) && g.Keys <= marks.visited
    ensures BreaksExactlyTheCycles(g, reports)
  {
    forall w | IsCycle(g, w) ensures Meets(w, reports) {
      assert forall n | n in g :: n in Elements(marks.order);
      CyclesMeetExcused(g, marks.order, reports, w);
    }
  }

  /** `cycle_nodes`: every reported node lies on a cycle, every cycle contains a reported node, so
      nothing is reported exactly on acyclic graphs; the finishing order puts every dependency that
      is not reported before its dependant. */
  method CycleNodes(graph: Graph) returns (cycles: seq<string>, ghost order: seq<string>)
    ensures Increasing(StrLess, cycles) && BreaksExactlyTheCycles(graph, Elements(cycles))
    ensures cycles == [] <==> Acyclic(graph)
    ensures Distinct(order) && graph.Keys <= Elements(order)
    ensures forall n :: n in cycles <==> AgainstOrder(graph, order, n)
  {
    var search := new CycleSearch(graph);
    search.VisitAll();
    SearchIsComplete(graph, search.marks, search.cycles);
    NoneExactlyWhenAcyclic(graph, search.cycles);
    StrLessTotal();
    cycles := SortedListing(StrLess, search.cycles);
    order := search.marks.order;
    forall n ensures n in cycles <==> AgainstOrder(graph, order, n) {
      ReportsAreBackEdges(graph, order, search.cycles, n);
      assert n in cycles <==> n in Elements(cycles);
    }
  }

  function KeepKnown(deps: seq<string>, known: set<string>): (r: seq<string>)
    ensures forall d :: d in r <==> d in deps && d in known
  {
    if deps == [] then []
    else (if deps[0] in known then [deps[0]] else []) + KeepKnown(deps[1..], known)
  }

  /** The edges the validator follows: those to milestones that exist. */
  function Known(g: Graph): Graph { map n | n in g :: KeepKnown(g[n], g.Keys) }

  /** Dropping unknown targets loses no cycle. */
  lemma KnownKeepsCycles(g: Graph, w: seq<string>)
    ensures IsCycle(Known(g), w) <==> IsCycle(g, w)
  {
    forall i | 0 <= i < |w| - 1 && IsCycle(g, w) ensures Edge(Known(g), w[i], w[i + 1]) {
      assert Edge(g, w[i], w[i + 1]);
      if i + 1 < |w| - 1 { assert Edge(g, w[i + 1], w[i + 2]); } else { assert Edge(g, w[0], w[1]); }
    }
    forall i | 0 <= i < |w| - 1 && IsCycle(Known(g), w) ensures Edge(g, w[i], w[i + 1]) {
      assert Edge(Known(g), w[i], w[i + 1]);
    }
  }

  /** The state the nested `visit` shares with `_validate_dependency_graph`. */
  class MilestoneSearch {
    const milestones: Graph
    const marks: Marks
    var errors: seq<string>

    ghost predicate Valid()
      reads this, marks
    {
      && marks.Sound(Known(milestones), Elements(errors)) && marks.Counted(Known(milestones))
      && marks.visiting <= milestones.Keys && NamesTargets(errors, marks.edges)
    }

    constructor (milestones: Graph)
      ensures Valid() && this.milestones == milestones && fresh(marks)
      ensures marks.visiting == {} && marks.stack == []
    {
      this.milestones := milestones;
      marks := new Marks();
      errors := [];
    }

    method Err(node: string)
      requires Valid() && marks.Reachable(Known(milestones), node) && node in marks.visiting
      modifies this`errors, marks`edges
      ensures Valid() && errors == old(errors) + [node]
      ensures OneMoreFromTop(marks.visiting, marks.stack, node, old(marks.edges), marks.edges)
    {
      marks.Reported(Known(milestones), Elements(errors), node);
      assert Elements(errors + [node]) == Elements(errors) + {node};
      marks.Record(Known(milestones), Elements(errors + [node]), node);
      NamesOneMore(errors, old(marks.edges), marks.stack[|marks.stack| - 1], node);
      errors := errors + [node];
    }

    /** When all dependencies have been followed the node may be left. */
    lemma MayLeave(node: string, stack: seq<string>, below: set<string>, before: Edges)
      requires Valid() && node in milestones && marks.visiting == below + {node} && node !in below
      requires Followed(milestones, marks.visiting, marks.visited, errors, before, marks.edges, node, milestones[node],
                        |milestones[node]|)
      ensures Settled(Known(milestones), marks.visited, Elements(errors), node)
      ensures FullyReported(Known(milestones), marks.visiting, marks.visited, marks.edges, node)
      ensures OneMoreFromTop(below, stack, node, before, marks.edges)
    {
      FollowedAll(milestones, marks.visiting, marks.visited, errors, before, marks.edges, node, milestones[node]);
      NothingFromBelow(stack, below, marks.visiting, node, before, marks.edges);
      KnownHandled(milestones, marks.visiting, marks.visited, errors, node);
      KnownProgress(marks.visiting, marks.edges, milestones, node);
    }

    method Visit(node: string)
      requires Valid() && node in milestones && marks.Reachable(Known(milestones), node)
      modifies this, marks
      ensures Valid() && marks.stack == old(marks.stack) && marks.visiting == old(marks.visiting)
      ensures old(marks.visited) <= marks.visited && old(errors) <= errors
      ensures if node in marks.visiting then node in errors else node in marks.visited
      ensures OneMoreFromTop(marks.visiting, marks.stack, node, old(marks.edges), marks.edges)
      decreases milestones.Keys - marks.visiting - marks.visited, 0
    {
      if node in marks.visiting {
        Err(node);
        return;
      }
      if node in marks.visited { return; }
      assert node in milestones.Keys - marks.visiting - marks.visited;
      marks.Enter(Known(milestones), Elements(errors), node);
      assert node !in milestones.Keys - marks.visiting - marks.visited;
      VisitDependencies(node);
      MayLeave(node, old(marks.stack), old(marks.visiting), old(marks.edges));
      assert marks.visiting - {node} == old(marks.visiting);
      assert marks.stack[..|marks.stack| - 1] == old(marks.stack);
      marks.Leave(Known(milestones), Elements(errors), node);
    }

    /** `if dependency in milestones: visit(dependency)`. */
    method VisitIfKnown(node: string, dependency: string)
      requires Valid() && node in milestones && dependency in milestones[node]
      requires marks.stack != [] && marks.stack[|marks.stack| - 1] == node
      modifies this, marks
      ensures Valid() && marks.stack == old(marks.stack) && marks.visiting == old(marks.visiting)
      ensures old(marks.visited) <= marks.visited && old(errors) <= errors
      ensures Handled(milestones, marks.visiting, marks.visited, errors, dependency)
      ensures OneMoreFromTop(marks.visiting, marks.stack, dependency, old(marks.edges), marks.edges) ||
              (marks.edges == old(marks.edges) && dependency !in marks.visiting)
      decreases milestones.Keys - marks.visiting - marks.visited, 1
    {
      if dependency in milestones {
        assert Edge(Known(milestones), node, dependency);
        Visit(dependency);
      }
    }

    /** `for dependency in ...: if dependency in milestones: visit(dependency)`. */
    method VisitDependencies(node: string)
      requires Valid() && node in milestones && marks.stack != [] && marks.stack[|marks.stack| - 1] == node
      requires NoneFrom(marks.edges, node)
      modifies this, marks
      ensures Valid() && marks.stack == old(marks.stack) && marks.visiting == old(marks.visiting)
      ensures Since(old(marks.visited), old(errors), marks.visited, errors)
      ensures Followed(milestones, marks.visiting, marks.visited, errors, old(marks.edges), marks.edges, node,
                       milestones[node], |milestones[node]|)
      decreases milestones.Keys - marks.visiting - marks.visited, 3
    {
      var dependencies := milestones[node];
      ProgressStart(milestones, marks.visiting, marks.visited, errors, marks.edges, node, dependencies);
      ghost var at := Moment(marks.stack, marks.visiting, marks.visited, errors, marks.edges);
      for i := 0 to |dependencies|
        invariant Valid() && At(at, node, i)
      {
        FollowNext(node, dependencies, i, at);
      }
    }

    /** The first `i` dependencies of the node on top have been followed since then. */
    ghost predicate At(at: Moment, node: string, i: nat)
      reads this, marks
    {
      && node in milestones && i <= |milestones[node]|
      && marks.stack == at.stack && marks.visiting == at.visiting
      && at.stack != [] && at.stack[|at.stack| - 1] == node
      && Since(at.visited, at.errors, marks.visited, errors)
      && Followed(milestones, marks.visiting, marks.visited, errors, at.edges, marks.edges, node, milestones[node], i)
    }

    /** One turn of that loop. */
    method FollowNext(node: string, dependencies: seq<string>, i: nat, ghost at: Moment)
      requires Valid() && At(at, node, i) && dependencies == milestones[node] && i < |dependencies|
      modifies this, marks
      ensures Valid() && At(at, node, i + 1) && old(marks.visited) <= marks.visited
      decreases milestones.Keys - marks.visiting - marks.visited, 2
    {
      assert node in Elements(marks.stack);
      VisitIfKnown(node, dependencies[i]);
      FollowedNext(milestones, marks.visiting, marks.stack, old(marks.visited), marks.visited, old(errors), errors,
                   at.edges, old(marks.edges), marks.edges, node, dependencies, i);
    }

    /** `for milestone_id in milestones: visit(milestone_id)`. */
    method VisitAll()
      requires Valid() && marks.stack == [] && marks.visiting == {}
      modifies this, marks
      ensures Valid() && marks.stack == [] && marks.visiting == {} && milestones.Keys <= marks.visited
    {
      var todo := milestones.Keys;
      while todo != {}
        invariant Valid() && marks.stack == [] && marks.visiting == {}
        invariant todo <= milestones.Keys && milestones.Keys - todo <= marks.visited
        decreases todo
      {
        var node :| node in todo;
        Visit(node);
        todo := todo - {node};
      }
    }
  }

  /** `_validate_dependency_graph`: the milestones named in "cycle" errors, in the order raised. */
  method ValidateDependencyGraph(milestones: Graph)
    returns (errors: seq<string>, ghost order: seq<string>, ghost edges: Edges)
    ensures BreaksExactlyTheCycles(milestones, Elements(errors))
    ensures errors == [] <==> Acyclic(milestones)
    ensures Distinct(order) && milestones.Keys <= Elements(order)
    ensures ReportsAgainst(milestones, order, errors)
    ensures NamesTargets(errors, edges) && EdgesAgainst(milestones, order, edges)
  {
    var search := new MilestoneSearch(milestones);
    search.VisitAll();
    errors, order, edges := search.errors, search.marks.order, search.marks.edges;
    AllBroken(search);
    AllAccounted(search);
    AllAgainstOrder(search);
  }

  /** The milestones reported are those that one depends on without their finishing before it. */
  ghost predicate ReportsAgainst(g: Graph, order: seq<string>, errors: seq<string>) {
    forall n :: n in errors <==> n in g && AgainstOrder(g, order, n)
  }

  /** The edges are the dependencies on milestones that do not finish first, as often as they are listed. */
  ghost predicate EdgesAgainst(g: Graph, order: seq<string>, edges: Edges) {
    && (forall e | e in edges :: e.0 in order)
    && (forall i, n | 0 <= i < |order| ::
          multiset(edges)[(order[i], n)] == if n in g && n !in order[..i] then multiset(Deps(g, order[i]))[n] else 0)
  }

  lemma AllBroken(search: MilestoneSearch)
    requires search.Valid() && search.milestones.Keys <= search.marks.visited
    ensures BreaksExactlyTheCycles(search.milestones, Elements(search.errors))
    ensures search.errors == [] <==> Acyclic(search.milestones)
    ensures Distinct(search.marks.order) && search.milestones.Keys <= Elements(search.marks.order)
  {
    SearchIsComplete(Known(search.milestones), search.marks, Elements(search.errors));
    KnownBreaksTheCycles(search.milestones, Elements(search.errors));
    NoneExactlyWhenAcyclic(search.milestones, Elements(search.errors));
    assert search.errors != [] ==> search.errors[0] in Elements(search.errors);
  }

  lemma AllAgainstOrder(search: MilestoneSearch)
    requires search.Valid() && search.marks.stack == []
    ensures ReportsAgainst(search.milestones, search.marks.order, search.errors)
  {
    var errors, order := search.errors, search.marks.order;
    forall n ensures n in errors <==> n in search.milestones && AgainstOrder(search.milestones, order, n) {
      ReportsAreBackEdges(Known(search.milestones), order, Elements(errors), n);
      AgainstKnown(search.milestones, order, n);
      assert n in errors <==> n in Elements(errors);
    }
  }

  lemma AllAccounted(search: MilestoneSearch)
    requires search.Valid() && search.marks.visiting == {}
    ensures NamesTargets(search.errors, search.marks.edges)
    ensures EdgesAgainst(search.milestones, search.marks.order, search.marks.edges)
  {
    var order, edges, g := search.marks.order, search.marks.edges, search.milestones;
    forall e | e in edges ensures e.0 in order { EdgeIsListed(search, e); }
    forall i, n | 0 <= i < |order|
      ensures multiset(edges)[(order[i], n)] ==
              if n in g && n !in order[..i] then multiset(Deps(g, order[i]))[n] else 0
    {
      KnownDeps(g, order[i], n);
    }
  }

  lemma KnownDeps(g: Graph, u: string, n: string)
    ensures multiset(Deps(Known(g), u))[n] == if n in g then multiset(Deps(g, u))[n] else 0
  {
    if u in g { KnownCounts(g[u], g.Keys, n); }
  }

  lemma EdgeIsListed(search: MilestoneSearch, e: (string, string))
    requires search.Valid() && search.marks.visiting == {} && e in search.marks.edges
    ensures e.0 in search.marks.order
  {
    assert multiset(search.marks.edges)[(e.0, e.1)] > 0;
    assert e.0 in Elements(search.marks.order);
  }

  /** Among known milestones the edges followed are all the edges. */
  lemma AgainstKnown(g: Graph, order: seq<string>, n: string)
    ensures AgainstOrder(Known(g), order, n) <==> n in g && AgainstOrder(g, order, n)
  {
    forall u ensures Edge(Known(g), u, n) <==> Edge(g, u, n) && n in g {}
  }

  lemma KnownBreaksTheCycles(g: Graph, s: set<string>)
    requires BreaksExactlyTheCycles(Known(g), s)
    ensures BreaksExactlyTheCycles(g, s)
  {
    forall n | n in s ensures OnCycle(g, n) {
      var w :| IsCycle(Known(g), w) && w[0] == n;
      KnownKeepsCycles(g, w);
    }
    forall w | IsCycle(g, w) ensures Meets(w, s) { KnownKeepsCycles(g, w); }
  }
}
