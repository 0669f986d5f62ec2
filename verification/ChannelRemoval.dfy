/** Removing channels: what is left, where it stands, and removing them one by one. */
module ChannelRemoval {
  import opened Ordering

  /** `removed == tuple(sorted(set(removed)))`, inside the width, and not all of it. */
  predicate CanRemove(width: nat, removed: seq<int>) {
    && removed != [] && (forall i | 0 < i < |removed| :: removed[i - 1] < removed[i])
    && 0 <= removed[0] && removed[|removed| - 1] < width && |removed| < width
  }

  /** The lists accepted are those of some, but not all, of the channels in increasing order. */
  lemma CanRemoveMeans(width: nat, removed: seq<int>)
    ensures CanRemove(width, removed) <==>
            && removed != [] && (forall c | c in removed :: 0 <= c < width)
            && (forall i, j | 0 <= i < j < |removed| :: removed[i] < removed[j])
            && exists c :: 0 <= c < width && c !in removed
  {
    if removed != [] && forall i | 0 < i < |removed| :: removed[i - 1] < removed[i] {
      Ascends(removed);
      var last := |removed| - 1;
      assert removed[0] in removed && removed[last] in removed;
      if 0 <= removed[0] && removed[last] < width {
        forall c | c in removed ensures 0 <= c < width {
          var i :| 0 <= i <= last && removed[i] == c;
        }
        SomeLeft(width, removed);
      }
    }
  }

  lemma {:induction false} Ascends(xs: seq<int>)
    requires forall i | 0 < i < |xs| :: xs[i - 1] < xs[i]
    ensures forall i, j | 0 <= i < j < |xs| :: xs[i] < xs[j]
  {
    if |xs| > 1 {
      var n := |xs| - 1;
      Ascends(xs[..n]);
      forall i, j | 0 <= i < j < |xs| ensures xs[i] < xs[j] {
        if j == n && i < n - 1 { assert xs[..n][i] < xs[..n][n - 1]; }
        else if j < n { assert xs[..n][i] < xs[..n][j]; }
      }
    }
  }

  lemma SomeLeft(width: nat, removed: seq<int>)
    requires (forall i, j | 0 <= i < j < |removed| :: removed[i] < removed[j])
    requires forall c | c in removed :: 0 <= c < width
    ensures |removed| < width <==> exists c :: 0 <= c < width && c !in removed
  {
    var all, gone := Range(width), Elements(removed);
    IncreasingSize(removed);
    forall c | c in gone ensures c in all { assert c in removed; }
    if |removed| < width {
      assert all == gone + (all - gone);
      assert all - gone != {};
      var c :| c in all - gone;
      assert c !in removed;
    } else {
      SubsetOfSize(gone, all);
      forall c | 0 <= c < width ensures c in removed { assert c in all && c in gone; }
    }
  }

  ghost function Range(width: nat): (r: set<int>)
    ensures (forall c :: c in r <==> 0 <= c < width) && |r| == width
  {
    if width == 0 then {} else Range(width - 1) + {width - 1}
  }

  lemma {:induction false} IncreasingSize(xs: seq<int>)
    requires forall i, j | 0 <= i < j < |xs| :: xs[i] < xs[j]
    ensures |Elements(xs)| == |xs|
  {
    if xs != [] {
      var n := |xs| - 1;
      IncreasingSize(xs[..n]);
      assert xs == xs[..n] + [xs[n]];
      assert Elements(xs) == Elements(xs[..n]) + {xs[n]};
      assert xs[n] !in xs[..n];
    }
  }

  lemma SubsetOfSize(part: set<int>, all: set<int>)
    requires part <= all && |part| >= |all|
    ensures part == all
  {
    assert all == part + (all - part);
    assert |all| == |part| + |all - part|;
  }

  /** A repeated channel is never canonical. */
  lemma TwiceIsRefused(width: nat, c: int)
    ensures !CanRemove(width, [c, c])
  {
    assert [c, c][0] == [c, c][1];
  }

  // ---------- removing channels one after another ----------

  function RemoveAt<T>(xs: seq<T>, i: nat): (r: seq<T>)
    requires i < |xs|
    ensures |r| == |xs| - 1
  {
    xs[..i] + xs[i + 1..]
  }

  /** `original - int(selected < original)`: where a channel stands once another is gone. */
  function Remap(original: nat, removed: nat): nat {
    if removed < original then original - 1 else original
  }

  /** The entries whose index is not in `gone`, in order. */
  function Without<T>(xs: seq<T>, gone: set<int>): seq<T> {
    if xs == [] then []
    else if |xs| - 1 in gone then Without(xs[..|xs| - 1], gone)
    else Without(xs[..|xs| - 1], gone) + [xs[|xs| - 1]]
  }

  lemma {:induction false} WithoutAgrees<T>(xs: seq<T>, s: set<int>, t: set<int>)
    requires forall i: nat | i < |xs| :: i in s <==> i in t
    ensures Without(xs, s) == Without(xs, t)
  {
    if xs != [] { WithoutAgrees(xs[..|xs| - 1], s, t); }
  }

  /** `moved` holds the new places of the other members of `gone` once `o` is removed. */
  ghost predicate Renumbers(width: nat, o: nat, gone: set<int>, moved: set<int>) {
    forall i: nat | i < width && i != o :: i in gone <==> Remap(i, o) in moved
  }

  /** Removing one channel and then the renumbered rest is removing them all. */
  lemma {:induction false} RemoveThenRest<T>(xs: seq<T>, o: nat, gone: set<int>, moved: set<int>)
    requires o < |xs| && o in gone && Renumbers(|xs|, o, gone, moved)
    ensures Without(RemoveAt(xs, o), moved) == Without(xs, gone)
  {
    var n := |xs| - 1;
    if o == n {
      assert RemoveAt(xs, o) == xs[..n];
      WithoutAgrees(xs[..n], moved, gone);
    } else {
      assert RemoveAt(xs, o) == RemoveAt(xs[..n], o) + [xs[n]];
      assert RemoveAt(xs, o)[..n - 1] == RemoveAt(xs[..n], o);
      assert Remap(n, o) == n - 1;
      RemoveThenRest(xs[..n], o, gone, moved);
    }
  }

  function RemapAll(os: seq<nat>, o: nat): (r: seq<nat>)
    ensures |r| == |os| && forall i | 0 <= i < |os| :: r[i] == Remap(os[i], o)
  {
    seq(|os|, i requires 0 <= i < |os| => Remap(os[i], o))
  }

  predicate Removable(os: seq<nat>, width: nat) { Distinct(os) && forall o | o in os :: o < width }

  lemma RemapKeepsDistinct(os: seq<nat>, o: nat, width: nat)
    requires Removable(os, width) && o !in os && o < width
    ensures Removable(RemapAll(os, o), width - 1)
  {
    forall i, j | 0 <= i < j < |os| ensures Remap(os[i], o) != Remap(os[j], o) {
      assert os[i] in os && os[j] in os;
    }
    forall x | x in RemapAll(os, o) ensures x < width - 1 {
      var i :| 0 <= i < |os| && x == Remap(os[i], o);
      assert os[i] in os;
    }
  }

  /** Remove original channels in turn, renumbering those still to come after each step. */
  function RemoveInTurn<T>(xs: seq<T>, os: seq<nat>): seq<T>
    requires Removable(os, |xs|)
    decreases |os|
  {
    if os == [] then xs
    else
      assert os[0] in os;
      assert Removable(os[1..], |xs|) && os[0] !in os[1..] by { assert forall x | x in os[1..] :: x in os; }
      RemapKeepsDistinct(os[1..], os[0], |xs|);
      RemoveInTurn(RemoveAt(xs, os[0]), RemapAll(os[1..], os[0]))
  }

  /** However many channels go and in whatever order, what is left is the channels outside the set. */
  lemma {:induction false} RemoveInTurnIsOneShot<T>(xs: seq<T>, os: seq<nat>)
    requires Removable(os, |xs|)
    ensures RemoveInTurn(xs, os) == Without(xs, Elements(os))
    decreases |os|
  {
    if os == [] {
      assert Elements(os) == {};
      WithoutNothing(xs);
    } else {
      var o, rest := os[0], os[1..];
      assert o in os;
      assert Removable(rest, |xs|) && o !in rest by { assert forall x | x in rest :: x in os; }
      RemapKeepsDistinct(rest, o, |xs|);
      RemoveInTurnIsOneShot(RemoveAt(xs, o), RemapAll(rest, o));
      assert os == [o] + rest;
      forall i: nat | i < |xs| && i != o ensures i in Elements(os) <==> Remap(i, o) in Elements(RemapAll(rest, o)) {
        RemapMembers(rest, o, i);
      }
      RemoveThenRest(xs, o, Elements(os), Elements(RemapAll(rest, o)));
    }
  }

  lemma RemapMembers(rest: seq<nat>, o: nat, i: nat)
    requires o !in rest && i != o
    ensures i in Elements(rest) <==> Remap(i, o) in Elements(RemapAll(rest, o))
  {
    if i in rest {
      var j :| 0 <= j < |rest| && rest[j] == i;
      assert RemapAll(rest, o)[j] == Remap(i, o);
    }
    if Remap(i, o) in RemapAll(rest, o) {
      var j :| 0 <= j < |rest| && RemapAll(rest, o)[j] == Remap(i, o);
      assert rest[j] in rest;
    }
  }

  lemma {:induction false} WithoutNothing<T>(xs: seq<T>)
    ensures Without(xs, {}) == xs
  {
    if xs != [] { WithoutNothing(xs[..|xs| - 1]); }
  }

  /** The study's two steps: removing the selected channel and then the renumbered other one leaves what
      the one-shot removal leaves, whichever goes first. */
  lemma TwoStepsAreOneShot<T>(xs: seq<T>, s: nat, o: nat)
    requires s < |xs| && o < |xs| && s != o
    ensures RemoveAt(RemoveAt(xs, s), Remap(o, s)) == Without(xs, {s, o})
    ensures RemoveAt(RemoveAt(xs, o), Remap(s, o)) == Without(xs, {s, o})
  {
    InThisOrder(xs, s, o, {s, o});
    InThisOrder(xs, o, s, {s, o});
  }

  lemma InThisOrder<T>(xs: seq<T>, first: nat, second: nat, gone: set<int>)
    requires first < |xs| && second < |xs| && first != second && gone == {first, second}
    ensures RemoveAt(RemoveAt(xs, first), Remap(second, first)) == Without(xs, gone)
  {
    var moved := {Remap(second, first)};
    RemoveOne(RemoveAt(xs, first), Remap(second, first), moved);
    forall i: nat | i < |xs| && i != first ensures i in gone <==> Remap(i, first) in moved {}
    RemoveThenRest(xs, first, gone, moved);
  }

  lemma RemoveOne<T>(xs: seq<T>, i: nat, gone: set<int>)
    requires i < |xs| && gone == {i}
    ensures Without(xs, gone) == RemoveAt(xs, i)
  {
    RemoveThenRest(xs, i, gone, {});
    WithoutNothing(RemoveAt(xs, i));
  }

  // ---------- where the kept channels end up ----------

  /** `removed_before`: the removed channels below an index. */
  function RemovedBefore(gone: set<int>, i: nat): (r: nat)
    ensures r <= i
  {
    if i == 0 then 0 else RemovedBefore(gone, i - 1) + if i - 1 in gone then 1 else 0
  }

  function Target(gone: set<int>, i: nat): Option<nat> {
    if i in gone then None else Some(i - RemovedBefore(gone, i))
  }

  /** The identity map of a removal plan: no target for a removed channel, and a kept one counts down by
      the removed channels met so far. */
  method ChannelTargets(width: nat, gone: set<int>) returns (targets: seq<Option<nat>>)
    ensures |targets| == width
    ensures forall i: nat | i < width :: targets[i] == Target(gone, i)
  {
    targets := [];
    var removedBefore := 0;
    for index := 0 to width
      invariant |targets| == index && removedBefore == RemovedBefore(gone, index)
      invariant forall i: nat | i < index :: targets[i] == Target(gone, i)
    {
      if index in gone {
        targets := targets + [None];
        removedBefore := removedBefore + 1;
      } else {
        targets := targets + [Some(index - removedBefore)];
      }
    }
  }

  /** The target of a kept channel is where the removal puts it. */
  lemma {:induction false} KeptChannelMoves<T>(xs: seq<T>, gone: set<int>, i: nat)
    requires i < |xs| && i !in gone
    ensures |Without(xs, gone)| == |xs| - RemovedBefore(gone, |xs|)
    ensures Target(gone, i).Some? && Target(gone, i).value < |Without(xs, gone)|
    ensures Without(xs, gone)[Target(gone, i).value] == xs[i]
  {
    WithoutSize(xs, gone);
    WithoutSize(xs[..|xs| - 1], gone);
    if i < |xs| - 1 { KeptChannelMoves(xs[..|xs| - 1], gone, i); }
  }

  lemma {:induction false} WithoutSize<T>(xs: seq<T>, gone: set<int>)
    ensures |Without(xs, gone)| == |xs| - RemovedBefore(gone, |xs|)
  {
    if xs != [] { WithoutSize(xs[..|xs| - 1], gone); }
  }
}
