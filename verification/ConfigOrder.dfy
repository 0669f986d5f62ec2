/** Which lists of settings the refusing build accepts, for values of any kind, and when the order matters. */
module ConfigOrder {
  import opened Ordering
  import opened ConfigTree
  import opened ConfigKeys

  // ---------- when one setting is in the way of another ----------

  function One<V>(s: Setting<V>): Tree<V> { Single(s.path, s.value) }

  /** The setting settles what is at `q`: it stores something there, or a scalar above. */
  predicate Blocks<V>(s: Setting<V>, q: Path) { Occupied(One(s), q) }

  /** It does for every prefix of its path, and beyond its path where its value does. */
  lemma {:induction false} BlocksMeans<V>(p: Path, x: Tree<V>, q: Path)
    ensures Occupied(Single(p, x), q) <==> q <= p || (p <= q && Occupied(x, q[|p|..]))
  {
    if p == [] {
      assert q[0..] == q;
    } else if q != [] && q[0] == p[0] {
      BlocksMeans(p[1..], x, q[1..]);
      assert p == [p[0]] + p[1..] && q == [q[0]] + q[1..];
      assert q <= p <==> q[1..] <= p[1..];
      assert p <= q <==> p[1..] <= q[1..];
      if p <= q { assert q[1..][|p[1..]|..] == q[|p|..]; }
    }
  }

  ghost predicate Rooted<V>(items: seq<Setting<V>>) { forall s | s in items :: s.path != [] }

  ghost predicate NoneBlocked<V>(items: seq<Setting<V>>) {
    forall i, j | 0 <= i < j < |items| :: !Blocks(items[i], items[j].path)
  }

  ghost predicate AnyBlocks<V>(items: seq<Setting<V>>, q: Path) { exists s :: s in items && Blocks(s, q) }

  ghost predicate AnyMapping<V>(items: seq<Setting<V>>, q: Path) { exists s :: s in items && IsMapping(One(s), q) }

  ghost predicate AnyLeaf<V>(items: seq<Setting<V>>, q: Path, v: V) { exists s :: s in items && LeafAt(One(s), q, v) }

  // ---------- what an accepted build holds ----------

  /** A subtree attached at a free path is seen beside what was there, and changes nothing of it. */
  lemma {:induction false} Attached<V>(t: Tree<V>, p: Path, x: Tree<V>, q: Path)
    requires p != [] && !Occupied(t, p)
    ensures var one := Single(p, x);
            var m := Merge(t, one);
            && (q != [] ==> (Occupied(m, q) <==> Occupied(t, q) || Occupied(one, q)))
            && (IsMapping(m, q) <==> q == [] || IsMapping(t, q) || IsMapping(one, q))
            && forall v :: LeafAt(m, q, v) <==> LeafAt(t, q, v) || LeafAt(one, q, v)
    decreases p
  {
    var k, one := p[0], Single(p, x);
    assert one.kids.Keys == {k};
    if q != [] && q[0] == k && k in t.kids {
      assert p[1..] != [];
      var kid, below := t.kids[k], Single(p[1..], x);
      Attached(kid, p[1..], x, q[1..]);
      AttachedBelow(t, p, x, q);
      forall v ensures LeafAt(Merge(t, one), q, v) <==> LeafAt(t, q, v) || LeafAt(one, q, v) {
        assert LeafAt(Merge(kid, below), q[1..], v) <==> LeafAt(kid, q[1..], v) || LeafAt(below, q[1..], v);
      }
    } else if q != [] {
      AttachedBeside(t, p, x, q);
    }
  }

  lemma AttachedBeside<V>(t: Tree<V>, p: Path, x: Tree<V>, q: Path)
    requires p != [] && t.Node? && q != [] && (q[0] == p[0] ==> p[0] !in t.kids)
    ensures var one, m := Single(p, x), Merge(t, Single(p, x));
            && At(m, q) == (if q[0] == p[0] then At(one, q) else At(t, q))
            && (Occupied(m, q) <==> if q[0] == p[0] then Occupied(one, q) else Occupied(t, q))
            && (if q[0] == p[0] then At(t, q).None? && !Occupied(t, q) else At(one, q).None? && !Occupied(one, q))
  {
    assert Single(p, x).kids.Keys == {p[0]};
  }

  lemma AttachedBelow<V>(t: Tree<V>, p: Path, x: Tree<V>, q: Path)
    requires p != [] && t.Node? && q != [] && q[0] == p[0] && p[0] in t.kids
    ensures var k, one, m := p[0], Single(p, x), Merge(t, Single(p, x));
            && At(m, q) == At(Merge(t.kids[k], Single(p[1..], x)), q[1..])
            && At(t, q) == At(t.kids[k], q[1..]) && At(one, q) == At(Single(p[1..], x), q[1..])
            && (Occupied(m, q) <==> Occupied(Merge(t.kids[k], Single(p[1..], x)), q[1..]))
  {
  }

  lemma AnySnoc<V>(items: seq<Setting<V>>, q: Path)
    requires items != []
    ensures var n := |items| - 1;
            && (AnyBlocks(items, q) <==> AnyBlocks(items[..n], q) || Blocks(items[n], q))
            && (AnyMapping(items, q) <==> AnyMapping(items[..n], q) || IsMapping(One(items[n]), q))
            && forall v :: AnyLeaf(items, q, v) <==> AnyLeaf(items[..n], q, v) || LeafAt(One(items[n]), q, v)
  {
    var n := |items| - 1;
    assert forall s :: s in items <==> s in items[..n] || s == items[n];
  }

  lemma NoneBlockedSnoc<V>(items: seq<Setting<V>>)
    requires items != []
    ensures var n := |items| - 1;
            NoneBlocked(items) <==> NoneBlocked(items[..n]) && !AnyBlocks(items[..n], items[n].path)
  {
    var n := |items| - 1;
    var front := items[..n];
    if NoneBlocked(items) {
      forall s | s in front ensures !Blocks(s, items[n].path) {
        var i :| 0 <= i < n && front[i] == s;
        assert items[i] == s;
      }
    }
    if NoneBlocked(front) && !AnyBlocks(front, items[n].path) {
      forall i, j | 0 <= i < j < |items| ensures !Blocks(items[i], items[j].path) {
        assert items[i] == front[i] && front[i] in front;
        if j < n { assert items[j] == front[j]; }
      }
    }
  }

  /** The built tree holds at every path what some setting holds there. */
  lemma {:induction false} BuiltFrom<V>(items: seq<Setting<V>>, q: Path)
    requires Rooted(items) && NoneBlocked(items)
    ensures q != [] ==> (Occupied(Overlay(items), q) <==> AnyBlocks(items, q))
    ensures IsMapping(Overlay(items), q) <==> q == [] || AnyMapping(items, q)
    ensures forall v :: LeafAt(Overlay(items), q, v) <==> AnyLeaf(items, q, v)
  {
    if items != [] {
      var n := |items| - 1;
      var front, last := items[..n], items[n];
      assert last in items && last.path != [];
      NoneBlockedSnoc(items);
      BuiltFrom(front, last.path);
      BuiltFrom(front, q);
      OverlaySnoc(items);
      Attached(Overlay(front), last.path, last.value, q);
      AnySnoc(items, q);
    }
  }

  // ---------- the verdict ----------

  /** The refusing build accepts a list exactly when no setting is in the way of a later one. */
  lemma {:induction false} Verdict<V>(items: seq<Setting<V>>)
    requires Rooted(items)
    ensures InsertAll(items).Ok? <==> NoneBlocked(items)
  {
    if items != [] {
      var n := |items| - 1;
      var front, last := items[..n], items[n];
      assert last in items;
      Verdict(front);
      NoneBlockedSnoc(items);
      if NoneBlocked(front) {
        InsertAllIsOverlay(front);
        InsertIsMerge(Overlay(front), last.path, last.value);
        OccupiedMeans(Overlay(front), last.path);
        BuiltFrom(front, last.path);
      }
    }
  }

  /** For scalars that means that no path extends another. */
  lemma ScalarsBlock<V>(items: seq<Setting<V>>)
    requires Scalars(items)
    ensures NoneBlocked(items) <==> PrefixFree(items)
  {
    forall i, j | 0 <= i < j < |items|
      ensures Blocks(items[i], items[j].path) <==> Clash(items[i].path, items[j].path)
    {
      SingleLookup(items[i].path, items[i].value.v, items[j].path);
    }
  }

  /** Without a clash between paths no setting is in the way of any other. */
  lemma PrefixFreeBlocksNone<V>(items: seq<Setting<V>>)
    requires PrefixFree(items)
    ensures NoneBlocked(items)
  {
    forall i, j | 0 <= i < j < |items| ensures !Blocks(items[i], items[j].path) {
      BlocksMeans(items[i].path, items[i].value, items[j].path);
    }
  }

  // ---------- the tree does not depend on the order ----------

  ghost predicate SameMappings<V>(s: Tree<V>, t: Tree<V>) { forall q :: IsMapping(s, q) <==> IsMapping(t, q) }

  /** A tree is determined by its mappings and its leaves. */
  lemma {:induction false} ContentDeterminesTree<V(!new)>(s: Tree<V>, t: Tree<V>)
    requires SameMappings(s, t) && SameLeaves(s, t)
    ensures s == t
  {
    assert IsMapping(s, []) <==> IsMapping(t, []);
    if s.Leaf? {
      assert LeafAt(s, [], s.v) && LeafAt(t, [], s.v);
    } else {
      forall k ensures k in s.kids <==> k in t.kids { SameContentKey(s, t, k); }
      forall k | k in s.kids ensures s.kids[k] == t.kids[k] {
        SameContentBelow(s, t, k);
        ContentDeterminesTree(s.kids[k], t.kids[k]);
      }
      assert s.kids == t.kids;
    }
  }

  lemma SameContentKey<V(!new)>(s: Tree<V>, t: Tree<V>, k: string)
    requires SameMappings(s, t) && SameLeaves(s, t) && s.Node? && t.Node?
    ensures k in s.kids <==> k in t.kids
  {
    AtKey(s, k);
    AtKey(t, k);
    assert IsMapping(s, [k]) <==> IsMapping(t, [k]);
    if k in s.kids && s.kids[k].Leaf? { assert LeafAt(s, [k], s.kids[k].v) && LeafAt(t, [k], s.kids[k].v); }
    if k in t.kids && t.kids[k].Leaf? { assert LeafAt(t, [k], t.kids[k].v) && LeafAt(s, [k], t.kids[k].v); }
  }

  lemma AtKey<V>(t: Tree<V>, k: string)
    requires t.Node?
    ensures At(t, [k]) == if k in t.kids then Some(t.kids[k]) else None
  {
    assert [k][1..] == [];
    if k in t.kids { assert At(t.kids[k], []) == Some(t.kids[k]); }
  }

  lemma SameContentBelow<V(!new)>(s: Tree<V>, t: Tree<V>, k: string)
    requires SameMappings(s, t) && SameLeaves(s, t) && s.Node? && t.Node? && k in s.kids && k in t.kids
    ensures SameMappings(s.kids[k], t.kids[k]) && SameLeaves(s.kids[k], t.kids[k])
  {
    SameLeavesBelow(s, t, k);
    forall q ensures IsMapping(s.kids[k], q) <==> IsMapping(t.kids[k], q) {
      assert ([k] + q)[1..] == q;
      assert IsMapping(s, [k] + q) <==> IsMapping(t, [k] + q);
    }
  }

  lemma SameSettings<V>(a: seq<Setting<V>>, b: seq<Setting<V>>)
    requires multiset(a) == multiset(b)
    ensures |a| == |b| && forall s :: s in a <==> s in b
  {
    assert |multiset(a)| == |multiset(b)|;
    forall s ensures s in a <==> s in b { assert s in multiset(a) <==> s in multiset(b); }
  }

  lemma SameAny<V>(a: seq<Setting<V>>, b: seq<Setting<V>>, q: Path)
    requires forall s :: s in a <==> s in b
    ensures AnyMapping(a, q) <==> AnyMapping(b, q)
    ensures forall v :: AnyLeaf(a, q, v) <==> AnyLeaf(b, q, v)
  {
  }

  lemma SameBuilds<V(!new)>(a: seq<Setting<V>>, b: seq<Setting<V>>)
    requires Rooted(a) && Rooted(b) && (forall s :: s in a <==> s in b) && NoneBlocked(a) && NoneBlocked(b)
    ensures SameMappings(Overlay(a), Overlay(b)) && SameLeaves(Overlay(a), Overlay(b))
  {
    var s, t := Overlay(a), Overlay(b);
    forall q ensures IsMapping(s, q) <==> IsMapping(t, q) {
      BuiltFrom(a, q);
      BuiltFrom(b, q);
      SameAny(a, b, q);
    }
    forall q, v ensures LeafAt(s, q, v) <==> LeafAt(t, q, v) {
      BuiltFrom(a, q);
      BuiltFrom(b, q);
      SameAny(a, b, q);
    }
  }

  /** All orders that are accepted build the same tree. */
  lemma AcceptedOrdersAgree<V(!new)>(a: seq<Setting<V>>, b: seq<Setting<V>>)
    requires Rooted(a) && Rooted(b) && multiset(a) == multiset(b)
    requires InsertAll(a).Ok? && InsertAll(b).Ok?
    ensures InsertAll(a) == InsertAll(b)
  {
    SameSettings(a, b);
    Verdict(a);
    Verdict(b);
    SameBuilds(a, b);
    ContentDeterminesTree(Overlay(a), Overlay(b));
    InsertAllIsOverlay(a);
    InsertAllIsOverlay(b);
  }

  // ---------- when the verdict depends on the order ----------

  ghost predicate Accepts<V>(items: seq<Setting<V>>) { Rooted(items) && InsertAll(items).Ok? }

  ghost predicate OrderFree<V(!new)>(items: seq<Setting<V>>) {
    forall b: seq<Setting<V>> | multiset(b) == multiset(items) :: Accepts(b) <==> Accepts(items)
  }

  ghost predicate Mutual<V>(s: Setting<V>, t: Setting<V>) { Blocks(s, t.path) && Blocks(t, s.path) }

  /** Two settings are in the way of each other: their paths are equal, or the longer one runs into the
      value of the shorter. */
  ghost predicate MutuallyBlocked<V>(items: seq<Setting<V>>) {
    exists i, j :: 0 <= i < j < |items| && Mutual(items[i], items[j])
  }

  lemma MutualMeans<V>(s: Setting<V>, t: Setting<V>)
    requires |s.path| <= |t.path|
    ensures Mutual(s, t) <==> Blocks(s, t.path)
    ensures Mutual(s, t) <==> s.path <= t.path && (s.path == t.path || Occupied(s.value, t.path[|s.path|..]))
  {
    BlocksMeans(s.path, s.value, t.path);
    BlocksMeans(t.path, t.value, s.path);
    if t.path <= s.path || s.path == t.path { assert t.path[|s.path|..] == []; }
  }

  lemma RootedMoves<V>(a: seq<Setting<V>>, b: seq<Setting<V>>)
    requires multiset(a) == multiset(b) && Rooted(a)
    ensures Rooted(b)
  {
    SameSettings(a, b);
  }

  lemma MutualMoves<V>(a: seq<Setting<V>>, b: seq<Setting<V>>)
    requires multiset(a) == multiset(b) && MutuallyBlocked(a)
    ensures MutuallyBlocked(b)
  {
    var i, j :| 0 <= i < j < |a| && Mutual(a[i], a[j]);
    var x, y := PairMoves(a, b, i, j);
    assert Mutual(b[x], b[y]) && Mutual(b[y], b[x]);
  }

  lemma MutualIsRefused<V>(items: seq<Setting<V>>)
    requires MutuallyBlocked(items)
    ensures !NoneBlocked(items)
  {
    var i, j :| 0 <= i < j < |items| && Mutual(items[i], items[j]);
    assert Blocks(items[i], items[j].path);
  }

  ghost predicate ShortestFirst<V>(items: seq<Setting<V>>) {
    forall i, j | 0 <= i < j < |items| :: |items[i].path| <= |items[j].path|
  }

  /** Settings with the shorter paths first are accepted unless two block each other. */
  lemma ShortestFirstVerdict<V>(items: seq<Setting<V>>)
    requires ShortestFirst(items)
    ensures NoneBlocked(items) <==> !MutuallyBlocked(items)
  {
    forall i, j | 0 <= i < j < |items| ensures Mutual(items[i], items[j]) <==> Blocks(items[i], items[j].path) {
      MutualMeans(items[i], items[j]);
    }
  }

  lemma {:induction false} Shortest<V>(items: seq<Setting<V>>) returns (m: nat)
    requires items != []
    ensures m < |items| && forall i | 0 <= i < |items| :: |items[m].path| <= |items[i].path|
  {
    var n := |items| - 1;
    m := n;
    if n > 0 {
      var k := Shortest(items[..n]);
      if |items[k].path| <= |items[n].path| { m := k; }
      assert forall i | 0 <= i < n :: items[i] == items[..n][i];
    }
  }

  lemma {:induction false} ArrangeShortestFirst<V>(items: seq<Setting<V>>) returns (b: seq<Setting<V>>)
    ensures multiset(b) == multiset(items) && ShortestFirst(b)
    decreases |items|
  {
    b := [];
    if items != [] {
      var m := Shortest(items);
      var rest := items[..m] + items[m + 1..];
      var tail := ArrangeShortestFirst(rest);
      MultisetWithout(items, m);
      b := [items[m]] + tail;
      SameSettings(tail, rest);
      forall i | 0 <= i < |tail| ensures |items[m].path| <= |tail[i].path| {
        assert tail[i] in rest;
      }
    }
  }

  /** A clashing pair can be put in the refused order. */
  lemma ArrangeRefused<V>(items: seq<Setting<V>>, i: nat, j: nat) returns (b: seq<Setting<V>>)
    requires i < |items| && j < |items| && i != j && items[j].path <= items[i].path
    ensures multiset(b) == multiset(items) && !NoneBlocked(b)
  {
    var tail := TakeTwo(items, i, j);
    b := [items[i], items[j]] + tail;
    BlocksMeans(items[i].path, items[i].value, items[j].path);
    assert b[0] == items[i] && b[1] == items[j];
  }

  lemma TakeTwo<T>(items: seq<T>, i: nat, j: nat) returns (tail: seq<T>)
    requires i < |items| && j < |items| && i != j
    ensures multiset([items[i], items[j]] + tail) == multiset(items)
  {
    var rest := items[..i] + items[i + 1..];
    var k := if j < i then j else j - 1;
    assert rest[k] == items[j];
    MultisetWithout(items, i);
    MultisetWithout(rest, k);
    tail := rest[..k] + rest[k + 1..];
    assert multiset([items[i], items[j]] + tail) == multiset{items[i], items[j]} + multiset(tail);
  }

  /** The verdict is the same for every order if and only if no path extends another, or two settings are
      in the way of each other and every order is refused. */
  lemma VerdictIgnoresOrder<V(!new)>(items: seq<Setting<V>>)
    requires Rooted(items)
    ensures OrderFree(items) <==> PrefixFree(items) || MutuallyBlocked(items)
  {
    forall b: seq<Setting<V>> | multiset(b) == multiset(items)
      ensures Rooted(b) && (Accepts(b) <==> NoneBlocked(b))
      ensures PrefixFree(items) ==> NoneBlocked(b)
      ensures MutuallyBlocked(items) ==> !NoneBlocked(b)
    {
      RootedMoves(items, b);
      Verdict(b);
      if PrefixFree(items) { PrefixFreeReordered(items, b); PrefixFreeBlocksNone(b); }
      if MutuallyBlocked(items) { MutualMoves(items, b); MutualIsRefused(b); }
    }
    if !PrefixFree(items) && !MutuallyBlocked(items) {
      var good := ArrangeShortestFirst(items);
      if MutuallyBlocked(good) { MutualMoves(good, items); }
      ShortestFirstVerdict(good);
      var i, j :| 0 <= i < j < |items| && Clash(items[i].path, items[j].path);
      var bad;
      if items[j].path <= items[i].path { bad := ArrangeRefused(items, i, j); }
      else { bad := ArrangeRefused(items, j, i); }
      assert Accepts(good) && !Accepts(bad);
    }
  }
}
