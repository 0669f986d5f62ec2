/** Building trees from paths: insertion that refuses conflicts, and merging that overrides them. */
module ConfigKeys {
  import opened Ordering
  import opened ConfigTree

  datatype Setting<V> = Setting(path: Path, value: Tree<V>)

  datatype Conflict = ScalarParent | Duplicate

  /** One of two paths extends the other, or they are equal. */
  predicate Clash(p: Path, q: Path) { p <= q || q <= p }

  // ---------- the tree of one setting ----------

  function Single<V>(p: Path, t: Tree<V>): Tree<V> {
    if p == [] then t else Node(map[p[0] := Single(p[1..], t)])
  }

  lemma {:induction false} SingleLookup<V>(p: Path, v: V, q: Path)
    ensures Occupied(Single(p, Leaf(v)), q) <==> Clash(p, q)
    ensures forall w :: LeafAt(Single(p, Leaf(v)), q, w) <==> q == p && w == v
  {
    if p != [] && q != [] && p[0] == q[0] {
      SingleLookup(p[1..], v, q[1..]);
      assert p == [p[0]] + p[1..] && q == [q[0]] + q[1..];
      assert q[1..] == p[1..] <==> q == p;
      var t := Single(p, Leaf(v));
      assert t.kids[q[0]] == Single(p[1..], Leaf(v));
      forall w ensures LeafAt(t, q, w) <==> LeafAt(t.kids[q[0]], q[1..], w) { }
    }
  }

  /** What the tree of one setting holds at every path. */
  lemma {:induction false} SingleAt<V>(p: Path, x: Tree<V>, q: Path)
    ensures At(Single(p, x), q) ==
            if p <= q then At(x, q[|p|..]) else if q <= p then Some(Single(p[|q|..], x)) else None
  {
    if p == [] {
      assert q[0..] == q;
    } else if q == [] {
      assert p[0..] == p;
    } else if q[0] == p[0] {
      SingleAt(p[1..], x, q[1..]);
      assert p == [p[0]] + p[1..] && q == [q[0]] + q[1..];
      assert q <= p <==> q[1..] <= p[1..];
      assert p <= q <==> p[1..] <= q[1..];
      if p <= q { assert q[1..][|p[1..]|..] == q[|p|..]; }
      else if q <= p { assert p[1..][|q[1..]|..] == p[|q|..]; }
    }
  }

  lemma SingleHolds<V>(p: Path, x: Tree<V>, q: Path)
    ensures forall v :: LeafAt(Single(p, x), q, v) <==> p <= q && LeafAt(x, q[|p|..], v)
    ensures IsMapping(Single(p, x), q) <==> (q <= p && q != p) || (p <= q && IsMapping(x, q[|p|..]))
  {
    SingleAt(p, x, q);
  }

  // ---------- inserting at a path ----------

  /** Walk down `p`, creating mappings, and store `v` under the last part. */
  function InsertAt<V>(t: Tree<V>, p: Path, v: Tree<V>): Outcome<Tree<V>, Conflict>
    requires p != []
    decreases p
  {
    if t.Leaf? then Fail(ScalarParent)
    else if |p| == 1 then
      if p[0] in t.kids then Fail(Duplicate) else Ok(Node(t.kids[p[0] := v]))
    else if p[0] !in t.kids then Ok(Node(t.kids[p[0] := Single(p[1..], v)]))
    else match InsertAt(t.kids[p[0]], p[1..], v)
      case Fail(e) => Fail(e)
      case Ok(kid) => Ok(Node(t.kids[p[0] := kid]))
  }

  /** Insertion succeeds exactly on unoccupied paths, and then it is a merge. */
  lemma {:induction false} InsertIsMerge<V>(t: Tree<V>, p: Path, v: Tree<V>)
    requires p != []
    ensures InsertAt(t, p, v) ==
            if Defines(t, p) then Fail(Duplicate)
            else if ScalarAbove(t, p) then Fail(ScalarParent)
            else Ok(Merge(t, Single(p, v)))
    decreases p
  {
    OccupiedMeans(t, p);
    if t.Node? {
      var one := Single(p, v);
      assert one.kids.Keys == {p[0]};
      if p[0] in t.kids && |p| > 1 {
        var kid := t.kids[p[0]];
        InsertIsMerge(kid, p[1..], v);
        OccupiedMeans(kid, p[1..]);
        if !Occupied(t, p) {
          assert kid.Node? && one.kids[p[0]].Node?;
          assert Merge(t, one).kids == t.kids[p[0] := Merge(kid, Single(p[1..], v))];
        }
      } else if p[0] !in t.kids {
        assert Merge(t, one).kids == t.kids[p[0] := Single(p[1..], v)];
      } else {
        assert At(t, p) == At(t.kids[p[0]], []);
      }
    }
  }

  function InsertAll<V>(items: seq<Setting<V>>): Outcome<Tree<V>, Conflict>
    requires forall s | s in items :: s.path != []
  {
    if items == [] then Ok(Empty())
    else
      var last := items[|items| - 1];
      match InsertAll(items[..|items| - 1])
      case Fail(e) => Fail(e)
      case Ok(t) => InsertAt(t, last.path, last.value)
  }

  function Singles<V>(items: seq<Setting<V>>): (r: seq<Tree<V>>)
    ensures |r| == |items| && forall i | 0 <= i < |items| :: r[i] == Single(items[i].path, items[i].value)
  {
    seq(|items|, i requires 0 <= i < |items| => Single(items[i].path, items[i].value))
  }

  /** Overriding build: every setting merged over the ones before it. */
  function Overlay<V>(items: seq<Setting<V>>): Tree<V> { MergeAll(Singles(items)) }

  lemma OverlaySnoc<V>(items: seq<Setting<V>>)
    requires items != []
    ensures var n := |items| - 1;
            Overlay(items) == Merge(Overlay(items[..n]), Single(items[n].path, items[n].value))
  {
    assert Singles(items)[..|items| - 1] == Singles(items[..|items| - 1]);
  }

  /** Where the refusing build succeeds it agrees with the overriding one. */
  lemma {:induction false} InsertAllIsOverlay<V>(items: seq<Setting<V>>)
    requires forall s | s in items :: s.path != []
    ensures InsertAll(items).Ok? ==> InsertAll(items).value == Overlay(items)
  {
    if items != [] {
      var n := |items| - 1;
      InsertAllIsOverlay(items[..n]);
      OverlaySnoc(items);
      if InsertAll(items[..n]).Ok? {
        InsertIsMerge(InsertAll(items[..n]).value, items[n].path, items[n].value);
      }
    }
  }

  // ---------- scalar settings ----------

  ghost predicate Scalars<V>(items: seq<Setting<V>>) {
    forall i | 0 <= i < |items| :: items[i].path != [] && items[i].value.Leaf?
  }

  ghost predicate PrefixFree<V>(items: seq<Setting<V>>) {
    forall i, j | 0 <= i < j < |items| :: !Clash(items[i].path, items[j].path)
  }

  ghost predicate Supplies<V>(items: seq<Setting<V>>, p: Path, v: V) {
    Setting(p, Leaf(v)) in items
  }

  lemma OverlayLeaf<V>(items: seq<Setting<V>>, p: Path, v: V)
    requires Scalars(items)
    ensures LeafAt(Overlay(items), p, v) <==>
            exists i :: 0 <= i < |items| && items[i] == Setting(p, Leaf(v)) &&
                        forall j | i < j < |items| :: !Clash(items[j].path, p)
  {
    var layers := Singles(items);
    LayeredLeaf(layers, p, v);
    forall i | 0 <= i < |items|
      ensures LeafAt(layers[i], p, v) <==> items[i] == Setting(p, Leaf(v))
      ensures Occupied(layers[i], p) <==> Clash(items[i].path, p)
    {
      SingleLookup(items[i].path, items[i].value.v, p);
    }
    if i :| 0 <= i < |items| && items[i] == Setting(p, Leaf(v)) &&
            forall j | i < j < |items| :: !Clash(items[j].path, p) {
      assert SuppliedBy(layers, i, p, v);
    }
  }

  lemma PrefixFreeLeaves<V>(items: seq<Setting<V>>, p: Path, v: V)
    requires Scalars(items) && PrefixFree(items)
    ensures LeafAt(Overlay(items), p, v) <==> Supplies(items, p, v)
  {
    OverlayLeaf(items, p, v);
  }

  // ---------- trees without empty sub-mappings ----------

  ghost predicate NoEmptySub<V>(t: Tree<V>) {
    t.Leaf? || forall k | k in t.kids :: t.kids[k] != Empty() && NoEmptySub(t.kids[k])
  }

  lemma {:induction false} HasLeaf<V>(t: Tree<V>) returns (p: Path, v: V)
    requires NoEmptySub(t) && t != Empty()
    ensures LeafAt(t, p, v)
  {
    if t.Leaf? {
      p, v := [], t.v;
    } else {
      assert t.kids != map[];
      var k :| k in t.kids;
      p, v := HasLeaf(t.kids[k]);
      p := [k] + p;
    }
  }

  lemma {:induction false} MergeKeepsNoEmptySub<V>(b: Tree<V>, o: Tree<V>)
    requires NoEmptySub(b) && NoEmptySub(o)
    ensures NoEmptySub(Merge(b, o))
    ensures o != Empty() ==> Merge(b, o) != Empty()
    decreases o
  {
    if b.Node? && o.Node? {
      var m := Merge(b, o);
      forall k | k in m.kids ensures m.kids[k] != Empty() && NoEmptySub(m.kids[k]) {
        if k in b.kids && k in o.kids { MergeKeepsNoEmptySub(b.kids[k], o.kids[k]); }
      }
      if o != Empty() { var k :| k in o.kids; assert k in m.kids; }
    }
  }

  lemma {:induction false} SingleNoEmptySub<V>(p: Path, v: V)
    ensures NoEmptySub(Single(p, Leaf(v))) && Single(p, Leaf(v)) != Empty()
  {
    if p != [] {
      SingleNoEmptySub(p[1..], v);
      assert p[0] in Single(p, Leaf(v)).kids;
    }
  }

  lemma {:induction false} OverlayNoEmptySub<V>(items: seq<Setting<V>>)
    requires Scalars(items)
    ensures NoEmptySub(Overlay(items)) && Overlay(items).Node?
  {
    if items != [] {
      var n := |items| - 1;
      OverlaySnoc(items);
      OverlayNoEmptySub(items[..n]);
      SingleNoEmptySub(items[n].path, items[n].value.v);
      MergeKeepsNoEmptySub(Overlay(items[..n]), Single(items[n].path, items[n].value));
    }
  }

  ghost predicate SameLeaves<V(!new)>(s: Tree<V>, t: Tree<V>) {
    forall p, v :: LeafAt(s, p, v) <==> LeafAt(t, p, v)
  }

  lemma SameLeavesBelow<V(!new)>(s: Tree<V>, t: Tree<V>, k: string)
    requires SameLeaves(s, t) && s.Node? && t.Node? && k in s.kids && k in t.kids
    ensures SameLeaves(s.kids[k], t.kids[k])
  {
    forall p, v ensures LeafAt(s.kids[k], p, v) <==> LeafAt(t.kids[k], p, v) {
      assert ([k] + p)[1..] == p;
      assert LeafAt(s, [k] + p, v) <==> LeafAt(t, [k] + p, v);
    }
  }

  lemma SameLeavesKey<V(!new)>(s: Tree<V>, t: Tree<V>, k: string)
    requires SameLeaves(s, t) && s.Node? && t.Node? && NoEmptySub(s) && k in s.kids
    ensures k in t.kids
  {
    var p, v := HasLeaf(s.kids[k]);
    assert ([k] + p)[1..] == p;
    assert LeafAt(s, [k] + p, v);
    assert LeafAt(t, [k] + p, v);
  }

  /** A tree without empty sub-mappings is determined by its leaves. */
  lemma {:induction false} LeavesDetermineTree<V(!new)>(s: Tree<V>, t: Tree<V>)
    requires SameLeaves(s, t) && NoEmptySub(s) && NoEmptySub(t)
    requires s.Node? == t.Node?
    ensures s == t
  {
    if s.Leaf? {
      assert LeafAt(s, [], s.v);
      assert LeafAt(t, [], s.v);
    } else {
      forall k ensures k in s.kids <==> k in t.kids {
        if k in s.kids { SameLeavesKey(s, t, k); }
        if k in t.kids { SameLeavesKey(t, s, k); }
      }
      forall k | k in s.kids ensures s.kids[k] == t.kids[k] {
        SameLeavesBelow(s, t, k);
        var x, y := s.kids[k], t.kids[k];
        if x.Leaf? {
          assert LeafAt(x, [], x.v);
          assert LeafAt(y, [], x.v);
        }
        if y.Leaf? {
          assert LeafAt(y, [], y.v);
          assert LeafAt(x, [], y.v);
        }
        LeavesDetermineTree(x, y);
      }
      assert s.kids == t.kids;
    }
  }

  /** Any tree without empty sub-mappings and with exactly the supplied leaves is the built one. */
  lemma PrefixFreeTree<V(!new)>(items: seq<Setting<V>>, t: Tree<V>)
    requires Scalars(items) && PrefixFree(items) && t.Node? && NoEmptySub(t)
    requires forall p, v :: LeafAt(t, p, v) <==> Supplies(items, p, v)
    ensures Overlay(items) == t
  {
    OverlayNoEmptySub(items);
    forall p, v ensures LeafAt(Overlay(items), p, v) <==> LeafAt(t, p, v) { PrefixFreeLeaves(items, p, v); }
    LeavesDetermineTree(Overlay(items), t);
  }

  lemma PrefixFreeReordered<V>(a: seq<Setting<V>>, b: seq<Setting<V>>)
    requires multiset(a) == multiset(b) && PrefixFree(a)
    ensures PrefixFree(b)
  {
    DistinctByMultiset(a, b);
    forall i, j | 0 <= i < j < |b| ensures !Clash(b[i].path, b[j].path) {
      assert b[i] in multiset(b) && b[j] in multiset(b);
      assert b[i] in a && b[j] in a;
      var x :| 0 <= x < |a| && a[x] == b[i];
      var y :| 0 <= y < |a| && a[y] == b[j];
      assert x != y;
    }
  }
}
