/** What `expand_dotted_overrides` makes of a list of overrides, key by key. */
module DottedOverrides {
  import opened Ordering
  import opened Text
  import opened ConfigTree
  import opened ConfigKeys
  import opened ConfigOrder
  import opened DottedKeys

  /** A dotted key with its value. */
  type Override<V> = (string, Tree<V>)

  predicate GoodKey(key: string) { key != "" && "" !in Split(key, ".") }

  /** The value at place `i` has the leaf at the rest of the path. */
  ghost predicate GivesLeaf<V>(items: seq<Override<V>>, i: nat, q: Path, v: V) {
    i < |items| &&
    var p := Split(items[i].0, ".");
    p <= q && LeafAt(items[i].1, q[|p|..], v)
  }

  /** The value at place `j` settles the path. */
  ghost predicate Settles<V>(items: seq<Override<V>>, j: nat, q: Path)
    requires j < |items|
  {
    var p := Split(items[j].0, ".");
    q <= p || (p <= q && Occupied(items[j].1, q[|p|..]))
  }

  /** The last word on a leaf: it is given at `i` and no later override settles its path. */
  ghost predicate LastGiven<V>(items: seq<Override<V>>, i: nat, q: Path, v: V) {
    GivesLeaf(items, i, q, v) && forall j | i < j < |items| :: !Settles(items, j, q)
  }

  lemma LayerOf<V>(items: seq<Override<V>>, i: nat, q: Path)
    requires i < |items|
    ensures var layer := Singles(DottedSettings(items))[i];
            && (forall v :: LeafAt(layer, q, v) <==> GivesLeaf(items, i, q, v))
            && (Occupied(layer, q) <==> Settles(items, i, q))
  {
    var p := Split(items[i].0, ".");
    SingleHolds(p, items[i].1, q);
    BlocksMeans(p, items[i].1, q);
  }

  lemma LeavesOfOverrides<V>(items: seq<Override<V>>, q: Path, v: V)
    ensures LeafAt(Overlay(DottedSettings(items)), q, v) <==> exists i: nat :: LastGiven(items, i, q, v)
  {
    var layers := Singles(DottedSettings(items));
    LayeredLeaf(layers, q, v);
    forall i: nat | i < |items|
      ensures LeafAt(layers[i], q, v) <==> GivesLeaf(items, i, q, v)
      ensures Occupied(layers[i], q) <==> Settles(items, i, q)
    {
      LayerOf(items, i, q);
    }
    forall i: nat ensures SuppliedBy(layers, i, q, v) <==> LastGiven(items, i, q, v) {}
  }

  /** The first bad key and what is said of it. */
  ghost predicate FirstBadKey<V>(items: seq<Override<V>>, i: nat, e: DottedError) {
    && i < |items| && !GoodKey(items[i].0) && (forall j | 0 <= j < i :: GoodKey(items[j].0))
    && e == if items[i].0 == "" then EmptyKey else EmptySegment(items[i].0)
  }

  lemma {:induction false} BadKeyReported<V>(items: seq<Override<V>>)
    requires Expand(items).Fail?
    ensures exists i: nat :: FirstBadKey(items, i, Expand(items).error)
  {
    var n := |items| - 1;
    if Expand(items[..n]).Fail? {
      BadKeyReported(items[..n]);
      var i: nat :| FirstBadKey(items[..n], i, Expand(items).error);
      assert FirstBadKey(items, i, Expand(items).error) by {
        forall j | 0 <= j < i ensures GoodKey(items[j].0) { assert items[..n][j] == items[j]; }
      }
    } else {
      ExpandIsOverlay(items[..n]);
      forall j | 0 <= j < n ensures GoodKey(items[j].0) { GoodIfWhole(items[..n], j); }
      assert FirstBadKey(items, n, Expand(items).error);
    }
  }

  lemma GoodIfWhole<V>(items: seq<Override<V>>, j: nat)
    requires j < |items| && forall x | x in items :: "" !in Split(x.0, ".")
    ensures GoodKey(items[j].0)
  {
    assert items[j] in items && Split("", ".") == [""];
  }

  /** Overrides are accepted exactly when no key is empty or has an empty part, and the refusal names the first
      key that is or has; the tree then has a leaf exactly where some override gives it and no later one settles
      its path. */
  lemma ExpandExactly<V>(items: seq<Override<V>>)
    ensures Expand(items).Ok? <==> forall x | x in items :: GoodKey(x.0)
    ensures Expand(items).Fail? ==> exists i: nat :: FirstBadKey(items, i, Expand(items).error)
    ensures Expand(items).Ok? ==>
              forall q, v :: LeafAt(Expand(items).value, q, v) <==> exists i: nat :: LastGiven(items, i, q, v)
  {
    ExpandIsOverlay(items);
    assert Split("", ".") == [""];
    if Expand(items).Fail? { BadKeyReported(items); }
    forall q, v
      ensures LeafAt(Overlay(DottedSettings(items)), q, v) <==> exists i: nat :: LastGiven(items, i, q, v)
    {
      LeavesOfOverrides(items, q, v);
    }
  }
}
