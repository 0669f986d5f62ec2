/** Nested settings as trees: deep merge, its algebra, and which layer each leaf comes from. */
module ConfigTree {
  import opened Ordering

  type Path = seq<string>

  /** A configuration value: a mapping, or anything else (kept whole as a leaf). */
  datatype Tree<V> = Leaf(v: V) | Node(kids: map<string, Tree<V>>)

  function Empty<V>(): Tree<V> { Node(map[]) }

  // ---------- looking along a path ----------

  function At<V>(t: Tree<V>, p: Path): Option<Tree<V>> {
    if p == [] then Some(t)
    else if t.Node? && p[0] in t.kids then At(t.kids[p[0]], p[1..])
    else None
  }

  predicate Defines<V>(t: Tree<V>, p: Path) { At(t, p).Some? }

  predicate IsMapping<V>(t: Tree<V>, p: Path) { At(t, p).Some? && At(t, p).value.Node? }

  predicate IsScalar<V>(t: Tree<V>, p: Path) { At(t, p).Some? && At(t, p).value.Leaf? }

  ghost predicate LeafAt<V>(t: Tree<V>, p: Path, v: V) { At(t, p) == Some(Leaf(v)) }

  /** Following `p` never leaves `t` through a missing key: `t` settles what is at `p`. */
  predicate Occupied<V>(t: Tree<V>, p: Path) {
    p == [] || t.Leaf? || (p[0] in t.kids && Occupied(t.kids[p[0]], p[1..]))
  }

  ghost predicate ScalarAbove<V>(t: Tree<V>, p: Path) {
    exists i: nat :: i < |p| && IsScalar(t, p[..i])
  }

  /** `Occupied` means: the path is defined, or a scalar sits at a proper prefix of it. */
  lemma {:induction false} OccupiedMeans<V>(t: Tree<V>, p: Path)
    ensures Occupied(t, p) <==> Defines(t, p) || ScalarAbove(t, p)
    ensures !(Defines(t, p) && ScalarAbove(t, p))
  {
    if p != [] {
      if t.Leaf? {
        assert IsScalar(t, p[..0]);
      } else {
        assert !IsScalar(t, p[..0]);
        if p[0] in t.kids {
          var k, q := t.kids[p[0]], p[1..];
          OccupiedMeans(k, q);
          forall i: nat | i < |q| ensures IsScalar(t, p[..i + 1]) == IsScalar(k, q[..i]) {
            assert p[..i + 1][1..] == q[..i];
          }
          if i: nat :| i < |p| && IsScalar(t, p[..i]) { assert IsScalar(k, q[..i - 1]); }
        } else if i: nat :| i < |p| && IsScalar(t, p[..i]) {
          assert i > 0 && p[..i][0] == p[0];
        }
      }
    }
  }

  lemma {:induction false} AtAppend<V>(t: Tree<V>, p: Path, q: Path)
    ensures At(t, p + q) == if Defines(t, p) then At(At(t, p).value, q) else None
    ensures Defines(t, p) ==> (Occupied(t, p + q) <==> Occupied(At(t, p).value, q))
  {
    if p == [] {
      assert p + q == q;
    } else {
      assert (p + q)[1..] == p[1..] + q;
      if t.Node? && p[0] in t.kids { AtAppend(t.kids[p[0]], p[1..], q); }
    }
  }

  // ---------- the deep merge ----------

  function Merge<V>(base: Tree<V>, over: Tree<V>): Tree<V>
    decreases over
  {
    if base.Node? && over.Node? then
      Node(map k | k in base.kids.Keys + over.kids.Keys ::
        if k !in over.kids then base.kids[k]
        else if k !in base.kids then over.kids[k]
        else Merge(base.kids[k], over.kids[k]))
    else over
  }

  lemma {:induction false} MergeIdentity<V>(t: Tree<V>)
    requires t.Node?
    ensures Merge(Empty(), t) == t && Merge(t, Empty()) == t
  {
    assert Merge(Empty(), t).kids == t.kids;
    assert Merge(t, Empty()).kids == t.kids;
  }

  lemma {:induction false} MergeIdempotent<V>(t: Tree<V>)
    ensures Merge(t, t) == t
  {
    if t.Node? {
      forall k | k in t.kids ensures Merge(t.kids[k], t.kids[k]) == t.kids[k] {
        MergeIdempotent(t.kids[k]);
      }
      assert Merge(t, t).kids == t.kids;
    }
  }

  /** What a merge holds at every path. */
  lemma {:induction false} MergeLookup<V>(base: Tree<V>, over: Tree<V>, p: Path)
    ensures At(Merge(base, over), p) ==
            if !Occupied(over, p) then At(base, p)
            else if !Defines(over, p) then None
            else if Defines(base, p) then Some(Merge(At(base, p).value, At(over, p).value))
            else At(over, p)
    decreases p
  {
    OccupiedMeans(over, p);
    if p != [] && base.Node? && over.Node? && p[0] in base.kids && p[0] in over.kids {
      MergeLookup(base.kids[p[0]], over.kids[p[0]], p[1..]);
    }
  }

  // ---------- layers ----------

  /** Python's successive `_merge(result, layer)`, starting from `{}`. */
  function MergeAll<V>(layers: seq<Tree<V>>): Tree<V> {
    if layers == [] then Empty()
    else Merge(MergeAll(layers[..|layers| - 1]), layers[|layers| - 1])
  }

  /** Layer `i` supplies the leaf at `p` and no later layer has a say about `p`. */
  ghost predicate SuppliedBy<V>(layers: seq<Tree<V>>, i: nat, p: Path, v: V) {
    i < |layers| && LeafAt(layers[i], p, v) &&
    forall j | i < j < |layers| :: !Occupied(layers[j], p)
  }

  lemma LeafOfMerge<V>(base: Tree<V>, over: Tree<V>, p: Path, v: V)
    ensures LeafAt(Merge(base, over), p, v) <==>
            LeafAt(over, p, v) || (LeafAt(base, p, v) && !Occupied(over, p))
  {
    MergeLookup(base, over, p);
    OccupiedMeans(over, p);
  }

  /** Precedence over any number of layers. */
  lemma {:induction false} LayeredLeaf<V>(layers: seq<Tree<V>>, p: Path, v: V)
    ensures LeafAt(MergeAll(layers), p, v) <==> exists i: nat :: SuppliedBy(layers, i, p, v)
  {
    if layers == [] {
      assert p != [] ==> At(Empty<V>(), p) == None;
    } else {
      var n := |layers| - 1;
      var front := layers[..n];
      LayeredLeaf(front, p, v);
      LeafOfMerge(MergeAll(front), layers[n], p, v);
      if i: nat :| SuppliedBy(front, i, p, v) && !Occupied(layers[n], p) {
        assert SuppliedBy(layers, i, p, v);
      }
      if LeafAt(layers[n], p, v) { assert SuppliedBy(layers, n, p, v); }
      if i: nat :| SuppliedBy(layers, i, p, v) && i < n { assert SuppliedBy(front, i, p, v); }
    }
  }

  /** The three explicit layers of `discover_settings`: command line over environment over file. */
  lemma ThreeLayerPrecedence<V>(file: Tree<V>, env: Tree<V>, cli: Tree<V>, p: Path, v: V)
    ensures LeafAt(Merge(Merge(file, env), cli), p, v) <==>
            || LeafAt(cli, p, v)
            || (LeafAt(env, p, v) && !Defines(cli, p) && !ScalarAbove(cli, p))
            || (LeafAt(file, p, v) && !Defines(env, p) && !ScalarAbove(env, p)
                                   && !Defines(cli, p) && !ScalarAbove(cli, p))
  {
    LeafOfMerge(Merge(file, env), cli, p, v);
    LeafOfMerge(file, env, p, v);
    OccupiedMeans(cli, p);
    OccupiedMeans(env, p);
  }

  // ---------- when the merge is associative ----------

  /** `c` has a say about every path of `a`: merging `c` over `a` leaves nothing of `a`. */
  ghost predicate Covers<V>(c: Tree<V>, a: Tree<V>) {
    forall q | Defines(a, q) :: Occupied(c, q)
  }

  lemma {:induction false} CoversMeansAbsorbs<V>(c: Tree<V>, a: Tree<V>)
    ensures Merge(a, c) == c <==> Covers(c, a)
    decreases c
  {
    if Merge(a, c) == c {
      forall q | Defines(a, q) ensures Occupied(c, q) { MergeLookup(a, c, q); OccupiedMeans(c, q); }
    }
    if Covers(c, a) && a.Node? && c.Node? {
      forall k | k in a.kids ensures k in c.kids && Merge(a.kids[k], c.kids[k]) == c.kids[k] {
        assert Defines(a, [k]);
        assert Occupied(c, [k]);
        forall q | Defines(a.kids[k], q) ensures Occupied(c.kids[k], q) {
          assert ([k] + q)[1..] == q;
          assert Defines(a, [k] + q);
          assert Occupied(c, [k] + q);
        }
        CoversMeansAbsorbs(c.kids[k], a.kids[k]);
      }
      assert Merge(a, c).kids == c.kids;
    }
  }

  /** Where `b` breaks a mapping with a scalar and `c` mends it, `c` covers all that `a` had there. */
  ghost predicate Mended<V>(a: Tree<V>, b: Tree<V>, c: Tree<V>, p: Path) {
    IsMapping(a, p) && IsScalar(b, p) && IsMapping(c, p) ==> Covers(At(c, p).value, At(a, p).value)
  }

  ghost predicate MendedFrom<V>(a: Tree<V>, b: Tree<V>, c: Tree<V>, k: string) {
    forall p :: Mended(a, b, c, [k] + p)
  }

  lemma MendedBelow<V>(a: Tree<V>, b: Tree<V>, c: Tree<V>, k: string)
    requires a.Node? && b.Node? && c.Node?
    requires k in a.kids && k in b.kids && k in c.kids
    ensures (forall p :: Mended(a.kids[k], b.kids[k], c.kids[k], p)) <==> MendedFrom(a, b, c, k)
  {
    forall p ensures Mended(a.kids[k], b.kids[k], c.kids[k], p) <==> Mended(a, b, c, [k] + p) {
      assert ([k] + p)[1..] == p;
    }
  }

  ghost predicate SharedKey<V>(a: Tree<V>, b: Tree<V>, c: Tree<V>, k: string)
    requires a.Node? && b.Node? && c.Node?
  {
    k in a.kids && k in b.kids && k in c.kids
  }

  ghost predicate AssociatesAt<V>(a: Tree<V>, b: Tree<V>, c: Tree<V>) {
    Merge(Merge(a, b), c) == Merge(a, Merge(b, c))
  }

  lemma AssociatesKeywise<V>(a: Tree<V>, b: Tree<V>, c: Tree<V>)
    requires a.Node? && b.Node? && c.Node?
    ensures AssociatesAt(a, b, c) <==>
            forall k | SharedKey(a, b, c, k) :: AssociatesAt(a.kids[k], b.kids[k], c.kids[k])
  {
    var l, r := Merge(Merge(a, b), c), Merge(a, Merge(b, c));
    assert l.kids.Keys == r.kids.Keys;
    forall k | k in l.kids
      ensures l.kids[k] == r.kids[k] <==>
              (SharedKey(a, b, c, k) ==> AssociatesAt(a.kids[k], b.kids[k], c.kids[k]))
    {
    }
    if l == r {
      forall k | SharedKey(a, b, c, k) ensures AssociatesAt(a.kids[k], b.kids[k], c.kids[k]) {
        assert k in l.kids;
      }
    } else {
      assert l.kids != r.kids;
      assert exists k | k in l.kids :: l.kids[k] != r.kids[k];
    }
  }

  lemma MendedKeywise<V>(a: Tree<V>, b: Tree<V>, c: Tree<V>)
    requires a.Node? && b.Node? && c.Node?
    ensures (forall p :: Mended(a, b, c, p)) <==>
            forall k | SharedKey(a, b, c, k) :: MendedFrom(a, b, c, k)
  {
    if forall k | SharedKey(a, b, c, k) :: MendedFrom(a, b, c, k) {
      forall p ensures Mended(a, b, c, p) {
        if p != [] && SharedKey(a, b, c, p[0]) {
          assert MendedFrom(a, b, c, p[0]);
          assert p == [p[0]] + p[1..];
        }
      }
    }
  }

  /** Regrouping three layers changes nothing exactly when every broken mapping is mended in full. */
  lemma {:induction false} MergeAssociative<V>(a: Tree<V>, b: Tree<V>, c: Tree<V>)
    ensures Merge(Merge(a, b), c) == Merge(a, Merge(b, c)) <==> forall p :: Mended(a, b, c, p)
    decreases c
  {
    if a.Node? && c.Node? && b.Leaf? {
      CoversMeansAbsorbs(c, a);
      assert Mended(a, b, c, []) <==> Covers(c, a);
      forall p | p != [] ensures Mended(a, b, c, p) { }
    } else if a.Node? && b.Node? && c.Node? {
      AssociatesKeywise(a, b, c);
      MendedKeywise(a, b, c);
      forall k | SharedKey(a, b, c, k)
        ensures AssociatesAt(a.kids[k], b.kids[k], c.kids[k]) <==> MendedFrom(a, b, c, k)
      {
        MergeAssociative(a.kids[k], b.kids[k], c.kids[k]);
        MendedBelow(a, b, c, k);
      }
    } else {
      forall p ensures Mended(a, b, c, p) { }
    }
  }

  /** No scalar between two mappings is enough. */
  lemma MergeAssociativeWithoutScalarGaps<V>(a: Tree<V>, b: Tree<V>, c: Tree<V>)
    requires forall p :: !(IsMapping(a, p) && IsScalar(b, p) && IsMapping(c, p))
    ensures Merge(Merge(a, b), c) == Merge(a, Merge(b, c))
  {
    forall p ensures Mended(a, b, c, p) { assert !(IsMapping(a, p) && IsScalar(b, p) && IsMapping(c, p)); }
    MergeAssociative(a, b, c);
  }

  /** Mapping, scalar, mapping at one key: regrouping resurrects the file's other settings. */
  lemma MergeNotAssociative<V>(v: V)
    ensures var under := (k: string) => Node(map["hardware" := Node(map[k := Leaf(v)])]);
            var a, b, c := under("ram"), Node(map["hardware" := Leaf(v)]), under("vram");
            && Merge(Merge(a, b), c) == c
            && LeafAt(Merge(a, Merge(b, c)), ["hardware", "ram"], v)
            && Merge(Merge(a, b), c) != Merge(a, Merge(b, c))
  {
    var under := (k: string) => Node(map["hardware" := Node(map[k := Leaf(v)])]);
    var a, b, c := under("ram"), Node(map["hardware" := Leaf(v)]), under("vram");
    assert Merge(Merge(a, b), c).kids == c.kids;
    var r := Merge(a, Merge(b, c));
    assert Merge(b, c).kids == c.kids;
    assert r.kids["hardware"] == Merge(a.kids["hardware"], c.kids["hardware"]);
    assert "ram" in r.kids["hardware"].kids && "ram" !in c.kids["hardware"].kids;
    assert ["hardware", "ram"][1..] == ["ram"];
    assert ["ram"][1..] == [];
    assert At(r.kids["hardware"].kids["ram"], []) == Some(Leaf(v));
    assert At(r.kids["hardware"], ["ram"]) == Some(Leaf(v));
  }
}
