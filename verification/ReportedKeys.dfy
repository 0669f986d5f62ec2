/** The flattened names as strings: which leaves share one, and when they come in string order. */
module ReportedKeys {
  import opened Ordering
  import opened Text
  import opened ConfigTree
  import opened ConfigKeys
  import opened DottedKeys

  // ---------- what a name spells ----------

  /** The keys broken at their dots. */
  function Broken(p: Path): Path { if p == [] then [] else Split(p[0], ".") + Broken(p[1..]) }

  /** What the name of a path spells: its keys without leading empty ones, broken at their dots. */
  function Segments(p: Path): Path { Broken(Named(p)) }

  ghost predicate DotFree(p: Path) { forall k | k in p :: '.' !in k }

  lemma {:induction false} DottedAppend(a: Path, b: Path)
    requires a != [] && b != []
    ensures Dotted(a + b) == Dotted(a) + "." + Dotted(b)
  {
    if |a| == 1 {
      assert (a + b)[1..] == b && (a + b)[0] == a[0];
    } else {
      DottedAppend(a[1..], b);
      assert (a + b)[1..] == a[1..] + b;
    }
  }

  lemma {:induction false} BrokenIsDotFree(p: Path)
    ensures DotFree(Broken(p)) && (Broken(p) == [] <==> p == [])
    ensures Dotted(Broken(p)) == Dotted(p)
  {
    if p != [] {
      SplitPartsAreFree(p[0], '.');
      JoinSplit(p[0], ".");
      BrokenIsDotFree(p[1..]);
      if |p| > 1 { DottedAppend(Split(p[0], "."), Broken(p[1..])); }
      else { assert Broken(p) == Split(p[0], "."); }
    }
  }

  lemma NamedIsShown(p: Path)
    ensures Named(p) != [] ==> Named(p)[0] != ""
  {
  }

  lemma SegmentsSpell(p: Path)
    ensures DotFree(Segments(p)) && Dotted(Segments(p)) == NameOf(p)
    ensures NameOf(p) == "" <==> Segments(p) == []
    ensures Segments(p) != [] ==> Split(NameOf(p), ".") == Segments(p)
  {
    NameIsDotted(p);
    BrokenIsDotFree(Named(p));
    NamedIsShown(p);
    if Segments(p) != [] {
      FirstKeyShows(Named(p));
      SplitJoin(Segments(p), '.');
    }
  }

  /** Two paths have one name exactly when they spell the same. */
  lemma SameName(p: Path, q: Path)
    ensures NameOf(p) == NameOf(q) <==> Segments(p) == Segments(q)
  {
    SegmentsSpell(p);
    SegmentsSpell(q);
  }

  // ---------- when a name repeats ----------

  /** No two leaf paths spell the same. */
  ghost predicate SpelledApart<V>(t: Tree<V>) {
    forall p, q | IsScalar(t, p) && IsScalar(t, q) && p != q :: Segments(p) != Segments(q)
  }

  lemma RepeatedName<V>(t: Tree<V>, p: Path, q: Path)
    requires IsScalar(t, p) && IsScalar(t, q) && p != q && NameOf(p) == NameOf(q)
    ensures !Distinct(Names(t))
  {
    var i := PlaceOfName(t, p);
    var j := PlaceOfName(t, q);
    assert i != j;
  }

  lemma PlaceOfName<V>(t: Tree<V>, p: Path) returns (i: nat)
    requires IsScalar(t, p)
    ensures i < |Names(t)| == |Paths(t)| && Paths(t)[i] == p && Names(t)[i] == NameOf(p)
  {
    FlattenIsPaths(t, []);
    PathsAreLeaves(t, p);
    i :| i < |Paths(t)| && Paths(t)[i] == p;
    assert [] + p == p;
  }

  lemma DottedKeyName()
    ensures NameOf(["a", "b"]) == NameOf(["a.b"])
  {
    assert ["a", "b"][..1] == ["a"] && ["a"][..0] == [] && ["a.b"][..0] == [];
    assert NameOf(["a"]) == "a";
  }

  lemma TwoLevels<V>(t: Tree<V>, k: string, l: string)
    requires t.Node? && k in t.kids && t.kids[k].Node? && l in t.kids[k].kids
    ensures At(t, [k]) == Some(t.kids[k]) && At(t, [k, l]) == Some(t.kids[k].kids[l])
  {
    assert [k][1..] == [] && [k, l][1..] == [l] && [l][1..] == [];
    assert At(t.kids[k], [l]) == Some(t.kids[k].kids[l]);
  }

  lemma OneLevel<V>(t: Tree<V>, k: string)
    requires t.Node? && k in t.kids
    ensures At(t, [k]) == Some(t.kids[k])
  {
    assert [k][1..] == [];
  }

  /** A dot inside a key can make one name of two leaves. */
  lemma NamesMayRepeat<V>(v: V)
    ensures var t := Node(map["a" := Node(map["b" := Leaf(v)]), "a.b" := Leaf(v)]);
            !Distinct(Names(t))
  {
    var t := Node(map["a" := Node(map["b" := Leaf(v)]), "a.b" := Leaf(v)]);
    TwoLevels(t, "a", "b");
    OneLevel(t, "a.b");
    DottedKeyName();
    assert |["a", "b"]| != |["a.b"]|;
    RepeatedName(t, ["a", "b"], ["a.b"]);
  }

  /** Whatever the keys, no name is emitted twice exactly when no two leaf paths spell the same. */
  lemma NamesDistinct<V>(t: Tree<V>)
    ensures Distinct(Names(t)) <==> SpelledApart(t)
  {
    if p, q :| IsScalar(t, p) && IsScalar(t, q) && p != q && Segments(p) == Segments(q) {
      SameName(p, q);
      RepeatedName(t, p, q);
    } else {
      FlattenIsPaths(t, []);
      PathsIncrease(t);
      PathLessTotal();
      forall i, j | 0 <= i < j < |Names(t)| ensures Names(t)[i] != Names(t)[j] {
        var p, q := LeafPath(t, i), LeafPath(t, j);
        assert p != q by { assert PathLess(Paths(t)[i], Paths(t)[j]); }
        assert [] + p == p && [] + q == q;
        SameName(p, q);
      }
    }
  }

  ghost function LeafPath<V>(t: Tree<V>, i: nat): (p: Path)
    requires i < |Paths(t)|
    ensures p == Paths(t)[i] && IsScalar(t, p)
  {
    PathsAreLeaves(t, Paths(t)[i]);
    Paths(t)[i]
  }

  // ---------- string order of names ----------

  /** Key by key, but a key that the other's extends goes on with a dot unless it is the last. */
  predicate NameLess(s: Path, t: Path) {
    t != [] &&
    (s == [] ||
     if s[0] == t[0] then NameLess(s[1..], t[1..])
     else if s[0] <= t[0] then |s| == 1 || t[0][|s[0]|] > '.'
     else if t[0] <= s[0] then |t| > 1 && s[0][|t[0]|] < '.'
     else StrLess(s[0], t[0]))
  }

  /** How the rest of a dotted path goes on after its first key. */
  lemma DottedHead(p: Path) returns (rest: string)
    requires p != []
    ensures Dotted(p) == p[0] + rest
    ensures rest == if |p| == 1 then "" else "." + Dotted(p[1..])
  {
    rest := if |p| == 1 then "" else "." + Dotted(p[1..]);
    if |p| == 1 { assert p[0] + rest == p[0]; } else { assert p[0] + "." + Dotted(p[1..]) == p[0] + rest; }
  }

  lemma ExtendedHead(a: string, b: string, x: string, y: string)
    requires '.' !in b && a <= b && a != b
    requires x == "" || x[0] == '.'
    ensures StrLess(a + x, b + y) <==> x == "" || b[|a|] > '.'
    ensures a + x != b + y
  {
    var tail := b[|a|..];
    assert b == a + tail && tail[0] == b[|a|] && b[|a|] in b;
    assert b + y == a + (tail + y);
    LessAfterCommon(a, x, tail + y);
    assert (b + y)[|a|] == b[|a|] && (x != "" ==> (a + x)[|a|] == '.');
  }

  /** Comparing names as strings compares what they spell key by key. */
  lemma {:induction false} NameLessIsStrLess(s: Path, t: Path)
    requires s != [] && t != [] && DotFree(s) && DotFree(t)
    ensures StrLess(Dotted(s), Dotted(t)) <==> NameLess(s, t)
  {
    var x := DottedHead(s);
    var y := DottedHead(t);
    var a, b := s[0], t[0];
    assert '.' !in a && '.' !in b by { assert a in s && b in t; }
    if a == b {
      LessAfterCommon(a, x, y);
      if |s| > 1 && |t| > 1 {
        LessAfterCommon(".", Dotted(s[1..]), Dotted(t[1..]));
        NameLessIsStrLess(s[1..], t[1..]);
      }
    } else if a <= b {
      ExtendedHead(a, b, x, y);
    } else if b <= a {
      ExtendedHead(b, a, y, x);
      StrLessTotal();
    } else {
      LessAtDifference(a, b, x, y);
    }
  }

  lemma NamesCompare(p: Path, q: Path)
    ensures StrLess(NameOf(p), NameOf(q)) <==> NameLess(Segments(p), Segments(q))
  {
    SegmentsSpell(p);
    SegmentsSpell(q);
    if Segments(p) != [] && Segments(q) != [] { NameLessIsStrLess(Segments(p), Segments(q)); }
  }

  /** The names reported for what a tree has below a path. */
  ghost function NamesBelow<V>(t: Tree<V>, base: Path): seq<string> { Firsts(Flatten(t, NameOf(base))) }

  /** Of two leaf paths the earlier spells the smaller name. */
  ghost predicate InNameOrder<V>(t: Tree<V>, base: Path) {
    forall p, q | IsScalar(t, p) && IsScalar(t, q) && PathLess(p, q) ::
      NameLess(Segments(base + p), Segments(base + q))
  }

  lemma PlacesInOrder(ps: seq<Path>, p: Path, q: Path) returns (i: nat, j: nat)
    requires Increasing(PathLess, ps) && p in ps && q in ps && PathLess(p, q)
    ensures i < j < |ps| && ps[i] == p && ps[j] == q
  {
    i :| i < |ps| && ps[i] == p;
    j :| j < |ps| && ps[j] == q;
    PathLessTotal();
  }

  /** Whatever the keys, the names are sorted as strings exactly when key by key comparison agrees with
      segment order on every two leaf paths. */
  lemma NamesInStringOrder<V>(t: Tree<V>, base: Path)
    ensures Increasing(StrLess, NamesBelow(t, base)) <==> InNameOrder(t, base)
  {
    var ps, names := Paths(t), NamesBelow(t, base);
    FlattenIsPaths(t, base);
    PathsIncrease(t);
    if InNameOrder(t, base) {
      forall i, j | 0 <= i < j < |names| ensures StrLess(names[i], names[j]) {
        var p, q := LeafPath(t, i), LeafPath(t, j);
        assert PathLess(p, q);
        NamesCompare(base + p, base + q);
      }
    }
    if Increasing(StrLess, names) {
      forall p, q | IsScalar(t, p) && IsScalar(t, q) && PathLess(p, q)
        ensures NameLess(Segments(base + p), Segments(base + q))
      {
        PathsAreLeaves(t, p);
        PathsAreLeaves(t, q);
        var i, j := PlacesInOrder(ps, p, q);
        assert StrLess(names[i], names[j]);
        NamesCompare(base + p, base + q);
      }
    }
  }

  // ---------- with plain keys ----------

  lemma {:induction false} BrokenPlain(p: Path)
    requires DotFree(p)
    ensures Broken(p) == p
  {
    if p != [] {
      assert p[0] in p && forall k | k in p[1..] :: k in p;
      SplitWhole(p[0], '.');
      BrokenPlain(p[1..]);
      assert p == [p[0]] + p[1..];
    }
  }

  lemma PlainSegments(p: Path)
    requires PlainPath(p)
    ensures Segments(p) == p
  {
    if p != [] { assert p[0] in p; }
    BrokenPlain(p);
  }

  /** Somewhere in the tree there is a leaf. */
  predicate Leafy<V>(t: Tree<V>) { t.Leaf? || exists k :: k in t.kids && Leafy(t.kids[k]) }

  lemma {:induction false} LeafyAbove<V>(t: Tree<V>, p: Path)
    requires IsScalar(t, p)
    ensures Leafy(t)
  {
    if p != [] { LeafyAbove(t.kids[p[0]], p[1..]); }
  }

  lemma {:induction false} SomeLeaf<V>(t: Tree<V>) returns (p: Path)
    requires Leafy(t)
    ensures IsScalar(t, p)
  {
    p := [];
    if t.Node? {
      var k :| k in t.kids && Leafy(t.kids[k]);
      var q := SomeLeaf(t.kids[k]);
      assert ([k] + q)[1..] == q;
      p := [k] + q;
    }
  }

  /** Of two siblings with leaves below them, none is a mapping whose key the other's extends with a
      character before the dot. */
  predicate DotSafe<V>(t: Tree<V>) {
    t.Leaf? ||
    forall k | k in t.kids ::
      DotSafe(t.kids[k]) &&
      (t.kids[k].Node? && Leafy(t.kids[k]) ==>
        forall other | other in t.kids && Leafy(t.kids[other]) :: k < other ==> other[|k|] >= '.')
  }

  lemma HeadsInOrder(p: Path, q: Path)
    requires p != [] && q != [] && PathLess(p, q)
    ensures if p[0] == q[0] then PathLess(p[1..], q[1..]) else StrLess(p[0], q[0]) && !(q[0] <= p[0])
  {
    if p[0] == q[0] {
      StrLessTotal();
    } else if q[0] <= p[0] {
      assert p[0] == q[0] + p[0][|q[0]|..];
      LessThanExtension(q[0], p[0][|q[0]|..]);
    }
  }

  lemma {:induction false} SafeLeaves<V>(t: Tree<V>, p: Path, q: Path)
    requires PlainKeys(t) && DotSafe(t) && IsScalar(t, p) && IsScalar(t, q) && PathLess(p, q)
    ensures NameLess(p, q)
  {
    if p != [] {
      var a, b := p[0], q[0];
      HeadsInOrder(p, q);
      if a == b {
        SafeLeaves(t.kids[a], p[1..], q[1..]);
      } else if a <= b && |p| > 1 {
        assert At(t, p) == At(t.kids[a], p[1..]) && p[1..] != [];
        LeafyAbove(t.kids[a], p[1..]);
        LeafyAbove(t.kids[b], q[1..]);
        assert b[|a|] in b;
      }
    }
  }

  lemma {:induction false} UnsafeLeaves<V>(t: Tree<V>) returns (p: Path, q: Path)
    requires !DotSafe(t)
    ensures IsScalar(t, p) && IsScalar(t, q) && PathLess(p, q) && !NameLess(p, q)
  {
    StrLessTotal();
    if k :| k in t.kids && !DotSafe(t.kids[k]) {
      p, q := UnsafeLeaves(t.kids[k]);
      PathLessUnder(k, p, q);
      assert ([k] + p)[1..] == p && ([k] + q)[1..] == q;
      p, q := [k] + p, [k] + q;
    } else {
      var k, other :| k in t.kids && other in t.kids && t.kids[k].Node? && Leafy(t.kids[k]) && Leafy(t.kids[other])
        && k < other && other[|k|] < '.';
      p := SomeLeaf(t.kids[k]);
      q := SomeLeaf(t.kids[other]);
      assert ([k] + p)[1..] == p && ([other] + q)[1..] == q;
      assert other == k + other[|k|..];
      LessThanExtension(k, other[|k|..]);
      p, q := [k] + p, [other] + q;
    }
  }

  /** With plain keys: the names are sorted as strings exactly on dot-safe trees. */
  lemma PlainNamesInStringOrder<V>(t: Tree<V>, base: Path)
    requires PlainKeys(t) && PlainPath(base)
    ensures Increasing(StrLess, NamesBelow(t, base)) <==> DotSafe(t)
  {
    NamesInStringOrder(t, base);
    if DotSafe(t) {
      forall p, q | IsScalar(t, p) && IsScalar(t, q) && PathLess(p, q)
        ensures NameLess(Segments(base + p), Segments(base + q))
      {
        SafeLeaves(t, p, q);
        PlainLeafNames(t, base, p, q);
      }
    } else {
      var p, q := UnsafeLeaves(t);
      PlainLeafNames(t, base, p, q);
    }
  }

  lemma PlainLeafNames<V>(t: Tree<V>, base: Path, p: Path, q: Path)
    requires PlainKeys(t) && PlainPath(base) && Defines(t, p) && Defines(t, q)
    ensures NameLess(Segments(base + p), Segments(base + q)) <==> NameLess(p, q)
  {
    PlainPaths(t, p);
    PlainPaths(t, q);
    PlainSegments(base + p);
    PlainSegments(base + q);
    NameLessAfterCommon(base, p, q);
  }

  lemma {:induction false} NameLessAfterCommon(c: Path, s: Path, t: Path)
    ensures NameLess(c + s, c + t) <==> NameLess(s, t)
  {
    if c == [] {
      assert c + s == s && c + t == t;
    } else {
      assert (c + s)[1..] == c[1..] + s && (c + t)[1..] == c[1..] + t;
      NameLessAfterCommon(c[1..], s, t);
    }
  }

  // ---------- the keys reported of one layer ----------

  predicate IdentifierChar(c: char) { 'a' <= c <= 'z' || 'A' <= c <= 'Z' || '0' <= c <= '9' || c == '_' }

  predicate Identifier(k: string) { k != "" && forall c | c in k :: IdentifierChar(c) }

  /** Every key at every level is an identifier, as the names of the fields of a schema are. */
  predicate IdentifierKeys<V>(t: Tree<V>) {
    t.Leaf? || forall k | k in t.kids :: Identifier(k) && IdentifierKeys(t.kids[k])
  }

  lemma {:induction false} IdentifierPath<V>(t: Tree<V>, p: Path)
    requires IdentifierKeys(t) && Defines(t, p)
    ensures forall k | k in p :: Identifier(k)
  {
    if p != [] { IdentifierPath(t.kids[p[0]], p[1..]); }
  }

  /** A later layer replaces the mapping that this layer has at `p` by a scalar. */
  ghost predicate Shadowed<V>(layers: seq<Tree<V>>, i: nat, p: Path)
    requires i < |layers|
  {
    IsMapping(layers[i], p) && exists j :: i < j < |layers| && IsScalar(layers[j], p)
  }

  /** No later layer has a scalar above `p`. */
  ghost predicate Open<V>(layers: seq<Tree<V>>, i: nat, p: Path) {
    forall j | i < j < |layers| :: !ScalarAbove(layers[j], p)
  }

  /** What a layer defines is defined in the merge unless a later layer has a scalar above it. */
  lemma {:induction false} OpenSurvives<V>(layers: seq<Tree<V>>, i: nat, p: Path)
    requires i < |layers| && Defines(layers[i], p) && Open(layers, i, p)
    ensures Defines(MergeAll(layers), p)
  {
    var n := |layers| - 1;
    var front := layers[..n];
    MergeLookup(MergeAll(front), layers[n], p);
    OccupiedMeans(layers[n], p);
    if i < n { OpenSurvives(front, i, p); }
  }

  lemma OpenBelow<V>(layers: seq<Tree<V>>, i: nat, p: Path, k: string)
    requires i < |layers| && Open(layers, i, p) && IsMapping(layers[i], p) && !Shadowed(layers, i, p)
    ensures Open(layers, i, p + [k])
  {
    forall j | i < j < |layers| ensures !ScalarAbove(layers[j], p + [k]) {
      forall n: nat | n < |p + [k]| ensures !IsScalar(layers[j], (p + [k])[..n]) {
        assert (p + [k])[..n] == p[..n] && p[..|p|] == p;
        assert n < |p| ==> !IsScalar(layers[j], p[..n]);
      }
    }
  }

  lemma {:induction false} BrokenAppend(p: Path, q: Path)
    ensures Broken(p + q) == Broken(p) + Broken(q)
  {
    if p == [] {
      assert p + q == q;
    } else {
      assert (p + q)[1..] == p[1..] + q;
      BrokenAppend(p[1..], q);
    }
  }

  lemma IdentifiersAreWhole(p: Path)
    requires forall k | k in p :: Identifier(k)
    ensures Broken(p) == p
  {
    forall k | k in p ensures '.' !in k { assert Identifier(k); }
    BrokenPlain(p);
  }

  /** Names that part at two identifiers are in the order of these. */
  lemma PartAtIdentifiers(p: Path, a: string, q: Path, b: string, r: Path)
    requires (forall k | k in p :: Identifier(k)) && Identifier(a) && Identifier(b)
    requires StrLess(a, b) && !(b <= a)
    ensures NameLess(Segments(p + [a] + q), Segments(p + [b] + r))
  {
    SegmentsAfter(p + [a], q);
    SegmentsAfter(p + [b], r);
    assert p + [a] + Broken(q) == p + ([a] + Broken(q)) && p + [b] + Broken(r) == p + ([b] + Broken(r));
    NameLessAfterCommon(p, [a] + Broken(q), [b] + Broken(r));
    PartAtKeys(a, Broken(q), b, Broken(r));
  }

  lemma PartAtKeys(a: string, q: Path, b: string, r: Path)
    requires Identifier(b) && StrLess(a, b) && !(b <= a)
    ensures NameLess([a] + q, [b] + r)
  {
    StrLessTotal();
    if a <= b { assert b[|a|] in b; }
  }

  lemma SegmentsAfter(c: Path, q: Path)
    requires c != [] && forall k | k in c :: Identifier(k)
    ensures Segments(c + q) == c + Broken(q)
  {
    assert c[0] in c && (c + q)[0] == c[0];
    NamedIsAll(c + q);
    IdentifiersAreWhole(c);
    BrokenAppend(c, q);
  }

  lemma NamedIsAll(p: Path)
    requires p != [] && p[0] != ""
    ensures Named(p) == p
  {
  }

  lemma ChildIsOpen<V>(layers: seq<Tree<V>>, i: nat, p: Path, t: Tree<V>, k: string)
    requires i < |layers| && At(layers[i], p) == Some(t) && t.Node? && k in t.kids
    requires Open(layers, i, p) && !Shadowed(layers, i, p)
    ensures At(layers[i], p + [k]) == Some(t.kids[k]) && Open(layers, i, p + [k])
  {
    AtAppend(layers[i], p, [k]);
    assert [k][1..] == [];
    OpenBelow(layers, i, p, k);
  }

  lemma OpenIdentifiers<V>(layers: seq<Tree<V>>, i: nat, p: Path)
    requires i < |layers| && IdentifierKeys(MergeAll(layers)) && Defines(layers[i], p) && Open(layers, i, p)
    ensures forall k | k in p :: Identifier(k)
  {
    OpenSurvives(layers, i, p);
    IdentifierPath(MergeAll(layers), p);
  }

  /** Two leaves that part at an open mapping are in name order. */
  lemma OrderAtParting<V>(layers: seq<Tree<V>>, i: nat, p: Path, a: string, q: Path, b: string, r: Path)
    requires i < |layers| && IdentifierKeys(MergeAll(layers)) && StrLess(a, b) && !(b <= a)
    requires Defines(layers[i], p + [a]) && Open(layers, i, p + [a])
    requires Defines(layers[i], p + [b]) && Open(layers, i, p + [b])
    ensures NameLess(Segments(p + [a] + q), Segments(p + [b] + r))
  {
    OpenIdentifiers(layers, i, p + [a]);
    OpenIdentifiers(layers, i, p + [b]);
    assert a in p + [a] && b in p + [b] && forall k | k in p :: k in p + [a];
    PartAtIdentifiers(p, a, q, b, r);
  }

  /** Every mapping of the layer that is shadowed has its leaves in name order. */
  ghost predicate ShadowsInOrder<V>(layers: seq<Tree<V>>, i: nat)
    requires i < |layers|
  {
    forall p | Shadowed(layers, i, p) :: InNameOrder(At(layers[i], p).value, p)
  }

  lemma {:induction false} OrderBelow<V>(layers: seq<Tree<V>>, i: nat, p: Path, t: Tree<V>, q: Path, r: Path)
    requires i < |layers| && IdentifierKeys(MergeAll(layers)) && ShadowsInOrder(layers, i)
    requires At(layers[i], p) == Some(t) && Open(layers, i, p)
    requires IsScalar(t, q) && IsScalar(t, r) && PathLess(q, r)
    ensures NameLess(Segments(p + q), Segments(p + r))
    decreases |q|
  {
    if !Shadowed(layers, i, p) {
      assert q != [] && r != [];
      var a, b := q[0], r[0];
      HeadsInOrder(q, r);
      ChildIsOpen(layers, i, p, t, a);
      ChildIsOpen(layers, i, p, t, b);
      assert p + q == p + [a] + q[1..] && p + r == p + [b] + r[1..];
      if a == b {
        OrderBelow(layers, i, p + [a], t.kids[a], q[1..], r[1..]);
      } else {
        OrderAtParting(layers, i, p, a, q[1..], b, r[1..]);
      }
    }
  }

  /** The names reported of the mapping at `p` are sorted as strings. */
  ghost predicate SortedAt<V>(t: Tree<V>, p: Path)
    requires Defines(t, p)
  {
    Increasing(StrLess, NamesBelow(At(t, p).value, p))
  }

  /** When the merged settings have identifiers for keys, the keys reported of a layer are sorted as strings
      exactly when those below every mapping that a later layer's scalar replaces are. */
  lemma ReportedKeysInOrder<V>(layers: seq<Tree<V>>, i: nat)
    requires i < |layers| && IdentifierKeys(MergeAll(layers))
    ensures Increasing(StrLess, Names(layers[i])) <==>
            forall p | Shadowed(layers, i, p) :: SortedAt(layers[i], p)
  {
    var t := layers[i];
    NamesInStringOrder(t, []);
    forall p | Shadowed(layers, i, p)
      ensures SortedAt(t, p) <==> InNameOrder(At(t, p).value, p)
    {
      NamesInStringOrder(At(t, p).value, p);
    }
    if InNameOrder(t, []) {
      forall p | Shadowed(layers, i, p) ensures InNameOrder(At(t, p).value, p) { OrderInside(t, p); }
    } else if ShadowsInOrder(layers, i) {
      var q, r :| IsScalar(t, q) && IsScalar(t, r) && PathLess(q, r) && !NameLess(Segments([] + q), Segments([] + r));
      OrderBelow(layers, i, [], t, q, r);
    }
  }

  lemma OrderInside<V>(t: Tree<V>, p: Path)
    requires InNameOrder(t, []) && Defines(t, p)
    ensures InNameOrder(At(t, p).value, p)
  {
    var sub := At(t, p).value;
    forall q, r | IsScalar(sub, q) && IsScalar(sub, r) && PathLess(q, r)
      ensures NameLess(Segments(p + q), Segments(p + r))
    {
      AtAppend(t, p, q);
      AtAppend(t, p, r);
      PathLessBelow(p, q, r);
      assert [] + (p + q) == p + q && [] + (p + r) == p + r;
    }
  }

  lemma {:induction false} PathLessBelow(p: Path, q: Path, r: Path)
    ensures PathLess(p + q, p + r) <==> PathLess(q, r)
  {
    if p == [] {
      assert p + q == q && p + r == r;
    } else {
      PathLessBelow(p[1..], q, r);
      PathLessUnder(p[0], p[1..] + q, p[1..] + r);
      assert p + q == [p[0]] + (p[1..] + q) && p + r == [p[0]] + (p[1..] + r);
    }
  }

  lemma ThreeLayers<V>(file: Tree<V>, env: Tree<V>, cli: Tree<V>)
    requires file.Node?
    ensures MergeAll([file, env, cli]) == Merge(Merge(file, env), cli)
  {
    assert [file, env, cli][..2] == [file, env] && [file, env][..1] == [file] && [file][..0] == [];
    MergeIdentity(file);
    assert MergeAll([file]) == Merge(MergeAll([]), file) == file;
    assert MergeAll([file, env]) == Merge(file, env);
  }

  /** The keys `discover_settings` reports: those of the command line are sorted, and those of the file and of
      the environment too unless a mapping that a higher layer replaces by a scalar has them out of order. */
  lemma DiscoveredKeysInOrder<V>(file: Tree<V>, env: Tree<V>, cli: Tree<V>)
    requires file.Node? && IdentifierKeys(Merge(Merge(file, env), cli))
    ensures Increasing(StrLess, Names(cli))
    ensures Increasing(StrLess, Names(env)) <==> forall p | IsMapping(env, p) && IsScalar(cli, p) :: SortedAt(env, p)
    ensures Increasing(StrLess, Names(file)) <==>
            forall p | IsMapping(file, p) && (IsScalar(env, p) || IsScalar(cli, p)) :: SortedAt(file, p)
  {
    var layers := [file, env, cli];
    ThreeLayers(file, env, cli);
    ShadowedByTwo(file, env, cli);
    ReportedKeysInOrder(layers, 0);
    ReportedKeysInOrder(layers, 1);
    ReportedKeysInOrder(layers, 2);
  }

  lemma ShadowedByTwo<V>(file: Tree<V>, env: Tree<V>, cli: Tree<V>)
    ensures var layers := [file, env, cli];
            && (forall p :: Shadowed(layers, 0, p) <==> IsMapping(file, p) && (IsScalar(env, p) || IsScalar(cli, p)))
            && (forall p :: Shadowed(layers, 1, p) <==> IsMapping(env, p) && IsScalar(cli, p))
            && (forall p :: !Shadowed(layers, 2, p))
  {
    var layers := [file, env, cli];
    assert layers[1] == env && layers[2] == cli;
    assert forall p :: IsScalar(env, p) <==> IsScalar(layers[1], p);
    assert forall p :: IsScalar(cli, p) <==> IsScalar(layers[2], p);
  }

  lemma UnsafeSiblings<V>(t: Tree<V>, k: string, other: string)
    requires t.Node? && k in t.kids && other in t.kids && t.kids[k].Node? && Leafy(t.kids[k]) && Leafy(t.kids[other])
    requires k < other && other[|k|] < '.'
    ensures !DotSafe(t)
  {
  }

  lemma LeafyChild<V>(t: Tree<V>, k: string)
    requires t.Node? && k in t.kids && Leafy(t.kids[k])
    ensures Leafy(t)
  {
  }

  lemma UnsafeChild<V>(t: Tree<V>, k: string)
    requires t.Node? && k in t.kids && !DotSafe(t.kids[k])
    ensures !DotSafe(t)
  {
  }

  function Run<V>(v: V): Tree<V> { Node(map["run" := Node(map["seed" := Leaf(v)]), "run-id" := Leaf(v)]) }

  lemma RunIsUnsafe<V>(v: V)
    ensures PlainKeys(Run(v)) && !DotSafe(Run(v))
  {
    LeafyChild(Run(v).kids["run"], "seed");
    assert "run" < "run-id" && "run-id"[|"run"|] < '.';
    UnsafeSiblings(Run(v), "run", "run-id");
  }

  lemma OneKeyReplaced<V>(k: string, t: Tree<V>, w: V)
    requires Identifier(k)
    ensures var file, cli := Node(map[k := t]), Node(map[k := Leaf(w)]);
            Merge(Merge(file, Empty()), cli) == cli && IdentifierKeys(cli)
  {
    var file, cli := Node(map[k := t]), Node(map[k := Leaf(w)]);
    MergeIdentity(file);
    assert Merge(file, cli).kids == cli.kids;
  }

  lemma IdentifierIsPlain(k: string)
    requires Identifier(k)
    ensures PlainKey(k)
  {
  }

  lemma UnsafeUnderKey<V>(k: string, t: Tree<V>)
    requires PlainKey(k) && PlainKeys(t) && !DotSafe(t)
    ensures !Increasing(StrLess, Names(Node(map[k := t])))
  {
    var file := Node(map[k := t]);
    UnsafeChild(file, k);
    PlainNamesInStringOrder(file, []);
  }

  /** Whatever unsafe mapping a file has under a key that the command line sets to a scalar, the settings
      are those of the command line alone, and the file's keys are reported out of order. */
  lemma ReplacedMappingOutOfOrder<V>(k: string, t: Tree<V>, w: V)
    requires Identifier(k) && PlainKeys(t) && !DotSafe(t)
    ensures var file, cli := Node(map[k := t]), Node(map[k := Leaf(w)]);
            && Expand([(k, Leaf(w))]) == Ok(cli)
            && Merge(Merge(file, Empty()), cli) == cli && IdentifierKeys(cli)
            && !Increasing(StrLess, Names(file))
  {
    IdentifierIsPlain(k);
    OneKeyReplaced(k, t, w);
    ExpandOne(k, Leaf(w));
    UnsafeUnderKey(k, t);
  }

  /** `run.seed` is reported before `run-id` when `log_level` of the file holds both. */
  lemma ReportedKeysOutOfOrder<V>(v: V, w: V)
    ensures var file, cli := Node(map["log_level" := Run(v)]), Node(map["log_level" := Leaf(w)]);
            Merge(Merge(file, Empty()), cli) == cli && IdentifierKeys(cli) && !Increasing(StrLess, Names(file))
  {
    RunIsUnsafe(v);
    ReplacedMappingOutOfOrder("log_level", Run(v), w);
  }

  lemma ExpandOne<V>(k: string, t: Tree<V>)
    requires PlainKey(k)
    ensures Expand([(k, t)]) == Ok(Node(map[k := t]))
  {
    SplitWhole(k, '.');
    var items := [(k, t)];
    assert items[..0] == [] && [k][1..] == [] && Single([k], t) == Node(map[k := t]);
    assert "" !in [k];
    MergeIdentity(Single([k], t));
    assert Expand(items[..0]) == Ok(Empty());
  }
}
