/** Flattening a tree to sorted dotted names, and expanding dotted names back into a tree. */
module DottedKeys {
  import opened Ordering
  import opened Text
  import opened ConfigTree
  import opened ConfigKeys

  // ---------- flattening ----------

  ghost function SortedKeys<V>(t: Tree<V>): (r: seq<string>)
    requires t.Node?
    ensures Increasing(StrLess, r) && Elements(r) == t.kids.Keys
    ensures forall k | k in r :: k in t.kids
  {
    StrLessTotal();
    SortedSetIncreases(StrLess, t.kids.Keys);
    var r := SortedSet(StrLess, t.kids.Keys);
    assert forall k | k in r :: k in Elements(r);
    r
  }

  function Extend(prefix: string, key: string): string {
    if prefix != "" then prefix + "." + key else key
  }

  /** The emitted names, each with the leaf it names. */
  ghost function Flatten<V>(t: Tree<V>, prefix: string): seq<(string, Tree<V>)>
    decreases t, 1, 0
  {
    if t.Leaf? then [(prefix, t)] else FlattenOver(t, SortedKeys(t), prefix)
  }

  ghost function FlattenOver<V>(t: Tree<V>, keys: seq<string>, prefix: string): seq<(string, Tree<V>)>
    requires t.Node? && forall k | k in keys :: k in t.kids
    decreases t, 0, |keys|
  {
    if keys == [] then []
    else Flatten(t.kids[keys[0]], Extend(prefix, keys[0])) + FlattenOver(t, keys[1..], prefix)
  }

  function Firsts<A, B>(s: seq<(A, B)>): (r: seq<A>)
    ensures |r| == |s| && forall i | 0 <= i < |s| :: r[i] == s[i].0
  {
    seq(|s|, i requires 0 <= i < |s| => s[i].0)
  }

  ghost function Names<V>(t: Tree<V>): seq<string> { Firsts(Flatten(t, "")) }

  /** The leaf paths, keys in sorted order at every level. */
  ghost function Paths<V>(t: Tree<V>): seq<Path>
    decreases t, 1, 0
  {
    if t.Leaf? then [[]] else PathsOver(t, SortedKeys(t))
  }

  ghost function PathsOver<V>(t: Tree<V>, keys: seq<string>): seq<Path>
    requires t.Node? && forall k | k in keys :: k in t.kids
    decreases t, 0, |keys|
  {
    if keys == [] then [] else Under(keys[0], Paths(t.kids[keys[0]])) + PathsOver(t, keys[1..])
  }

  function Under(k: string, ps: seq<Path>): (r: seq<Path>)
    ensures |r| == |ps| && forall i | 0 <= i < |ps| :: r[i] == [k] + ps[i]
  {
    seq(|ps|, i requires 0 <= i < |ps| => [k] + ps[i])
  }

  // ---------- the leaf paths are complete and increasing ----------

  lemma {:induction false} PathsAreLeaves<V>(t: Tree<V>, p: Path)
    ensures p in Paths(t) <==> IsScalar(t, p)
    decreases t, 1, 0
  {
    if t.Node? {
      PathsOverAreLeaves(t, SortedKeys(t), p);
      assert p != [] ==> (p[0] in SortedKeys(t) <==> p[0] in Elements(SortedKeys(t)));
    }
  }

  lemma {:induction false} PathsOverAreLeaves<V>(t: Tree<V>, keys: seq<string>, p: Path)
    requires t.Node? && forall k | k in keys :: k in t.kids
    ensures p in PathsOver(t, keys) <==> p != [] && p[0] in keys && IsScalar(t, p)
    decreases t, 0, |keys|
  {
    if keys != [] {
      var ps := Paths(t.kids[keys[0]]);
      PathsOverAreLeaves(t, keys[1..], p);
      if p != [] {
        PathsAreLeaves(t.kids[keys[0]], p[1..]);
        if p in Under(keys[0], ps) {
          var i :| 0 <= i < |ps| && p == [keys[0]] + ps[i];
          assert p[1..] == ps[i];
        }
        if p[0] == keys[0] && p[1..] in ps {
          var i :| 0 <= i < |ps| && p[1..] == ps[i];
          assert p == Under(keys[0], ps)[i];
        }
      }
    }
  }

  lemma PathLessUnder(k: string, p: Path, q: Path)
    ensures PathLess([k] + p, [k] + q) <==> PathLess(p, q)
  {
    StrLessTotal();
    assert ([k] + p)[1..] == p && ([k] + q)[1..] == q;
  }

  lemma {:induction false} PathsIncrease<V>(t: Tree<V>)
    ensures Increasing(PathLess, Paths(t))
    decreases t, 1, 0
  {
    if t.Node? { PathsOverIncrease(t, SortedKeys(t)); }
  }

  lemma {:induction false} PathsOverIncrease<V>(t: Tree<V>, keys: seq<string>)
    requires t.Node? && (forall k | k in keys :: k in t.kids) && Increasing(StrLess, keys)
    ensures Increasing(PathLess, PathsOver(t, keys))
    decreases t, 0, |keys|
  {
    if keys != [] {
      var k, rest := keys[0], PathsOver(t, keys[1..]);
      var ps := Paths(t.kids[k]);
      var first := Under(k, ps);
      PathsIncrease(t.kids[k]);
      PathsOverIncrease(t, keys[1..]);
      forall i, j | 0 <= i < j < |first| ensures PathLess(first[i], first[j]) {
        PathLessUnder(k, ps[i], ps[j]);
      }
      forall i, j | 0 <= i < |first| && 0 <= j < |rest| ensures PathLess(first[i], rest[j]) {
        PathsOverAreLeaves(t, keys[1..], rest[j]);
        assert rest[j] in rest;
        var n :| 0 <= n < |keys[1..]| && rest[j][0] == keys[1..][n];
        assert StrLess(keys[0], keys[n + 1]);
      }
    }
  }

  // ---------- plain keys ----------

  predicate PlainKey(k: string) { k != "" && '.' !in k }

  ghost predicate PlainPath(p: Path) { forall k | k in p :: PlainKey(k) }

  /** Every key at every level is non-empty and dot-free. */
  predicate PlainKeys<V>(t: Tree<V>) {
    t.Leaf? || forall k | k in t.kids :: PlainKey(k) && PlainKeys(t.kids[k])
  }

  lemma {:induction false} PlainPaths<V>(t: Tree<V>, p: Path)
    requires PlainKeys(t) && Defines(t, p)
    ensures PlainPath(p)
  {
    if p != [] { PlainPaths(t.kids[p[0]], p[1..]); }
  }

  function Dotted(p: Path): string { Join(".", p) }

  lemma {:induction false} JoinSnoc(p: Path, k: string)
    requires p != []
    ensures Dotted(p + [k]) == Dotted(p) + "." + k
  {
    if |p| == 1 {
      assert (p + [k])[1..] == [k] && (p + [k])[0] == p[0];
      assert Join(".", [k]) == k && Dotted(p) == p[0];
    } else {
      JoinSnoc(p[1..], k);
      assert (p + [k])[1..] == p[1..] + [k];
    }
  }

  /** The name of a path as it is built from the top: an empty prefix is not followed by a dot. */
  function NameOf(p: Path): string {
    if p == [] then "" else Extend(NameOf(p[..|p| - 1]), p[|p| - 1])
  }

  /** A path without its leading empty keys. */
  function Named(p: Path): Path { if p != [] && p[0] == "" then Named(p[1..]) else p }

  lemma {:induction false} NamedSnoc(p: Path, k: string)
    ensures Named(p + [k]) == if Named(p) != [] then Named(p) + [k] else if k == "" then [] else [k]
    ensures Named(p) != [] ==> Named(p)[0] != ""
  {
    if p == [] {
      assert p + [k] == [k] && [k][1..] == [];
    } else if p[0] == "" {
      NamedSnoc(p[1..], k);
      assert (p + [k])[1..] == p[1..] + [k];
    }
  }

  lemma FirstKeyShows(p: Path)
    requires p != [] && p[0] != ""
    ensures Dotted(p) != ""
  {
  }

  /** The emitted name of any path: its keys joined by dots, without leading empty ones. */
  lemma {:induction false} NameIsDotted(p: Path)
    ensures NameOf(p) == Dotted(Named(p))
  {
    if p != [] {
      var front, k := p[..|p| - 1], p[|p| - 1];
      NameIsDotted(front);
      NamedSnoc(front, k);
      assert p == front + [k];
      if Named(front) != [] {
        JoinSnoc(Named(front), k);
        FirstKeyShows(Named(front));
      }
    }
  }

  lemma PlainName(p: Path)
    requires PlainPath(p)
    ensures NameOf(p) == Dotted(p)
  {
    NameIsDotted(p);
    if p != [] { assert p[0] in p; }
  }

  ghost predicate NamesPaths<V>(t: Tree<V>, base: Path, flat: seq<(string, Tree<V>)>, paths: seq<Path>) {
    |flat| == |paths| &&
    forall i | 0 <= i < |flat| ::
      flat[i].0 == NameOf(base + paths[i]) && At(t, paths[i]) == Some(flat[i].1) && flat[i].1.Leaf?
  }

  lemma NameOfSnoc(base: Path, k: string)
    ensures NameOf(base + [k]) == Extend(NameOf(base), k)
  {
    assert (base + [k])[..|base|] == base;
  }

  /** Whatever the keys, the emitted names are those of the leaf paths, each with its leaf. */
  lemma {:induction false} FlattenIsPaths<V>(t: Tree<V>, base: Path)
    ensures NamesPaths(t, base, Flatten(t, NameOf(base)), Paths(t))
    decreases t, 1, 0
  {
    if t.Node? { FlattenOverIsPaths(t, SortedKeys(t), base); }
    else { assert base + [] == base; }
  }

  lemma {:induction false} FlattenOverIsPaths<V>(t: Tree<V>, keys: seq<string>, base: Path)
    requires t.Node? && forall k | k in keys :: k in t.kids
    ensures NamesPaths(t, base, FlattenOver(t, keys, NameOf(base)), PathsOver(t, keys))
    decreases t, 0, |keys|
  {
    if keys != [] {
      var k := keys[0];
      var kid := t.kids[k];
      NameOfSnoc(base, k);
      FlattenIsPaths(kid, base + [k]);
      FlattenOverIsPaths(t, keys[1..], base);
      NamesPathsUnder(t, k, base, Flatten(kid, NameOf(base + [k])), Paths(kid));
      NamesPathsConcat(t, base, Flatten(kid, NameOf(base + [k])), Under(k, Paths(kid)),
                       FlattenOver(t, keys[1..], NameOf(base)), PathsOver(t, keys[1..]));
    }
  }

  /** With plain keys the names are the dotted leaf paths. */
  lemma PlainNames<V>(t: Tree<V>)
    requires PlainKeys(t)
    ensures |Flatten(t, "")| == |Paths(t)|
    ensures forall i | 0 <= i < |Paths(t)| ::
              Flatten(t, "")[i].0 == Dotted(Paths(t)[i]) && At(t, Paths(t)[i]) == Some(Flatten(t, "")[i].1)
              && Flatten(t, "")[i].1.Leaf?
  {
    FlattenIsPaths(t, []);
    forall i | 0 <= i < |Paths(t)| ensures Flatten(t, "")[i].0 == Dotted(Paths(t)[i]) {
      assert [] + Paths(t)[i] == Paths(t)[i];
      PlainPaths(t, Paths(t)[i]);
      PlainName(Paths(t)[i]);
    }
  }

  lemma NamesPathsConcat<V>(t: Tree<V>, base: Path, f: seq<(string, Tree<V>)>, p: seq<Path>,
                            f': seq<(string, Tree<V>)>, p': seq<Path>)
    requires NamesPaths(t, base, f, p) && NamesPaths(t, base, f', p')
    ensures NamesPaths(t, base, f + f', p + p')
  {
  }

  lemma NamesPathsUnder<V>(t: Tree<V>, k: string, base: Path, flat: seq<(string, Tree<V>)>, ps: seq<Path>)
    requires t.Node? && k in t.kids && NamesPaths(t.kids[k], base + [k], flat, ps)
    ensures NamesPaths(t, base, flat, Under(k, ps))
  {
    forall i | 0 <= i < |ps|
      ensures base + ([k] + ps[i]) == (base + [k]) + ps[i] && At(t, [k] + ps[i]) == At(t.kids[k], ps[i])
    {
      assert ([k] + ps[i])[1..] == ps[i];
    }
  }

  lemma {:induction false} FlattenLeaves<V>(t: Tree<V>, prefix: string)
    ensures forall x | x in Flatten(t, prefix) :: x.1.Leaf?
    decreases t, 1, 0
  {
    if t.Node? { FlattenOverLeaves(t, SortedKeys(t), prefix); }
  }

  lemma {:induction false} FlattenOverLeaves<V>(t: Tree<V>, keys: seq<string>, prefix: string)
    requires t.Node? && forall k | k in keys :: k in t.kids
    ensures forall x | x in FlattenOver(t, keys, prefix) :: x.1.Leaf?
    decreases t, 0, |keys|
  {
    if keys != [] {
      FlattenLeaves(t.kids[keys[0]], Extend(prefix, keys[0]));
      FlattenOverLeaves(t, keys[1..], prefix);
    }
  }

  // ---------- expanding ----------

  datatype DottedError = EmptyKey | EmptySegment(key: string)

  function DottedSetting<V>(item: (string, Tree<V>)): (r: Setting<V>)
    ensures r.path != []
  {
    Setting(Split(item.0, "."), item.1)
  }

  /** Merge the tree of each dotted key over the result so far; refuse a key with an empty part. */
  function Expand<V>(items: seq<(string, Tree<V>)>): Outcome<Tree<V>, DottedError> {
    if items == [] then Ok(Empty())
    else
      var item := items[|items| - 1];
      match Expand(items[..|items| - 1])
      case Fail(e) => Fail(e)
      case Ok(t) =>
        if item.0 == "" then Fail(EmptyKey)
        else if "" in Split(item.0, ".") then Fail(EmptySegment(item.0))
        else Ok(Merge(t, Single(Split(item.0, "."), item.1)))
  }

  function DottedSettings<V>(items: seq<(string, Tree<V>)>): (r: seq<Setting<V>>)
    ensures |r| == |items| && forall i | 0 <= i < |items| :: r[i] == DottedSetting(items[i])
  {
    seq(|items|, i requires 0 <= i < |items| => DottedSetting(items[i]))
  }

  lemma {:induction false} ExpandIsOverlay<V>(items: seq<(string, Tree<V>)>)
    ensures Expand(items).Ok? <==> forall x | x in items :: "" !in Split(x.0, ".")
    ensures Expand(items).Ok? ==> Expand(items).value == Overlay(DottedSettings(items))
  {
    if items != [] {
      var n := |items| - 1;
      ExpandIsOverlay(items[..n]);
      OverlaySnoc(DottedSettings(items));
      assert DottedSettings(items)[..n] == DottedSettings(items[..n]);
      assert items == items[..n] + [items[n]];
      assert Split("", ".") == [""];
    }
  }

  // ---------- the round trip ----------

  lemma ScalarPathsDoNotClash<V>(t: Tree<V>, p: Path, q: Path)
    requires IsScalar(t, p) && IsScalar(t, q) && p <= q
    ensures p == q
  {
    assert q == p + q[|p|..];
    AtAppend(t, p, q[|p|..]);
  }

  lemma PlainNameSplits<V>(t: Tree<V>, p: Path)
    requires PlainKeys(t) && Defines(t, p) && p != []
    ensures Split(Dotted(p), ".") == p && "" !in p
  {
    PlainPaths(t, p);
    SplitJoin(p, '.');
  }

  /** What one flattened item of a plain tree is. */
  lemma FlatItem<V>(t: Tree<V>, item: (string, Tree<V>)) returns (p: Path)
    requires t.Node? && PlainKeys(t) && item in Flatten(t, "")
    ensures p != [] && IsScalar(t, p) && At(t, p) == Some(item.1)
    ensures item.0 == Dotted(p) && DottedSetting(item) == Setting(p, item.1) && "" !in p
  {
    PlainNames(t);
    var i :| 0 <= i < |Flatten(t, "")| && Flatten(t, "")[i] == item;
    p := Paths(t)[i];
    PlainNameSplits(t, p);
  }

  lemma FlatItemFor<V>(t: Tree<V>, p: Path, v: V)
    requires t.Node? && PlainKeys(t) && LeafAt(t, p, v)
    ensures (Dotted(p), Leaf(v)) in Flatten(t, "")
  {
    PlainNames(t);
    PathsAreLeaves(t, p);
    var i :| 0 <= i < |Paths(t)| && Paths(t)[i] == p;
    assert Flatten(t, "")[i] == (Dotted(p), Leaf(v));
  }

  lemma DottedNamesDiffer<V>(t: Tree<V>, p: Path, q: Path)
    requires t.Node? && PlainKeys(t) && IsScalar(t, p) && IsScalar(t, q) && p != q
    ensures Dotted(p) != Dotted(q)
  {
    PlainNameSplits(t, p);
    PlainNameSplits(t, q);
  }

  lemma FlattenDistinct<V>(t: Tree<V>)
    requires t.Node? && PlainKeys(t)
    ensures Distinct(Names(t)) && Distinct(Flatten(t, ""))
  {
    PlainNames(t);
    PathsIncrease(t);
    PathLessTotal();
    var flat, ps := Flatten(t, ""), Paths(t);
    forall i, j | 0 <= i < j < |flat| ensures flat[i].0 != flat[j].0 {
      assert PathLess(ps[i], ps[j]);
      PathsAreLeaves(t, ps[i]);
      PathsAreLeaves(t, ps[j]);
      DottedNamesDiffer(t, ps[i], ps[j]);
    }
  }

  lemma SettingsPrefixFree<V>(t: Tree<V>, items: seq<(string, Tree<V>)>)
    requires t.Node? && PlainKeys(t) && Distinct(items)
    requires forall x | x in items :: x in Flatten(t, "")
    ensures Scalars(DottedSettings(items)) && PrefixFree(DottedSettings(items))
    ensures forall x | x in items :: "" !in Split(x.0, ".")
  {
    forall x | x in items ensures x.1.Leaf? && "" !in Split(x.0, ".") { var p := FlatItem(t, x); }
    forall i, j | 0 <= i < j < |items|
      ensures !Clash(DottedSetting(items[i]).path, DottedSetting(items[j]).path)
    {
      var p := FlatItem(t, items[i]);
      var q := FlatItem(t, items[j]);
      if p <= q { ScalarPathsDoNotClash(t, p, q); }
      if q <= p { ScalarPathsDoNotClash(t, q, p); }
    }
  }

  lemma SettingsSupply<V>(t: Tree<V>, items: seq<(string, Tree<V>)>, p: Path, v: V)
    requires t.Node? && PlainKeys(t)
    requires forall x :: x in items <==> x in Flatten(t, "")
    ensures LeafAt(t, p, v) <==> Supplies(DottedSettings(items), p, v)
  {
    var settings := DottedSettings(items);
    if LeafAt(t, p, v) {
      FlatItemFor(t, p, v);
      var i :| 0 <= i < |items| && items[i] == (Dotted(p), Leaf(v));
      PlainNameSplits(t, p);
      assert settings[i] == Setting(p, Leaf(v));
    }
    if Supplies(settings, p, v) {
      var i :| 0 <= i < |settings| && settings[i] == Setting(p, Leaf(v));
      var q := FlatItem(t, items[i]);
    }
  }

  lemma {:induction false} MergeKeepsPlain<V>(b: Tree<V>, o: Tree<V>)
    requires PlainKeys(b) && PlainKeys(o)
    ensures PlainKeys(Merge(b, o))
    decreases o
  {
    if b.Node? && o.Node? {
      forall k | k in b.kids && k in o.kids ensures PlainKeys(Merge(b.kids[k], o.kids[k])) {
        MergeKeepsPlain(b.kids[k], o.kids[k]);
      }
    }
  }

  lemma {:induction false} SingleIsPlain<V>(p: Path, v: Tree<V>)
    requires PlainPath(p) && PlainKeys(v)
    ensures PlainKeys(Single(p, v))
  {
    if p != [] {
      assert p[0] in p;
      SingleIsPlain(p[1..], v);
    }
  }

  /** Whatever scalars are fed in, an accepted expansion has plain keys and no empty sub-mapping. */
  lemma {:induction false} ExpansionIsPlain<V>(items: seq<(string, Tree<V>)>)
    requires forall x | x in items :: x.1.Leaf?
    requires Expand(items).Ok?
    ensures var t := Expand(items).value; t.Node? && PlainKeys(t) && NoEmptySub(t)
  {
    ExpandIsOverlay(items);
    assert Scalars(DottedSettings(items)) by { assert forall i | 0 <= i < |items| :: items[i] in items; }
    OverlayNoEmptySub(DottedSettings(items));
    if items != [] {
      var n := |items| - 1;
      ExpansionIsPlain(items[..n]);
      var parts := Split(items[n].0, ".");
      SplitPartsAreFree(items[n].0, '.');
      SingleIsPlain(parts, items[n].1);
      MergeKeepsPlain(Expand(items[..n]).value, Single(parts, items[n].1));
    }
  }

  /** Expanding a tree's dotted keys, in any order, rebuilds it exactly when its keys are plain and
      it has no empty sub-mapping. */
  lemma RoundTrip<V(!new)>(t: Tree<V>, items: seq<(string, Tree<V>)>)
    requires t.Node? && multiset(items) == multiset(Flatten(t, ""))
    ensures Expand(items) == Ok(t) <==> PlainKeys(t) && NoEmptySub(t)
  {
    FlattenLeaves(t, "");
    forall x | x in items ensures x.1.Leaf? {
      assert x in multiset(items);
      assert x in Flatten(t, "");
    }
    if Expand(items) == Ok(t) { ExpansionIsPlain(items); }
    if PlainKeys(t) && NoEmptySub(t) {
      forall x ensures x in items <==> x in Flatten(t, "") {
        assert x in multiset(items) <==> x in multiset(Flatten(t, ""));
      }
      FlattenDistinct(t);
      DistinctByMultiset(Flatten(t, ""), items);
      SettingsPrefixFree(t, items);
      forall p, v ensures LeafAt(t, p, v) <==> Supplies(DottedSettings(items), p, v) {
        SettingsSupply(t, items, p, v);
      }
      ExpandIsOverlay(items);
      PrefixFreeTree(DottedSettings(items), t);
    }
  }
}
