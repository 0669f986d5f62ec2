/** What `environment_overrides` makes of a whole environment, name by name. */
module SortedEnvironment {
  import opened Ordering
  import opened ConfigTree
  import opened ConfigKeys
  import opened ConfigOrder
  import opened Environment
  import opened EnvironmentSpelling

  type Environ = map<string, string>

  // ---------- the items in the order they are visited ----------

  /** The items under the given names. */
  function ItemsOf(environ: Environ, names: seq<string>): seq<Item>
    requires forall n | n in names :: n in environ
  {
    seq(|names|, i requires 0 <= i < |names| => assert names[i] in names; (names[i], environ[names[i]]))
  }

  ghost function SortedNames(environ: Environ): (r: seq<string>)
    ensures Increasing(StrLess, r) && forall n :: n in r <==> n in environ
  {
    StrLessTotal();
    SortedSetIncreases(StrLess, environ.Keys);
    var r := SortedSet(StrLess, environ.Keys);
    assert forall n :: n in r <==> n in Elements(r);
    r
  }

  /** `sorted(environ.items())`. */
  ghost function SortedItems(environ: Environ): seq<Item> { ItemsOf(environ, SortedNames(environ)) }

  /** Strictly increasing names, each with its own value, and none left out. */
  lemma SortedItemsAre(environ: Environ)
    ensures forall i, j | 0 <= i < j < |SortedItems(environ)| ::
              StrLess(SortedItems(environ)[i].0, SortedItems(environ)[j].0)
    ensures forall x: Item :: x in SortedItems(environ) <==> x.0 in environ && x.1 == environ[x.0]
  {
    var names, items := SortedNames(environ), SortedItems(environ);
    forall x: Item | x.0 in environ && x.1 == environ[x.0] ensures x in items {
      var i :| 0 <= i < |names| && names[i] == x.0;
      assert items[i] == x;
    }
    forall x | x in items ensures x.0 in environ && x.1 == environ[x.0] {
      var i :| 0 <= i < |items| && items[i] == x;
      assert names[i] in names;
    }
  }

  // ---------- the verdict and the tree, name by name ----------

  /** The value of `n` settles the path of `m`. */
  ghost predicate InTheWay<V>(environ: Environ, parse: string -> Tree<V>, n: string, m: string)
    requires n in environ && Selected(n) && Selected(m)
  {
    var p, q := EnvPath(n), EnvPath(m);
    q <= p || (p <= q && Occupied(parse(environ[n]), q[|p|..]))
  }

  /** No part of a name is empty, and no name is in the way of a later one in string order. */
  ghost predicate Settled<V>(environ: Environ, parse: string -> Tree<V>) {
    && (forall n | n in environ && Selected(n) :: "" !in EnvPath(n))
    && (forall n, m | n in environ && m in environ && Selected(n) && Selected(m) && StrLess(n, m) ::
          !InTheWay(environ, parse, n, m))
  }

  /** Some variable's value has the leaf at the rest of the path. */
  ghost predicate LeafFrom<V>(environ: Environ, parse: string -> Tree<V>, q: Path, v: V) {
    exists n :: n in environ && Selected(n) && EnvPath(n) <= q && LeafAt(parse(environ[n]), q[|EnvPath(n)|..], v)
  }

  /** Some variable's path goes through here, or its value has a mapping at the rest of the path. */
  ghost predicate MappingFrom<V>(environ: Environ, parse: string -> Tree<V>, q: Path) {
    exists n :: n in environ && Selected(n) && MappingOf(environ, parse, n, q)
  }

  ghost predicate MappingOf<V>(environ: Environ, parse: string -> Tree<V>, n: string, q: Path)
    requires n in environ && Selected(n)
  {
    var p := EnvPath(n);
    (q <= p && q != p) || (p <= q && IsMapping(parse(environ[n]), q[|p|..]))
  }

  /** The tree holds under every path what a variable's value holds there, and nothing else. */
  ghost predicate HoldsSettings<V(!new)>(environ: Environ, parse: string -> Tree<V>, t: Tree<V>) {
    && (forall q, v :: LeafAt(t, q, v) <==> LeafFrom(environ, parse, q, v))
    && (forall q :: IsMapping(t, q) <==> q == [] || MappingFrom(environ, parse, q))
  }

  lemma VariableHasSetting<V>(environ: Environ, parse: string -> Tree<V>, n: string)
    requires n in environ && Selected(n)
    ensures Setting(EnvPath(n), parse(environ[n])) in EnvSettings(SortedItems(environ), parse)
  {
    var i := PlaceOfName(environ, n);
    SettingOfVariable(SortedItems(environ), parse, i);
  }

  lemma SettingHasVariable<V>(environ: Environ, parse: string -> Tree<V>, s: Setting<V>) returns (n: string)
    requires s in EnvSettings(SortedItems(environ), parse)
    ensures n in environ && Selected(n) && s == Setting(EnvPath(n), parse(environ[n]))
  {
    var items := SortedItems(environ);
    var i := VariableOf(items, parse, s);
    SortedItemsAre(environ);
    assert items[i] in items;
    n := items[i].0;
  }

  lemma {:induction false} SettingOfVariable<V>(items: seq<Item>, parse: string -> Tree<V>, i: nat)
    requires i < |items| && Selected(items[i].0)
    ensures Setting(EnvPath(items[i].0), parse(items[i].1)) in EnvSettings(items, parse)
  {
    if i < |items| - 1 { SettingOfVariable(items[..|items| - 1], parse, i); }
  }

  lemma WayOfSettings<V>(environ: Environ, parse: string -> Tree<V>, n: string, m: string)
    requires n in environ && Selected(n) && Selected(m)
    ensures InTheWay(environ, parse, n, m) <==> Blocks(Setting(EnvPath(n), parse(environ[n])), EnvPath(m))
  {
    BlocksMeans(EnvPath(n), parse(environ[n]), EnvPath(m));
  }

  lemma PlaceOfName(environ: Environ, n: string) returns (i: nat)
    requires n in environ
    ensures i < |SortedItems(environ)| && SortedItems(environ)[i] == (n, environ[n])
  {
    SortedItemsAre(environ);
    assert (n, environ[n]) in SortedItems(environ);
    i :| i < |SortedItems(environ)| && SortedItems(environ)[i] == (n, environ[n]);
  }

  lemma EarlierPlace(environ: Environ, i: nat, j: nat)
    requires i < |SortedItems(environ)| && j < |SortedItems(environ)|
    requires StrLess(SortedItems(environ)[i].0, SortedItems(environ)[j].0)
    ensures i < j
  {
    SortedItemsAre(environ);
    StrLessTotal();
  }

  lemma BlockedNames<V>(environ: Environ, parse: string -> Tree<V>, n: string, m: string)
    requires n in environ && m in environ && Selected(n) && Selected(m) && StrLess(n, m)
    requires NoneBlocked(EnvSettings(SortedItems(environ), parse))
    ensures !InTheWay(environ, parse, n, m)
  {
    var u := PlaceOfName(environ, n);
    var w := PlaceOfName(environ, m);
    EarlierPlace(environ, u, w);
    var x, y := PlacesOfVariables(SortedItems(environ), parse, u, w);
    WayOfSettings(environ, parse, n, m);
  }

  lemma FreeNames<V>(environ: Environ, parse: string -> Tree<V>)
    requires Settled(environ, parse)
    ensures NoneBlocked(EnvSettings(SortedItems(environ), parse))
  {
    var items := SortedItems(environ);
    var settings := EnvSettings(items, parse);
    SortedItemsAre(environ);
    forall x, y | 0 <= x < y < |settings| ensures !Blocks(settings[x], settings[y].path) {
      var u, w := PlacesOfSettings(items, parse, x, y);
      assert items[u] in items && items[w] in items;
      WayOfSettings(environ, parse, items[u].0, items[w].0);
    }
  }

  lemma NamesAreGood(environ: Environ)
    ensures AllWellNamed(SortedItems(environ)) <==> forall n | n in environ && Selected(n) :: "" !in EnvPath(n)
  {
    var items := SortedItems(environ);
    SortedItemsAre(environ);
    if AllWellNamed(items) {
      forall n | n in environ && Selected(n) ensures "" !in EnvPath(n) {
        assert (n, environ[n]) in items;
        assert WellNamed((n, environ[n]).0);
      }
    }
  }

  lemma LeavesOfSettings<V>(environ: Environ, parse: string -> Tree<V>, q: Path, v: V)
    ensures AnyLeaf(EnvSettings(SortedItems(environ), parse), q, v) <==> LeafFrom(environ, parse, q, v)
  {
    var settings := EnvSettings(SortedItems(environ), parse);
    if s :| s in settings && LeafAt(One(s), q, v) {
      var n := SettingHasVariable(environ, parse, s);
      SingleHolds(s.path, s.value, q);
    }
    if n :| n in environ && Selected(n) && EnvPath(n) <= q && LeafAt(parse(environ[n]), q[|EnvPath(n)|..], v) {
      var s := Setting(EnvPath(n), parse(environ[n]));
      VariableHasSetting(environ, parse, n);
      SingleHolds(s.path, s.value, q);
      assert LeafAt(One(s), q, v);
    }
  }

  lemma MappingsOfSettings<V>(environ: Environ, parse: string -> Tree<V>, q: Path)
    ensures AnyMapping(EnvSettings(SortedItems(environ), parse), q) <==> MappingFrom(environ, parse, q)
  {
    var settings := EnvSettings(SortedItems(environ), parse);
    if s :| s in settings && IsMapping(One(s), q) {
      var n := SettingHasVariable(environ, parse, s);
      SingleHolds(s.path, s.value, q);
      assert MappingOf(environ, parse, n, q);
    }
    if n :| n in environ && Selected(n) && MappingOf(environ, parse, n, q) {
      var s := Setting(EnvPath(n), parse(environ[n]));
      VariableHasSetting(environ, parse, n);
      SingleHolds(s.path, s.value, q);
      assert IsMapping(One(s), q);
    }
  }

  lemma TreeOfSettings<V(!new)>(environ: Environ, parse: string -> Tree<V>)
    requires NoneBlocked(EnvSettings(SortedItems(environ), parse))
    ensures HoldsSettings(environ, parse, Overlay(EnvSettings(SortedItems(environ), parse)))
  {
    var settings := EnvSettings(SortedItems(environ), parse);
    forall q, v ensures LeafAt(Overlay(settings), q, v) <==> LeafFrom(environ, parse, q, v) {
      BuiltFrom(settings, q);
      LeavesOfSettings(environ, parse, q, v);
    }
    forall q ensures IsMapping(Overlay(settings), q) <==> q == [] || MappingFrom(environ, parse, q) {
      BuiltFrom(settings, q);
      MappingsOfSettings(environ, parse, q);
    }
  }

  /** An environment is accepted exactly when no part of a name is empty and no name is in the way of a later
      one; the tree then holds exactly what the values of the selected variables hold under their paths. */
  lemma EnvironmentMeaning<V(!new)>(environ: Environ, parse: string -> Tree<V>)
    ensures var r := Settle(SortedItems(environ), parse);
            && (r.Ok? <==> Settled(environ, parse))
            && (r.Ok? ==> HoldsSettings(environ, parse, r.value))
  {
    var items := SortedItems(environ);
    var settings := EnvSettings(items, parse);
    EnvironmentVerdict(items, parse);
    NamesAreGood(environ);
    if NoneBlocked(settings) {
      forall n, m | n in environ && m in environ && Selected(n) && Selected(m) && StrLess(n, m)
        ensures !InTheWay(environ, parse, n, m)
      {
        BlockedNames(environ, parse, n, m);
      }
      TreeOfSettings(environ, parse);
    } else if Settled(environ, parse) {
      FreeNames(environ, parse);
    }
  }

  // ---------- the refusal ----------

  /** The names before `n`. */
  ghost function Before(environ: Environ, n: string): Environ { map m | m in environ && StrLess(m, n) :: environ[m] }

  /** Which refusal a name meets at the tree of the names before it. */
  ghost predicate RefusedBy<V>(t: Tree<V>, n: string, e: EnvError)
    requires Selected(n)
  {
    match e
    case InvalidName(m) => m == n && "" in EnvPath(n)
    case Repeated(m) => m == n && "" !in EnvPath(n) && Defines(t, EnvPath(n))
    case UnderScalar(m) => m == n && "" !in EnvPath(n) && ScalarAbove(t, EnvPath(n))
  }

  /** The error is that of the first refused name: the names before it are accepted, and the tree they make
      defines its path, or has a scalar above it. */
  lemma {:induction false} FirstRefusal<V>(items: seq<Item>, parse: string -> Tree<V>)
    requires Settle(items, parse).Fail?
    ensures exists i: nat :: i < |items| && Selected(items[i].0) && Settle(items[..i], parse).Ok? &&
              RefusedBy(Settle(items[..i], parse).value, items[i].0, Settle(items, parse).error)
  {
    var n := |items| - 1;
    if Settle(items[..n], parse).Fail? {
      FirstRefusal(items[..n], parse);
      var i: nat :| i < n && Selected(items[..n][i].0) && Settle(items[..n][..i], parse).Ok? &&
                    RefusedBy(Settle(items[..n][..i], parse).value, items[..n][i].0, Settle(items, parse).error);
      assert items[..n][..i] == items[..i] && items[..n][i] == items[i];
    } else {
      var t := Settle(items[..n], parse).value;
      InsertIsMerge(t, EnvPath(items[n].0), parse(items[n].1));
      assert RefusedBy(t, items[n].0, Settle(items, parse).error);
    }
  }

  lemma FrontNames(environ: Environ, i: nat)
    requires i < |SortedNames(environ)|
    ensures SortedNames(environ)[..i] == SortedNames(Before(environ, SortedNames(environ)[i]))
  {
    var names := SortedNames(environ);
    var before := Before(environ, names[i]);
    forall m ensures m in names[..i] <==> m in before { NamesBefore(environ, i, m); }
    assert Elements(names[..i]) == Elements(SortedNames(before)) by {
      assert forall m :: m in Elements(names[..i]) <==> m in Elements(SortedNames(before));
    }
    StrLessTotal();
    IncreasingUnique(StrLess, names[..i], SortedNames(before));
  }

  lemma NotEarlier(names: seq<string>, i: nat, j: nat)
    requires Increasing(StrLess, names) && i <= j < |names|
    ensures !StrLess(names[j], names[i])
  {
    StrLessTotal();
  }

  lemma PlaceBefore(names: seq<string>, i: nat, m: string)
    requires Increasing(StrLess, names) && i < |names|
    ensures m in names[..i] <==> m in names && StrLess(m, names[i])
  {
    if m in names[..i] {
      var j :| 0 <= j < i && names[..i][j] == m;
      assert names[j] == m;
    }
    if m in names && StrLess(m, names[i]) {
      var j :| 0 <= j < |names| && names[j] == m;
      if j < i { assert names[..i][j] == m; } else { NotEarlier(names, i, j); }
    }
  }

  lemma NamesBefore(environ: Environ, i: nat, m: string)
    requires i < |SortedNames(environ)|
    ensures m in SortedNames(environ)[..i] <==> m in Before(environ, SortedNames(environ)[i])
  {
    PlaceBefore(SortedNames(environ), i, m);
  }

  lemma ItemsAgree(a: Environ, b: Environ, names: seq<string>)
    requires forall n | n in names :: n in a && n in b && a[n] == b[n]
    ensures (forall n | n in names :: n in a) && (forall n | n in names :: n in b)
    ensures ItemsOf(a, names) == ItemsOf(b, names)
  {
    forall i | 0 <= i < |names| ensures ItemsOf(a, names)[i] == ItemsOf(b, names)[i] { assert names[i] in names; }
  }

  lemma FrontIsBefore(environ: Environ, i: nat)
    requires i < |SortedItems(environ)|
    ensures SortedItems(environ)[..i] == SortedItems(Before(environ, SortedItems(environ)[i].0))
  {
    var names := SortedNames(environ);
    FrontNames(environ, i);
    ItemsFront(environ, names, i);
    ItemsAgree(environ, Before(environ, names[i]), names[..i]);
  }

  lemma ItemsFront(environ: Environ, names: seq<string>, i: nat)
    requires i <= |names| && forall n | n in names :: n in environ
    ensures forall n | n in names[..i] :: n in environ
    ensures ItemsOf(environ, names)[..i] == ItemsOf(environ, names[..i])
  {
    forall n | n in names[..i] ensures n in environ { assert n in names; }
    forall j | 0 <= j < i ensures ItemsOf(environ, names)[..i][j] == ItemsOf(environ, names[..i])[j] {
      assert names[..i][j] == names[j];
    }
  }

  /** A refused environment: some selected name is refused by the tree of the names before it, which are
      accepted on their own. */
  lemma EnvironmentRefusal<V(!new)>(environ: Environ, parse: string -> Tree<V>)
    requires !Settled(environ, parse)
    ensures Settle(SortedItems(environ), parse).Fail?
    ensures exists n, t :: n in environ && Selected(n) && Settled(Before(environ, n), parse) &&
              HoldsSettings(Before(environ, n), parse, t) &&
              RefusedBy(t, n, Settle(SortedItems(environ), parse).error)
  {
    var items := SortedItems(environ);
    EnvironmentMeaning(environ, parse);
    FirstRefusal(items, parse);
    var i: nat :| i < |items| && Selected(items[i].0) && Settle(items[..i], parse).Ok? &&
                  RefusedBy(Settle(items[..i], parse).value, items[i].0, Settle(items, parse).error);
    SortedItemsAre(environ);
    assert items[i] in items;
    FrontIsBefore(environ, i);
    EnvironmentMeaning(Before(environ, items[i].0), parse);
  }
}
