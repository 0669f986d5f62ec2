/** `MODELSURGEON_*` variables: which sets of names are accepted, and what tree they build. */
module Environment {
  import opened Ordering
  import opened Text
  import opened ConfigTree
  import opened ConfigKeys
  import opened ConfigOrder
  import opened DottedKeys

  const ENV_PREFIX := "MODELSURGEON_"
  const ENV_DELIMITER := "__"

  datatype EnvError = InvalidName(name: string) | UnderScalar(name: string) | Repeated(name: string)

  function LowerChar(c: char): char { if 'A' <= c <= 'Z' then c - 'A' + 'a' else c }

  function UpperChar(c: char): char { if 'a' <= c <= 'z' then c - 'a' + 'A' else c }

  const SMALL := "abcdefghijklmnopqrstuvwxyz"
  const CAPITAL := "ABCDEFGHIJKLMNOPQRSTUVWXYZ"

  /** The 26 letters change case, and nothing else does. */
  lemma LetterCase(c: char)
    ensures forall i | 0 <= i < 26 :: LowerChar(CAPITAL[i]) == SMALL[i] && UpperChar(SMALL[i]) == CAPITAL[i]
    ensures c !in CAPITAL ==> LowerChar(c) == c
    ensures c !in SMALL ==> UpperChar(c) == c
  {
    assert forall i | 0 <= i < 26 :: SMALL[i] as int == 'a' as int + i && CAPITAL[i] as int == 'A' as int + i;
    if 'A' <= c <= 'Z' { assert CAPITAL[c as int - 'A' as int] == c; }
    if 'a' <= c <= 'z' { assert SMALL[c as int - 'a' as int] == c; }
  }

  function Lower(s: string): string { seq(|s|, i requires 0 <= i < |s| => LowerChar(s[i])) }

  function Upper(s: string): string { seq(|s|, i requires 0 <= i < |s| => UpperChar(s[i])) }

  function LowerAll(parts: seq<string>): (r: seq<string>)
    ensures |r| == |parts| && forall i | 0 <= i < |r| :: r[i] == Lower(parts[i])
  {
    seq(|parts|, i requires 0 <= i < |parts| => Lower(parts[i]))
  }

  predicate Selected(name: string) { ENV_PREFIX <= Upper(name) }

  /** The lower-cased parts of a selected name. */
  function EnvPath(name: string): (r: Path)
    requires Selected(name)
    ensures r != []
  {
    LowerAll(Split(name[|ENV_PREFIX|..], ENV_DELIMITER))
  }

  predicate WellNamed(name: string) { Selected(name) ==> "" !in EnvPath(name) }

  function Conflicting(e: Conflict, name: string): EnvError {
    match e case ScalarParent => UnderScalar(name) case Duplicate => Repeated(name)
  }

  /** What one variable does to the tree so far. */
  function SettleOne<V>(t: Tree<V>, name: string, value: Tree<V>): Outcome<Tree<V>, EnvError> {
    if !Selected(name) then Ok(t)
    else if "" in EnvPath(name) then Fail(InvalidName(name))
    else
      match InsertAt(t, EnvPath(name), value)
      case Ok(t') => Ok(t')
      case Fail(e) => Fail(Conflicting(e, name))
  }

  /** Take the variables one by one and stop at the first refusal. */
  function Settle<V>(environ: seq<(string, string)>, parse: string -> Tree<V>): (r: Outcome<Tree<V>, EnvError>)
    ensures r.Ok? ==> r.value.Node?
  {
    if environ == [] then Ok(Empty())
    else
      var (name, raw) := environ[|environ| - 1];
      match Settle(environ[..|environ| - 1], parse)
      case Fail(e) => Fail(e)
      case Ok(t) => SettleOne(t, name, parse(raw))
  }

  /** The selected variables as settings. */
  function EnvSettings<V>(environ: seq<(string, string)>, parse: string -> Tree<V>): (r: seq<Setting<V>>)
    ensures forall s | s in r :: s.path != []
  {
    if environ == [] then []
    else
      var (name, raw) := environ[|environ| - 1];
      var front := EnvSettings(environ[..|environ| - 1], parse);
      if Selected(name) then front + [Setting(EnvPath(name), parse(raw))] else front
  }

  ghost predicate AllWellNamed(environ: seq<(string, string)>) {
    forall x | x in environ :: WellNamed(x.0)
  }

  /** The values of the selected variables are scalars. */
  ghost predicate ScalarValues<V>(environ: seq<(string, string)>, parse: string -> Tree<V>) {
    forall x | x in environ && Selected(x.0) :: parse(x.1).Leaf?
  }

  lemma {:induction false} SettleIsInsertAll<V>(environ: seq<(string, string)>, parse: string -> Tree<V>)
    ensures Settle(environ, parse).Ok? <==> AllWellNamed(environ) && InsertAll(EnvSettings(environ, parse)).Ok?
    ensures Settle(environ, parse).Ok? ==> Settle(environ, parse).value == InsertAll(EnvSettings(environ, parse)).value
  {
    if environ != [] {
      var n := |environ| - 1;
      var front, settings := environ[..n], EnvSettings(environ, parse);
      SettleIsInsertAll(front, parse);
      assert environ == front + [environ[n]];
      if Selected(environ[n].0) {
        assert settings[..|settings| - 1] == EnvSettings(front, parse);
      }
    }
  }

  /** For values of any kind: accepted exactly when no part is empty and no variable is in the way of a
      later one; then the tree holds the leaves of each variable's value under its path and nothing else. */
  lemma EnvironmentVerdict<V>(environ: seq<(string, string)>, parse: string -> Tree<V>)
    ensures var r, settings := Settle(environ, parse), EnvSettings(environ, parse);
            && (r.Ok? <==> AllWellNamed(environ) && NoneBlocked(settings))
            && (r.Ok? ==> r.value == Overlay(settings))
            && (r.Ok? ==> forall p, v :: LeafAt(r.value, p, v) <==> AnyLeaf(settings, p, v))
  {
    var settings := EnvSettings(environ, parse);
    SettleIsInsertAll(environ, parse);
    Verdict(settings);
    InsertAllIsOverlay(settings);
    if NoneBlocked(settings) {
      forall p, v ensures LeafAt(Overlay(settings), p, v) <==> AnyLeaf(settings, p, v) { BuiltFrom(settings, p); }
    }
  }

  lemma {:induction false} EnvScalars<V>(environ: seq<(string, string)>, parse: string -> Tree<V>)
    requires ScalarValues(environ, parse)
    ensures Scalars(EnvSettings(environ, parse))
  {
    if environ != [] {
      var n := |environ| - 1;
      assert environ[n] in environ && forall x | x in environ[..n] :: x in environ;
      EnvScalars(environ[..n], parse);
    }
  }

  /** When the values present are scalars: accepted exactly when no part is empty and no path extends
      another, with exactly the given leaves. */
  lemma ScalarEnvironmentVerdict<V>(environ: seq<(string, string)>, parse: string -> Tree<V>)
    requires ScalarValues(environ, parse)
    ensures var r, settings := Settle(environ, parse), EnvSettings(environ, parse);
            && (r.Ok? <==> AllWellNamed(environ) && PrefixFree(settings))
            && (r.Ok? ==> forall p, v :: LeafAt(r.value, p, v) <==> Supplies(settings, p, v))
  {
    var settings := EnvSettings(environ, parse);
    EnvironmentVerdict(environ, parse);
    EnvScalars(environ, parse);
    ScalarsBlock(settings);
    if PrefixFree(settings) {
      forall p, v ensures LeafAt(Overlay(settings), p, v) <==> Supplies(settings, p, v) {
        PrefixFreeLeaves(settings, p, v);
      }
    }
  }

  function AsDotted<V>(settings: seq<Setting<V>>): (r: seq<(string, Tree<V>)>)
    ensures |r| == |settings| &&
            forall i | 0 <= i < |settings| :: r[i] == (Dotted(settings[i].path), settings[i].value)
  {
    seq(|settings|, i requires 0 <= i < |settings| => (Dotted(settings[i].path), settings[i].value))
  }

  /** The two builders agree: the same settings given as dotted command-line keys build the same tree. */
  lemma EnvironmentAgreesWithDotted<V>(environ: seq<(string, string)>, parse: string -> Tree<V>)
    requires Settle(environ, parse).Ok?
    requires forall s | s in EnvSettings(environ, parse) :: PlainPath(s.path)
    ensures Expand(AsDotted(EnvSettings(environ, parse))) == Ok(Settle(environ, parse).value)
  {
    var settings := EnvSettings(environ, parse);
    var items := AsDotted(settings);
    SettleIsInsertAll(environ, parse);
    InsertAllIsOverlay(settings);
    forall i | 0 <= i < |items| ensures DottedSetting(items[i]) == settings[i] && "" !in settings[i].path {
      assert settings[i] in settings;
      SplitJoin(settings[i].path, '.');
    }
    assert DottedSettings(items) == settings;
    forall x | x in items ensures "" !in Split(x.0, ".") {
      var i :| 0 <= i < |items| && items[i] == x;
      assert DottedSetting(items[i]) == settings[i];
    }
    ExpandIsOverlay(items);
  }

  // ---------- the order of the variables ----------

  lemma {:induction false} EnvSettingsAppend<V>(a: seq<(string, string)>, b: seq<(string, string)>,
                                                parse: string -> Tree<V>)
    ensures EnvSettings(a + b, parse) == EnvSettings(a, parse) + EnvSettings(b, parse)
  {
    if b == [] {
      assert a + b == a;
    } else {
      var n := |b| - 1;
      assert (a + b)[..|a + b| - 1] == a + b[..n];
      EnvSettingsAppend(a, b[..n], parse);
    }
  }

  lemma EnvSettingsWithout<V>(b: seq<(string, string)>, i: nat, parse: string -> Tree<V>)
    requires i < |b|
    ensures multiset(EnvSettings(b, parse)) ==
            multiset(EnvSettings(b[..i] + b[i + 1..], parse)) + multiset(EnvSettings([b[i]], parse))
  {
    SplitAround(b, i);
    EnvSettingsMiddle(b[..i], [b[i]], b[i + 1..], parse);
  }

  lemma SplitAround<T>(b: seq<T>, i: nat)
    requires i < |b|
    ensures b == (b[..i] + [b[i]]) + b[i + 1..]
  {
  }

  lemma EnvSettingsMiddle<V>(x: seq<(string, string)>, y: seq<(string, string)>, z: seq<(string, string)>,
                             parse: string -> Tree<V>)
    ensures multiset(EnvSettings((x + y) + z, parse)) ==
            multiset(EnvSettings(x + z, parse)) + multiset(EnvSettings(y, parse))
  {
    EnvSettingsAppend(x + y, z, parse);
    EnvSettingsAppend(x, y, parse);
    EnvSettingsAppend(x, z, parse);
    MultisetMiddle(EnvSettings((x + y) + z, parse), EnvSettings(x + z, parse),
                   EnvSettings(x, parse), EnvSettings(y, parse), EnvSettings(z, parse));
  }

  lemma MultisetMiddle<T>(all: seq<T>, rest: seq<T>, x: seq<T>, y: seq<T>, z: seq<T>)
    requires all == (x + y) + z && rest == x + z
    ensures multiset(all) == multiset(rest) + multiset(y)
  {
  }

  lemma EnvSettingsFirst<V>(a: seq<(string, string)>, parse: string -> Tree<V>)
    requires a != []
    ensures multiset(EnvSettings(a, parse)) ==
            multiset(EnvSettings(a[1..], parse)) + multiset(EnvSettings([a[0]], parse))
  {
    assert a[..0] + a[1..] == a[1..];
    EnvSettingsWithout(a, 0, parse);
  }

  lemma {:induction false} EnvSettingsReordered<V>(a: seq<(string, string)>, b: seq<(string, string)>,
                                                   parse: string -> Tree<V>)
    requires multiset(a) == multiset(b)
    ensures multiset(EnvSettings(a, parse)) == multiset(EnvSettings(b, parse))
    decreases |a|
  {
    if a == [] {
      assert |b| == |multiset(b)| == |multiset(a)| == 0;
    } else {
      var i := TakeOutFirst(a, b);
      var rest := b[..i] + b[i + 1..];
      EnvSettingsFirst(a, parse);
      EnvSettingsWithout(b, i, parse);
      EnvSettingsReordered(a[1..], rest, parse);
    }
  }

  lemma WellNamedReordered(a: seq<(string, string)>, b: seq<(string, string)>)
    requires multiset(a) == multiset(b)
    ensures AllWellNamed(a) <==> AllWellNamed(b)
  {
    forall x ensures x in a <==> x in b { assert x in multiset(a) <==> x in multiset(b); }
  }

  /** All orders of the same variables that are accepted give the same tree. */
  lemma EnvironmentOrdersAgree<V(!new)>(a: seq<(string, string)>, b: seq<(string, string)>, parse: string -> Tree<V>)
    requires multiset(a) == multiset(b) && Settle(a, parse).Ok? && Settle(b, parse).Ok?
    ensures Settle(a, parse) == Settle(b, parse)
  {
    SettleIsInsertAll(a, parse);
    SettleIsInsertAll(b, parse);
    EnvSettingsReordered(a, b, parse);
    AcceptedOrdersAgree(EnvSettings(a, parse), EnvSettings(b, parse));
  }

  /** A setting comes from a variable. */
  lemma {:induction false} VariableOf<V>(a: seq<(string, string)>, parse: string -> Tree<V>, s: Setting<V>)
    returns (i: nat)
    requires s in EnvSettings(a, parse)
    ensures i < |a| && Selected(a[i].0) && s == Setting(EnvPath(a[i].0), parse(a[i].1))
  {
    var n := |a| - 1;
    if s in EnvSettings(a[..n], parse) {
      i := VariableOf(a[..n], parse, s);
    } else {
      i := n;
    }
  }

  /** Every arrangement of the settings is that of some arrangement of the variables. */
  lemma {:induction false} ArrangeVariables<V>(a: seq<(string, string)>, parse: string -> Tree<V>,
                                               settings: seq<Setting<V>>)
    returns (b: seq<(string, string)>)
    requires multiset(settings) == multiset(EnvSettings(a, parse))
    ensures multiset(b) == multiset(a) && EnvSettings(b, parse) == settings
    decreases |settings|
  {
    SameSettings(settings, EnvSettings(a, parse));
    if settings == [] {
      b := a;
    } else {
      var n := |settings| - 1;
      var i := VariableOf(a, parse, settings[n]);
      TakeVariableOut(a, parse, settings, i);
      var front := ArrangeVariables(a[..i] + a[i + 1..], parse, settings[..n]);
      b := front + [a[i]];
      PutVariableLast(a, parse, i, front);
    }
  }

  lemma TakeVariableOut<V>(a: seq<(string, string)>, parse: string -> Tree<V>, settings: seq<Setting<V>>, i: nat)
    requires multiset(settings) == multiset(EnvSettings(a, parse)) && settings != []
    requires i < |a| && Selected(a[i].0) && settings[|settings| - 1] == Setting(EnvPath(a[i].0), parse(a[i].1))
    ensures multiset(settings[..|settings| - 1]) == multiset(EnvSettings(a[..i] + a[i + 1..], parse))
  {
    var all, rest, one := EnvSettings(a, parse), EnvSettings(a[..i] + a[i + 1..], parse), EnvSettings([a[i]], parse);
    assert multiset(all) == multiset(rest) + multiset(one) by { EnvSettingsWithout(a, i, parse); }
    assert one == [settings[|settings| - 1]] by { SingleVariable(a[i], parse); }
    CancelLast(settings, all, rest, one);
  }

  lemma PutVariableLast<V>(a: seq<(string, string)>, parse: string -> Tree<V>, i: nat, front: seq<(string, string)>)
    requires i < |a| && Selected(a[i].0) && multiset(front) == multiset(a[..i] + a[i + 1..])
    ensures multiset(front + [a[i]]) == multiset(a)
    ensures EnvSettings(front + [a[i]], parse) == EnvSettings(front, parse) + [Setting(EnvPath(a[i].0), parse(a[i].1))]
  {
    EnvSettingsAppend(front, [a[i]], parse);
    SingleVariable(a[i], parse);
    MultisetWithout(a, i);
    assert multiset(front + [a[i]]) == multiset(front) + multiset{a[i]};
  }

  lemma CancelLast<T>(a: seq<T>, all: seq<T>, rest: seq<T>, one: seq<T>)
    requires multiset(a) == multiset(all) && multiset(all) == multiset(rest) + multiset(one)
    requires a != [] && one == [a[|a| - 1]]
    ensures multiset(a[..|a| - 1]) == multiset(rest)
  {
    var n := |a| - 1;
    assert a == a[..n] + [a[n]];
    assert multiset(a[..n]) == multiset(a) - multiset{a[n]};
    assert multiset(rest) == (multiset(rest) + multiset(one)) - multiset{a[n]};
  }

  lemma SingleVariable<V>(item: (string, string), parse: string -> Tree<V>)
    ensures EnvSettings([item], parse) ==
            if Selected(item.0) then [Setting(EnvPath(item.0), parse(item.1))] else []
  {
    assert [item][..0] == [];
  }

  ghost predicate EnvironmentOrderFree<V>(a: seq<(string, string)>, parse: string -> Tree<V>) {
    forall b: seq<(string, string)> | multiset(b) == multiset(a) :: Settle(b, parse).Ok? <==> Settle(a, parse).Ok?
  }

  /** Acceptance is the same for every order of the variables if and only if a name is not well formed, no
      path extends another, or two variables are in the way of each other. */
  lemma VerdictOfEveryOrder<V(!new)>(a: seq<(string, string)>, parse: string -> Tree<V>)
    ensures EnvironmentOrderFree(a, parse) <==>
            !AllWellNamed(a) || PrefixFree(EnvSettings(a, parse)) || MutuallyBlocked(EnvSettings(a, parse))
  {
    var settings := EnvSettings(a, parse);
    VerdictIgnoresOrder(settings);
    forall b: seq<(string, string)> | multiset(b) == multiset(a)
      ensures Settle(b, parse).Ok? <==> AllWellNamed(a) && Accepts(EnvSettings(b, parse))
      ensures multiset(EnvSettings(b, parse)) == multiset(settings)
    {
      SettleIsInsertAll(b, parse);
      WellNamedReordered(a, b);
      EnvSettingsReordered(b, a, parse);
    }
    if AllWellNamed(a) && !OrderFree(settings) {
      var other: seq<Setting<V>> :| multiset(other) == multiset(settings) && !(Accepts(other) <==> Accepts(settings));
      var b := ArrangeVariables(a, parse, other);
      assert multiset(b) == multiset(a) && EnvSettings(b, parse) == other;
    }
  }

  /** For scalars neither acceptance nor the tree depends on the order. */
  lemma ScalarOrderIrrelevant<V(!new)>(a: seq<(string, string)>, b: seq<(string, string)>, parse: string -> Tree<V>)
    requires ScalarValues(a, parse) && multiset(a) == multiset(b)
    ensures Settle(a, parse).Ok? <==> Settle(b, parse).Ok?
    ensures Settle(a, parse).Ok? ==> Settle(a, parse) == Settle(b, parse)
  {
    var settings := EnvSettings(a, parse);
    VerdictOfEveryOrder(a, parse);
    EnvScalars(a, parse);
    if !PrefixFree(settings) {
      var i, j :| 0 <= i < j < |settings| && Clash(settings[i].path, settings[j].path);
      SingleLookup(settings[i].path, settings[i].value.v, settings[j].path);
      SingleLookup(settings[j].path, settings[j].value.v, settings[i].path);
      assert Mutual(settings[i], settings[j]);
    }
    assert EnvironmentOrderFree(a, parse);
    if Settle(a, parse).Ok? { EnvironmentOrdersAgree(a, b, parse); }
  }
}
