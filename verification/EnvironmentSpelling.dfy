/** Letter case decides the order in which variables are taken: when does it decide the verdict? */
module EnvironmentSpelling {
  import opened Ordering
  import opened Text
  import opened ConfigTree
  import opened ConfigKeys
  import opened ConfigOrder
  import opened DottedKeys
  import opened Environment
  import opened EnvironmentNames

  type Item = (string, string)

  /** The order of `sorted(environ.items())`. */
  predicate ItemLess(a: Item, b: Item) { StrLess(a.0, b.0) || (a.0 == b.0 && StrLess(a.1, b.1)) }

  lemma ItemLessTotal()
    ensures StrictTotal(ItemLess)
  {
    StrLessTotal();
  }

  /** The items of a mapping, in the order the loop takes them. */
  ghost predicate InOrder(a: seq<Item>) { forall i, j | 0 <= i < j < |a| :: StrLess(a[i].0, a[j].0) }

  ghost predicate DistinctNames(a: seq<Item>) { forall i, j | 0 <= i < j < |a| :: a[i].0 != a[j].0 }

  lemma SortedInOrder(a: seq<Item>)
    requires DistinctNames(a)
    ensures InOrder(Sort(ItemLess, a)) && multiset(Sort(ItemLess, a)) == multiset(a)
  {
    var b := Sort(ItemLess, a);
    ItemLessTotal();
    SortIsSorted(ItemLess, a);
    forall i, j | 0 <= i < j < |b| ensures StrLess(b[i].0, b[j].0) {
      var x, y := PairMoves(b, a, i, j);
      assert b[i].0 != b[j].0;
      StrLessTotal();
      assert !ItemLess(b[j], b[i]);
    }
  }

  // ---------- respelling ----------

  function Shouted(a: seq<Item>): (r: seq<Item>)
    ensures |r| == |a| && forall i | 0 <= i < |a| :: r[i] == (Upper(a[i].0), a[i].1)
  {
    seq(|a|, i requires 0 <= i < |a| => (Upper(a[i].0), a[i].1))
  }

  /** The same variables with the same values, up to the letter case of their names. */
  ghost predicate Respelled(a: seq<Item>, b: seq<Item>) { multiset(Shouted(a)) == multiset(Shouted(b)) }

  lemma {:induction false} ShoutedReordered(a: seq<Item>, b: seq<Item>)
    requires multiset(a) == multiset(b)
    ensures Respelled(a, b)
    decreases |a|
  {
    if a == [] {
      assert |multiset(a)| == |multiset(b)|;
    } else {
      var i := TakeOutFirst(a, b);
      var rest := b[..i] + b[i + 1..];
      ShoutedReordered(a[1..], rest);
      assert Shouted(a) == [Shouted(a)[0]] + Shouted(a[1..]);
      assert Shouted(rest) == Shouted(b)[..i] + Shouted(b)[i + 1..];
      MultisetWithout(Shouted(b), i);
    }
  }

  lemma SelectedShouted(name: string)
    ensures SameLetters(name, Upper(name)) && SameLetters(name, Lower(name))
    ensures Selected(name) <==> Selected(Upper(name))
  {
    UpperOfLower(name);
    NamesIgnoreCase(name, Upper(name));
  }

  lemma {:induction false} ShoutedSettings<V>(a: seq<Item>, parse: string -> Tree<V>)
    ensures EnvSettings(Shouted(a), parse) == EnvSettings(a, parse)
    ensures AllWellNamed(Shouted(a)) <==> AllWellNamed(a)
  {
    if a != [] {
      var n := |a| - 1;
      ShoutedSettings(a[..n], parse);
      assert Shouted(a)[..n] == Shouted(a[..n]);
      assert a == a[..n] + [a[n]] && Shouted(a) == Shouted(a[..n]) + [Shouted(a)[n]];
      SelectedShouted(a[n].0);
      NamesIgnoreCase(a[n].0, Upper(a[n].0));
    }
  }

  lemma RespelledSettings<V>(a: seq<Item>, b: seq<Item>, parse: string -> Tree<V>)
    requires Respelled(a, b)
    ensures multiset(EnvSettings(a, parse)) == multiset(EnvSettings(b, parse))
    ensures AllWellNamed(a) <==> AllWellNamed(b)
  {
    ShoutedSettings(a, parse);
    ShoutedSettings(b, parse);
    EnvSettingsReordered(Shouted(a), Shouted(b), parse);
    WellNamedReordered(Shouted(a), Shouted(b));
  }

  // ---------- places ----------

  lemma PlacesOfVariables<V>(a: seq<Item>, parse: string -> Tree<V>, u: nat, w: nat) returns (x: nat, y: nat)
    requires u < w < |a| && Selected(a[u].0) && Selected(a[w].0)
    ensures x < y < |EnvSettings(a, parse)|
    ensures EnvSettings(a, parse)[x] == Setting(EnvPath(a[u].0), parse(a[u].1))
    ensures EnvSettings(a, parse)[y] == Setting(EnvPath(a[w].0), parse(a[w].1))
  {
    var before, between, after := a[..u], a[u + 1..w], a[w + 1..];
    assert a == before + [a[u]] + between + [a[w]] + after;
    SingleVariable(a[u], parse);
    SingleVariable(a[w], parse);
    EnvSettingsAppend(before, [a[u]], parse);
    EnvSettingsAppend(before + [a[u]], between, parse);
    EnvSettingsAppend(before + [a[u]] + between, [a[w]], parse);
    EnvSettingsAppend(before + [a[u]] + between + [a[w]], after, parse);
    x := |EnvSettings(before, parse)|;
    y := x + 1 + |EnvSettings(between, parse)|;
  }

  ghost predicate VariableAt<V>(a: seq<Item>, parse: string -> Tree<V>, i: nat, s: Setting<V>) {
    i < |a| && Selected(a[i].0) && s == Setting(EnvPath(a[i].0), parse(a[i].1))
  }

  lemma {:induction false} PlacesOfSettings<V>(a: seq<Item>, parse: string -> Tree<V>, x: nat, y: nat)
    returns (u: nat, w: nat)
    requires x < y < |EnvSettings(a, parse)|
    ensures u < w && VariableAt(a, parse, u, EnvSettings(a, parse)[x])
    ensures VariableAt(a, parse, w, EnvSettings(a, parse)[y])
  {
    var n := |a| - 1;
    var front := EnvSettings(a[..n], parse);
    if y < |front| {
      u, w := PlacesOfSettings(a[..n], parse, x, y);
    } else {
      w := n;
      u := VariableOf(a[..n], parse, front[x]);
    }
  }

  // ---------- an accepted spelling: upper case ----------

  function Loud(x: Item): Item { if Selected(x.0) then (Upper(x.0), x.1) else x }

  function LoudAll(a: seq<Item>): (r: seq<Item>)
    ensures |r| == |a| && forall i | 0 <= i < |a| :: r[i] == Loud(a[i])
  {
    seq(|a|, i requires 0 <= i < |a| => Loud(a[i]))
  }

  /** Two names of an environment without mutual blocking, at most one of them respelled at a time. */
  lemma NoTwoSpellings<V>(a: seq<Item>, parse: string -> Tree<V>, i: nat, j: nat)
    requires i < j < |a| && InOrder(a) && !MutuallyBlocked(EnvSettings(a, parse))
    requires Selected(a[i].0) || Selected(a[j].0)
    ensures !SameLetters(a[i].0, a[j].0)
  {
    if SameLetters(a[i].0, a[j].0) {
      NamesIgnoreCase(a[i].0, a[j].0);
      var x, y := PlacesOfVariables(a, parse, i, j);
      var settings := EnvSettings(a, parse);
      BlocksMeans(settings[x].path, settings[x].value, settings[y].path);
      BlocksMeans(settings[y].path, settings[y].value, settings[x].path);
      assert Mutual(settings[x], settings[y]);
    }
  }

  /** Every item is that of `a` up to letter case, and unselected names are untouched. */
  ghost predicate Retold(a: seq<Item>, b: seq<Item>) {
    |a| == |b| && forall i | 0 <= i < |a| ::
      SameLetters(a[i].0, b[i].0) && a[i].1 == b[i].1 && (!Selected(a[i].0) ==> b[i] == a[i])
  }

  lemma RetoldIsDistinct<V>(a: seq<Item>, b: seq<Item>, parse: string -> Tree<V>)
    requires InOrder(a) && Retold(a, b) && !MutuallyBlocked(EnvSettings(a, parse))
    ensures DistinctNames(b) && Respelled(a, b)
  {
    forall i, j | 0 <= i < j < |b| ensures b[i].0 != b[j].0 {
      if Selected(a[i].0) || Selected(a[j].0) { NoTwoSpellings(a, parse, i, j); }
      StrLessTotal();
      assert StrLess(a[i].0, a[j].0);
    }
    assert Shouted(a) == Shouted(b);
  }

  lemma {:induction false} JoinOfPrefix(p: Path, q: Path)
    requires p != [] && p <= q && p != q
    ensures Join(ENV_DELIMITER, p) <= Join(ENV_DELIMITER, q) && Join(ENV_DELIMITER, p) != Join(ENV_DELIMITER, q)
  {
    var d := ENV_DELIMITER;
    assert q[0] == p[0];
    if |p| == 1 {
      assert Join(d, q) == q[0] + d + Join(d, q[1..]);
    } else {
      JoinOfPrefix(p[1..], q[1..]);
      assert Join(d, p) == p[0] + d + Join(d, p[1..]) && Join(d, q) == p[0] + d + Join(d, q[1..]);
      PrefixUnder(p[0] + d, Join(d, p[1..]), Join(d, q[1..]));
    }
  }

  lemma PrefixUnder(a: string, x: string, y: string)
    requires x <= y && x != y
    ensures a + x <= a + y && a + x != a + y
  {
    assert |a + x| < |a + y|;
  }

  lemma PrefixComesFirst(a: string, b: string)
    requires a <= b && a != b
    ensures StrLess(a, b)
  {
    assert b == a + b[|a|..];
    LessThanExtension(a, b[|a|..]);
  }

  /** In upper case the name of a path comes before the names of its extensions. */
  lemma LoudNamesInOrder(a: string, b: string)
    requires Selected(a) && Selected(b) && Upper(a) == a && Upper(b) == b
    requires EnvPath(a) <= EnvPath(b) && EnvPath(a) != EnvPath(b)
    ensures StrLess(a, b)
  {
    var p, q := EnvPath(a), EnvPath(b);
    NameOfItsPath(a);
    NameOfItsPath(b);
    JoinOfPrefix(p, q);
    PrefixUnder(ENV_PREFIX, Join(ENV_DELIMITER, p), Join(ENV_DELIMITER, q));
    UpperOfPrefix(VariableFor(p), VariableFor(q));
    PrefixComesFirst(a, b);
  }

  lemma UpperOfPrefix(x: string, y: string)
    requires x <= y && x != y
    ensures Upper(x) <= Upper(y) && Upper(x) != Upper(y)
  {
    assert |Upper(x)| < |Upper(y)|;
  }

  lemma LoudIsAccepted<V>(a: seq<Item>, parse: string -> Tree<V>)
    requires InOrder(a) && !MutuallyBlocked(EnvSettings(a, parse))
    requires forall x | x in a && Selected(x.0) :: Upper(x.0) == x.0
    ensures NoneBlocked(EnvSettings(a, parse))
  {
    var settings := EnvSettings(a, parse);
    forall x, y | 0 <= x < y < |settings| ensures !Blocks(settings[x], settings[y].path) {
      var s, t := settings[x], settings[y];
      assert !Mutual(s, t);
      var u, w := PlacesOfSettings(a, parse, x, y);
      BlocksMeans(s.path, s.value, t.path);
      BlocksMeans(t.path, t.value, s.path);
      assert a[u] in a && a[w] in a && StrLess(a[u].0, a[w].0);
      StrLessTotal();
      if t.path <= s.path && t.path != s.path { LoudNamesInOrder(a[w].0, a[u].0); }
    }
  }

  // ---------- a refused spelling: one name in lower case ----------

  lemma LoudBeforeQuiet(a: string, b: string)
    requires Selected(a) && Selected(b)
    ensures StrLess(Upper(a), Lower(b)) && Upper(a) != Lower(b)
  {
    assert Upper(a)[0] == ENV_PREFIX[0] == 'M' && Upper(b)[0] == ENV_PREFIX[0];
    assert UpperChar(b[0]) == 'M' && Lower(b)[0] == 'm';
  }

  /** In an environment where the name of an extending path comes before that of the path it extends, the
      latter is refused. */
  lemma ExtensionFirstIsRefused<V>(b: seq<Item>, parse: string -> Tree<V>, u: nat, w: nat)
    requires u < w < |b| && Selected(b[u].0) && Selected(b[w].0) && EnvPath(b[w].0) <= EnvPath(b[u].0)
    ensures !NoneBlocked(EnvSettings(b, parse))
  {
    var x, y := PlacesOfVariables(b, parse, u, w);
    var settings := EnvSettings(b, parse);
    BlocksMeans(settings[x].path, settings[x].value, settings[y].path);
    assert Blocks(settings[x], settings[y].path);
  }

  lemma PlaceInSorted(a: seq<Item>, x: Item) returns (i: nat)
    requires x in a
    ensures i < |Sort(ItemLess, a)| && Sort(ItemLess, a)[i] == x
  {
    ItemLessTotal();
    SortElements(ItemLess, a);
    assert x in Sort(ItemLess, a);
    i :| i < |Sort(ItemLess, a)| && Sort(ItemLess, a)[i] == x;
  }

  lemma QuietSpelling(a: seq<Item>, short: nat) returns (told: seq<Item>)
    requires short < |a| && Selected(a[short].0)
    ensures Retold(a, told) && told[short] == (Lower(a[short].0), a[short].1)
    ensures forall i | 0 <= i < |a| && i != short :: told[i] == Loud(a[i])
  {
    told := LoudAll(a)[short := (Lower(a[short].0), a[short].1)];
    forall i | 0 <= i < |a| ensures SameLetters(a[i].0, told[i].0) { SelectedShouted(a[i].0); }
  }

  lemma QuietComesLast(told: seq<Item>, a: string, b: string, v: string, w: string) returns (i: nat, j: nat)
    requires DistinctNames(told) && Selected(a) && Selected(b) && (Upper(a), v) in told && (Lower(b), w) in told
    ensures var sorted := Sort(ItemLess, told);
            i < j < |sorted| && sorted[i] == (Upper(a), v) && sorted[j] == (Lower(b), w)
  {
    i := PlaceInSorted(told, (Upper(a), v));
    j := PlaceInSorted(told, (Lower(b), w));
    SortedInOrder(told);
    LoudBeforeQuiet(a, b);
    StrLessTotal();
  }

  /** Spelling one name in lower case and the others in upper case puts it last. */
  lemma QuietIsRefused<V>(a: seq<Item>, parse: string -> Tree<V>, long: nat, short: nat) returns (b: seq<Item>)
    requires InOrder(a) && !MutuallyBlocked(EnvSettings(a, parse))
    requires long < |a| && short < |a| && long != short && Selected(a[long].0) && Selected(a[short].0)
    requires EnvPath(a[short].0) <= EnvPath(a[long].0)
    ensures InOrder(b) && Respelled(a, b) && !NoneBlocked(EnvSettings(b, parse))
  {
    var told := QuietSpelling(a, short);
    RetoldIsDistinct(a, told, parse);
    SortedInOrder(told);
    b := Sort(ItemLess, told);
    ShoutedReordered(told, b);
    assert told[short] in told && told[long] in told;
    var i, j := QuietComesLast(told, a[long].0, a[short].0, a[long].1, a[short].1);
    SelectedShouted(a[long].0);
    SelectedShouted(a[short].0);
    NamesIgnoreCase(a[long].0, Upper(a[long].0));
    NamesIgnoreCase(a[short].0, Lower(a[short].0));
    ExtensionFirstIsRefused(b, parse, i, j);
  }

  // ---------- the condition ----------

  /** However the names are spelled, the verdict is the same. */
  ghost predicate SpellingFree<V>(a: seq<Item>, parse: string -> Tree<V>) {
    forall b | InOrder(b) && Respelled(a, b) :: Settle(b, parse).Ok? <==> Settle(a, parse).Ok?
  }

  lemma OnlyOrderMatters<V(!new)>(a: seq<Item>, parse: string -> Tree<V>)
    requires !AllWellNamed(a) || PrefixFree(EnvSettings(a, parse)) || MutuallyBlocked(EnvSettings(a, parse))
    ensures SpellingFree(a, parse)
  {
    var settings := EnvSettings(a, parse);
    VerdictIgnoresOrder(settings);
    SettleIsInsertAll(a, parse);
    forall b | InOrder(b) && Respelled(a, b) ensures Settle(b, parse).Ok? <==> Settle(a, parse).Ok? {
      RespelledSettings(a, b, parse);
      SettleIsInsertAll(b, parse);
      assert AllWellNamed(a) ==> (Accepts(EnvSettings(b, parse)) <==> Accepts(settings));
    }
  }

  lemma LoudSpelling<V>(a: seq<Item>, parse: string -> Tree<V>) returns (b: seq<Item>)
    requires InOrder(a) && !MutuallyBlocked(EnvSettings(a, parse))
    ensures InOrder(b) && Respelled(a, b) && NoneBlocked(EnvSettings(b, parse))
  {
    var told := LoudAll(a);
    assert Retold(a, told) by {
      forall i | 0 <= i < |a| ensures SameLetters(a[i].0, told[i].0) { SelectedShouted(a[i].0); }
    }
    RetoldIsDistinct(a, told, parse);
    SortedInOrder(told);
    b := Sort(ItemLess, told);
    ShoutedReordered(told, b);
    RespelledSettings(a, b, parse);
    if MutuallyBlocked(EnvSettings(b, parse)) { MutualMoves(EnvSettings(b, parse), EnvSettings(a, parse)); }
    ItemLessTotal();
    SortElements(ItemLess, told);
    forall x | x in b && Selected(x.0) ensures Upper(x.0) == x.0 {
      var i :| 0 <= i < |told| && told[i] == x;
      UpperOfLower(a[i].0);
    }
    LoudIsAccepted(b, parse);
  }

  /** The verdict on an environment does not depend on the letter case of its names if and only if a name is
      not well formed, no path extends another, or two variables are in the way of each other. */
  lemma VerdictOfEverySpelling<V(!new)>(a: seq<Item>, parse: string -> Tree<V>)
    requires InOrder(a)
    ensures SpellingFree(a, parse) <==>
            !AllWellNamed(a) || PrefixFree(EnvSettings(a, parse)) || MutuallyBlocked(EnvSettings(a, parse))
  {
    var settings := EnvSettings(a, parse);
    if !AllWellNamed(a) || PrefixFree(settings) || MutuallyBlocked(settings) {
      OnlyOrderMatters(a, parse);
    } else {
      var good := LoudSpelling(a, parse);
      var i, j :| 0 <= i < j < |settings| && Clash(settings[i].path, settings[j].path);
      var u, w := PlacesOfSettings(a, parse, i, j);
      var bad;
      if settings[j].path <= settings[i].path { bad := QuietIsRefused(a, parse, u, w); }
      else { bad := QuietIsRefused(a, parse, w, u); }
      RespelledSettings(a, good, parse);
      RespelledSettings(a, bad, parse);
      EnvironmentVerdict(good, parse);
      EnvironmentVerdict(bad, parse);
    }
  }

  // ---------- an input for which it matters ----------

  const SECTION := "hardware"
  const FIELD := "cpu_offload"

  const UPPER_SECTION := ENV_PREFIX + "HARDWARE"
  const LOWER_SECTION := ENV_PREFIX + "hARDWARE"
  const UPPER_FIELD := ENV_PREFIX + "HARDWARE__CPU_OFFLOAD"

  lemma SettingKeys()
    ensures Separable([SECTION], ENV_DELIMITER) && Separable([SECTION, FIELD], ENV_DELIMITER)
  {
    NoDelimiterIn(SECTION);
    NoDelimiterIn(FIELD);
    NoEarlierDelimiter(SECTION);
    assert [SECTION, FIELD][1..] == [FIELD];
    assert Find(SECTION, ENV_DELIMITER) == None && Find(FIELD, ENV_DELIMITER) == None;
  }

  lemma NoDelimiterIn(s: string)
    requires forall i: nat | i < |s| - 1 :: s[i] != '_' || s[i + 1] != '_'
    ensures !Contains(s, ENV_DELIMITER)
  {
    forall i: nat ensures !OccursAt(s, ENV_DELIMITER, i) {
      assert i + 2 <= |s| ==> s[i..i + 2][0] == s[i] && s[i..i + 2][1] == s[i + 1];
    }
  }

  lemma UpperNames()
    ensures SameLetters(SECTION, "HARDWARE") && SameLetters(SECTION, "hARDWARE")
    ensures SameLetters(FIELD, "CPU_OFFLOAD")
  {
  }

  /** What a name stands for when it spells the given keys up to letter case. */
  lemma SpelledName(path: Path, spelling: string)
    requires path != [] && (forall p | p in path :: InLowerCase(p)) && Separable(path, ENV_DELIMITER)
    requires SameLetters(Join(ENV_DELIMITER, path), spelling)
    ensures Selected(ENV_PREFIX + spelling) && EnvPath(ENV_PREFIX + spelling) == path
    ensures SameLetters(VariableFor(path), ENV_PREFIX + spelling)
  {
    NamedPath(path);
    UpperAppend(ENV_PREFIX, Join(ENV_DELIMITER, path));
    UpperAppend(ENV_PREFIX, spelling);
    NamesIgnoreCase(VariableFor(path), ENV_PREFIX + spelling);
  }

  lemma FieldSpelling()
    ensures SameLetters(Join(ENV_DELIMITER, [SECTION, FIELD]), "HARDWARE__CPU_OFFLOAD")
  {
    UpperNames();
    JoinTwo(SECTION, FIELD);
    UpperAppend(SECTION + ENV_DELIMITER, FIELD);
    UpperAppend(SECTION, ENV_DELIMITER);
    UpperAppend("HARDWARE" + ENV_DELIMITER, "CPU_OFFLOAD");
    UpperAppend("HARDWARE", ENV_DELIMITER);
    assert "HARDWARE" + ENV_DELIMITER + "CPU_OFFLOAD" == "HARDWARE__CPU_OFFLOAD";
  }

  lemma KeysInLowerCase()
    ensures InLowerCase(SECTION) && InLowerCase(FIELD)
  {
  }

  lemma SectionName(section: string, spelling: string)
    requires InLowerCase(section) && Separable([section], ENV_DELIMITER) && SameLetters(section, spelling)
    ensures Selected(ENV_PREFIX + spelling) && EnvPath(ENV_PREFIX + spelling) == [section]
  {
    SpelledName([section], spelling);
  }

  lemma FieldName(section: string, field: string, spelling: string)
    requires InLowerCase(section) && InLowerCase(field) && Separable([section, field], ENV_DELIMITER)
    requires SameLetters(Join(ENV_DELIMITER, [section, field]), spelling)
    ensures Selected(ENV_PREFIX + spelling) && EnvPath(ENV_PREFIX + spelling) == [section, field]
  {
    SpelledName([section, field], spelling);
  }

  lemma SameSpellings(s: string, t: string, u: string)
    requires SameLetters(s, t) && SameLetters(s, u)
    ensures SameLetters(ENV_PREFIX + t, ENV_PREFIX + u)
  {
    UpperAppend(ENV_PREFIX, t);
    UpperAppend(ENV_PREFIX, u);
  }

  lemma PathsOfNames()
    ensures Selected(UPPER_SECTION) && EnvPath(UPPER_SECTION) == [SECTION]
    ensures Selected(LOWER_SECTION) && EnvPath(LOWER_SECTION) == [SECTION]
    ensures Selected(UPPER_FIELD) && EnvPath(UPPER_FIELD) == [SECTION, FIELD]
    ensures SameLetters(UPPER_SECTION, LOWER_SECTION)
  {
    SettingKeys();
    KeysInLowerCase();
    UpperNames();
    FieldSpelling();
    SectionName(SECTION, "HARDWARE");
    SectionName(SECTION, "hARDWARE");
    FieldName(SECTION, FIELD, "HARDWARE__CPU_OFFLOAD");
    SameSpellings(SECTION, "HARDWARE", "hARDWARE");
  }

  lemma OrderOfNames()
    ensures StrLess(UPPER_SECTION, UPPER_FIELD) && StrLess(UPPER_FIELD, LOWER_SECTION)
  {
    assert "HARDWARE" <= "HARDWARE__CPU_OFFLOAD";
    PrefixComesFirst("HARDWARE", "HARDWARE__CPU_OFFLOAD");
    LessAfterCommon(ENV_PREFIX, "HARDWARE", "HARDWARE__CPU_OFFLOAD");
    assert StrLess("HARDWARE__CPU_OFFLOAD", "hARDWARE");
    LessAfterCommon(ENV_PREFIX, "HARDWARE__CPU_OFFLOAD", "hARDWARE");
  }

  lemma SettleTwo<V>(x: Item, y: Item, parse: string -> Tree<V>)
    requires Selected(x.0) && "" !in EnvPath(x.0)
    ensures Settle([x, y], parse) == SettleOne(Single(EnvPath(x.0), parse(x.1)), y.0, parse(y.1))
  {
    SettleSingle(x.0, x.1, parse);
    assert [x, y][..1] == [x] && x == (x.0, x.1);
  }

  lemma VerdictsOfTwoOrders<V>(a: string, ab: string, mapping: string, scalar: string, parse: string -> Tree<V>)
    requires Selected(a) && Selected(ab) && EnvPath(a) == [SECTION] && EnvPath(ab) == [SECTION, FIELD]
    requires parse(mapping).Node? && FIELD !in parse(mapping).kids
    ensures Settle([(a, mapping), (ab, scalar)], parse).Ok?
    ensures Settle([(ab, scalar), (a, mapping)], parse) == Fail(Repeated(a))
  {
    SettleTwo((a, mapping), (ab, scalar), parse);
    SettleTwo((ab, scalar), (a, mapping), parse);
    InsertBeside(SECTION, FIELD, parse(mapping), parse(scalar));
  }

  lemma SwappedIsRespelled(x: Item, y: Item, z: Item)
    requires Upper(x.0) == Upper(z.0) && x.1 == z.1
    ensures Respelled([x, y], [y, z])
  {
    var sx, sy := (Upper(x.0), x.1), (Upper(y.0), y.1);
    assert Shouted([x, y]) == [sx, sy] && Shouted([y, z]) == [sy, sx];
    assert multiset([sx, sy]) == multiset([sy, sx]);
  }

  /** An object under `HARDWARE` beside a variable for `HARDWARE__CPU_OFFLOAD` is accepted; with a small `h` the
      same settings are taken in the other order and refused. */
  lemma CaseDecidesVerdict<V>(mapping: string, scalar: string, parse: string -> Tree<V>)
    requires parse(mapping).Node? && FIELD !in parse(mapping).kids
    ensures var a := [(UPPER_SECTION, mapping), (UPPER_FIELD, scalar)];
            var b := [(UPPER_FIELD, scalar), (LOWER_SECTION, mapping)];
            && InOrder(a) && InOrder(b) && Respelled(a, b)
            && Settle(a, parse).Ok? && Settle(b, parse) == Fail(Repeated(LOWER_SECTION))
  {
    PathsOfNames();
    OrderOfNames();
    VerdictsOfTwoOrders(UPPER_SECTION, UPPER_FIELD, mapping, scalar, parse);
    VerdictsOfTwoOrders(LOWER_SECTION, UPPER_FIELD, mapping, scalar, parse);
    SwappedIsRespelled((UPPER_SECTION, mapping), (UPPER_FIELD, scalar), (LOWER_SECTION, mapping));
  }

  lemma InsertBeside<V>(k: string, l: string, x: Tree<V>, y: Tree<V>)
    requires x.Node? && l !in x.kids
    ensures InsertAt(Single([k], x), [k, l], y).Ok?
    ensures InsertAt(Single([k, l], y), [k], x) == Fail(Duplicate)
  {
    assert [k, l][1..] == [l] && [k][1..] == [];
    assert InsertAt(x, [l], y).Ok?;
  }
}
