/** What the names of environment variables mean: letter case, and which setting a name stands for. */
module EnvironmentNames {
  import opened Ordering
  import opened Text
  import opened ConfigTree
  import opened ConfigKeys
  import opened ConfigOrder
  import opened DottedKeys
  import opened Environment

  // ---------- letter case ----------

  /** Texts that differ at most in letter case. */
  predicate SameLetters(a: string, b: string) { Upper(a) == Upper(b) }

  lemma SameLettersAt(a: string, b: string, i: nat)
    requires SameLetters(a, b) && i < |a|
    ensures |a| == |b| && LowerChar(a[i]) == LowerChar(b[i]) && (a[i] == '_' <==> b[i] == '_')
  {
    assert |Upper(a)| == |Upper(b)|;
    assert Upper(a)[i] == Upper(b)[i];
  }

  lemma SameLettersSlice(a: string, b: string, i: nat, j: nat)
    requires SameLetters(a, b) && i <= j <= |a|
    ensures |a| == |b| && SameLetters(a[i..j], b[i..j]) && Lower(a[i..j]) == Lower(b[i..j])
  {
    assert |Upper(a)| == |Upper(b)|;
    assert Upper(a[i..j]) == Upper(a)[i..j] && Upper(b[i..j]) == Upper(b)[i..j];
    forall k | 0 <= k < j - i ensures Lower(a[i..j])[k] == Lower(b[i..j])[k] { SameLettersAt(a, b, i + k); }
  }

  lemma SameDelimiters(a: string, b: string, i: nat)
    requires SameLetters(a, b) && OccursAt(a, ENV_DELIMITER, i)
    ensures OccursAt(b, ENV_DELIMITER, i)
  {
    SameLettersAt(a, b, i);
    SameLettersAt(a, b, i + 1);
    CharAt(a, ENV_DELIMITER, i, i);
    CharAt(a, ENV_DELIMITER, i, i + 1);
    assert b[i..i + 2] == "__";
  }

  lemma SameFirstDelimiter(a: string, b: string)
    requires SameLetters(a, b)
    ensures Find(a, ENV_DELIMITER) == Find(b, ENV_DELIMITER)
  {
    forall i: nat ensures OccursAt(a, ENV_DELIMITER, i) <==> OccursAt(b, ENV_DELIMITER, i) {
      if OccursAt(a, ENV_DELIMITER, i) { SameDelimiters(a, b, i); }
      if OccursAt(b, ENV_DELIMITER, i) { SameDelimiters(b, a, i); }
    }
    if Find(a, ENV_DELIMITER).Some? { FindUnique(b, ENV_DELIMITER, Find(a, ENV_DELIMITER).value); }
    if Find(b, ENV_DELIMITER).Some? { FindUnique(a, ENV_DELIMITER, Find(b, ENV_DELIMITER).value); }
  }

  lemma LowerAllStep(first: string, rest: seq<string>)
    ensures LowerAll([first] + rest) == [Lower(first)] + LowerAll(rest)
  {
  }

  lemma {:induction false} SplitIgnoresCase(a: string, b: string)
    requires SameLetters(a, b)
    ensures LowerAll(Split(a, ENV_DELIMITER)) == LowerAll(Split(b, ENV_DELIMITER))
    decreases |a|
  {
    SameFirstDelimiter(a, b);
    SameLettersSlice(a, b, 0, |a|);
    match Find(a, ENV_DELIMITER)
    case None =>
      assert a[0..|a|] == a && b[0..|b|] == b;
    case Some(i) =>
      SameLettersSlice(a, b, 0, i);
      SameLettersSlice(a, b, i + 2, |a|);
      assert a[i + 2..|a|] == a[i + 2..] && b[i + 2..|b|] == b[i + 2..];
      SplitIgnoresCase(a[i + 2..], b[i + 2..]);
      LowerAllStep(a[..i], Split(a[i + 2..], ENV_DELIMITER));
      LowerAllStep(b[..i], Split(b[i + 2..], ENV_DELIMITER));
  }

  /** Names that differ only in letter case are the same setting. */
  lemma NamesIgnoreCase(a: string, b: string)
    requires SameLetters(a, b)
    ensures Selected(a) <==> Selected(b)
    ensures Selected(a) ==> EnvPath(a) == EnvPath(b)
  {
    if Selected(a) {
      assert |Upper(a)| == |Upper(b)|;
      SameLettersSlice(a, b, |ENV_PREFIX|, |a|);
      assert a[|ENV_PREFIX|..|a|] == a[|ENV_PREFIX|..] && b[|ENV_PREFIX|..|b|] == b[|ENV_PREFIX|..];
      SplitIgnoresCase(a[|ENV_PREFIX|..], b[|ENV_PREFIX|..]);
    }
  }

  /** An environment with two spellings of one selected name is refused. */
  lemma TwoSpellingsAreRefused<V>(before: seq<(string, string)>, a: (string, string), between: seq<(string, string)>,
                                  b: (string, string), after: seq<(string, string)>, parse: string -> Tree<V>)
    requires Selected(a.0) && SameLetters(a.0, b.0)
    ensures Settle(before + [a] + between + [b] + after, parse).Fail?
  {
    NamesIgnoreCase(a.0, b.0);
    SingleVariable(a, parse);
    SingleVariable(b, parse);
    EnvSettingsAppend(before, [a], parse);
    EnvSettingsAppend(before + [a], between, parse);
    EnvSettingsAppend(before + [a] + between, [b], parse);
    EnvSettingsAppend(before + [a] + between + [b], after, parse);
    RepeatedPathBlocks(EnvSettings(before, parse), Setting(EnvPath(a.0), parse(a.1)), EnvSettings(between, parse),
                       Setting(EnvPath(b.0), parse(b.1)), EnvSettings(after, parse));
    EnvironmentVerdict(before + [a] + between + [b] + after, parse);
  }

  lemma RepeatedPathBlocks<V>(x: seq<Setting<V>>, s: Setting<V>, y: seq<Setting<V>>, t: Setting<V>, z: seq<Setting<V>>)
    requires s.path == t.path
    ensures !NoneBlocked(x + [s] + y + [t] + z)
  {
    var all := x + [s] + y + [t] + z;
    BlocksMeans(s.path, s.value, t.path);
    assert all[|x|] == s && all[|x| + 1 + |y|] == t;
    assert Blocks(all[|x|], all[|x| + 1 + |y|].path);
  }

  // ---------- the name of a setting ----------

  /** Each part ends where its delimiter begins, and the last holds none. */
  predicate Separable(parts: seq<string>, sep: string)
    requires parts != [] && sep != ""
  {
    if |parts| == 1 then Find(parts[0], sep) == None
    else Find(parts[0] + sep, sep) == Some(|parts[0]|) && Separable(parts[1..], sep)
  }

  lemma FindAfterPart(p: string, sep: string, rest: string)
    requires sep != ""
    ensures Find(p + sep, sep).Some? && Find(p + sep + rest, sep) == Find(p + sep, sep)
  {
    assert OccursAt(p + sep, sep, |p|) by { assert (p + sep)[|p|..|p| + |sep|] == sep; }
    assert Contains(p + sep, sep);
    var i := Find(p + sep, sep).value;
    forall j: nat | j <= i ensures OccursAt(p + sep + rest, sep, j) <==> OccursAt(p + sep, sep, j) {
      OccursInPrefix(p + sep, rest, sep, j);
    }
    FindUnique(p + sep + rest, sep, i);
  }

  /** Splitting undoes joining exactly when the parts are separable. */
  lemma {:induction false} SplitJoinExactly(parts: seq<string>, sep: string)
    requires parts != [] && sep != ""
    ensures Split(Join(sep, parts), sep) == parts <==> Separable(parts, sep)
  {
    var s := Join(sep, parts);
    if |parts| == 1 {
      assert parts == [s];
    } else {
      var p, rest := parts[0], Join(sep, parts[1..]);
      FindAfterPart(p, sep, rest);
      var i := Find(s, sep).value;
      assert parts == [p] + parts[1..];
      SplitHead(s, sep, i);
      if i == |p| {
        assert s[..i] == p && s[i + |sep|..] == rest;
        SplitJoinExactly(parts[1..], sep);
      }
    }
  }

  lemma SplitHead(s: string, sep: string, i: nat)
    requires sep != "" && Find(s, sep) == Some(i)
    ensures Split(s, sep) == [s[..i]] + Split(s[i + |sep|..], sep) && Split(s, sep)[0] == s[..i]
    ensures Split(s, sep)[1..] == Split(s[i + |sep|..], sep)
  {
  }

  lemma DelimiterPlaces(p: string, i: nat)
    ensures OccursAt(p + ENV_DELIMITER, ENV_DELIMITER, i) <==>
            OccursAt(p, ENV_DELIMITER, i) || (i + 1 == |p| && p[i] == '_') || i == |p|
  {
    var s := p + ENV_DELIMITER;
    if i + 2 <= |p| {
      OccursInPrefix(p, ENV_DELIMITER, ENV_DELIMITER, i);
    } else if i + 1 == |p| {
      assert s[i..i + 2] == [p[i], '_'] && s[i..i + 2][0] == p[i];
    } else if i == |p| {
      assert s[i..i + 2] == ENV_DELIMITER;
    }
  }

  lemma NoEarlierDelimiter(p: string)
    requires !Contains(p, ENV_DELIMITER) && (p == "" || p[|p| - 1] != '_')
    ensures Find(p + ENV_DELIMITER, ENV_DELIMITER) == Some(|p|)
  {
    DelimiterPlaces(p, |p|);
    forall i: nat | i < |p| ensures !OccursAt(p + ENV_DELIMITER, ENV_DELIMITER, i) { DelimiterPlaces(p, i); }
    FindUnique(p + ENV_DELIMITER, ENV_DELIMITER, |p|);
  }

  lemma EarlierDelimiter(p: string, i: nat)
    requires OccursAt(p, ENV_DELIMITER, i) || (i + 1 == |p| && p[i] == '_')
    ensures i < |p| && Find(p + ENV_DELIMITER, ENV_DELIMITER) != Some(|p|)
  {
    DelimiterPlaces(p, i);
  }

  /** With the environment's delimiter: no part but the last may end in an underscore, and none may hold two
      in a row. */
  lemma DelimiterEndsPart(p: string)
    ensures Find(p + ENV_DELIMITER, ENV_DELIMITER) == Some(|p|) <==>
            !Contains(p, ENV_DELIMITER) && (p == "" || p[|p| - 1] != '_')
  {
    if i: nat :| OccursAt(p, ENV_DELIMITER, i) {
      EarlierDelimiter(p, i);
    } else if p != "" && p[|p| - 1] == '_' {
      EarlierDelimiter(p, |p| - 1);
    } else {
      NoEarlierDelimiter(p);
    }
  }

  /** The name is that of its path, up to letter case. */
  lemma NameOfItsPath(name: string)
    requires Selected(name)
    ensures SameLetters(name, VariableFor(EnvPath(name)))
  {
    var rest := name[|ENV_PREFIX|..];
    var parts := Split(rest, ENV_DELIMITER);
    JoinSplit(rest, ENV_DELIMITER);
    JoinIgnoresCase(parts);
    assert Upper(name) == ENV_PREFIX + Upper(rest) by {
      assert Upper(rest) == Upper(name)[|ENV_PREFIX|..];
    }
    assert Upper(ENV_PREFIX) == ENV_PREFIX;
    UpperAppend(ENV_PREFIX, Join(ENV_DELIMITER, LowerAll(parts)));
  }

  lemma UpperAppend(a: string, b: string)
    ensures Upper(a + b) == Upper(a) + Upper(b)
  {
  }

  lemma UpperOfLower(s: string)
    ensures Upper(Lower(s)) == Upper(s) && Upper(Upper(s)) == Upper(s)
  {
  }

  lemma {:induction false} JoinIgnoresCase(parts: seq<string>)
    ensures Upper(Join(ENV_DELIMITER, LowerAll(parts))) == Upper(Join(ENV_DELIMITER, parts))
  {
    if |parts| == 1 {
      UpperOfLower(parts[0]);
    } else if parts != [] {
      UpperOfLower(parts[0]);
      assert parts == [parts[0]] + parts[1..];
      LowerAllStep(parts[0], parts[1..]);
      assert LowerAll(parts)[1..] == LowerAll(parts[1..]);
      JoinIgnoresCase(parts[1..]);
      var d := ENV_DELIMITER;
      UpperAppend(parts[0] + d, Join(d, parts[1..]));
      UpperAppend(parts[0], d);
      UpperAppend(Lower(parts[0]) + d, Join(d, LowerAll(parts[1..])));
      UpperAppend(Lower(parts[0]), d);
    }
  }

  /** Two selected names stand for one path exactly when they differ at most in letter case. */
  lemma SamePathSameLetters(a: string, b: string)
    requires Selected(a) && Selected(b)
    ensures EnvPath(a) == EnvPath(b) <==> SameLetters(a, b)
  {
    NameOfItsPath(a);
    NameOfItsPath(b);
    if SameLetters(a, b) { NamesIgnoreCase(a, b); }
  }

  function VariableFor(path: Path): string { ENV_PREFIX + Join(ENV_DELIMITER, path) }

  predicate InLowerCase(s: string) { forall c | c in s :: LowerChar(c) == c }

  lemma LowerIsFixed(s: string)
    requires InLowerCase(s)
    ensures Lower(s) == s
  {
    forall i | 0 <= i < |s| ensures LowerChar(s[i]) == s[i] { assert s[i] in s; }
  }

  lemma {:induction false} JoinInLowerCase(path: Path)
    requires forall p | p in path :: InLowerCase(p)
    ensures InLowerCase(Join(ENV_DELIMITER, path))
  {
    if |path| > 1 {
      forall p | p in path[1..] ensures InLowerCase(p) { assert p in path; }
      JoinInLowerCase(path[1..]);
      assert path[0] in path;
    }
  }

  lemma {:induction false} SplitInLowerCase(s: string)
    requires InLowerCase(s)
    ensures LowerAll(Split(s, ENV_DELIMITER)) == Split(s, ENV_DELIMITER)
    decreases |s|
  {
    match Find(s, ENV_DELIMITER)
    case None => LowerIsFixed(s);
    case Some(i) =>
      LowerIsFixed(s[..i]);
      SplitInLowerCase(s[i + 2..]);
      LowerAllStep(s[..i], Split(s[i + 2..], ENV_DELIMITER));
  }

  /** No part is empty or holds a capital, and the parts are separable. */
  predicate Nameable(path: Path) {
    path != [] && "" !in path && (forall p | p in path :: InLowerCase(p)) && Separable(path, ENV_DELIMITER)
  }

  lemma VariableIsSelected(path: Path)
    ensures Selected(VariableFor(path))
  {
    var rest := Join(ENV_DELIMITER, path);
    UpperAppend(ENV_PREFIX, rest);
    assert Upper(ENV_PREFIX) == ENV_PREFIX;
  }

  lemma PathIsInLowerCase(name: string)
    requires Selected(name)
    ensures forall p | p in EnvPath(name) :: InLowerCase(p)
  {
    forall p, c | p in EnvPath(name) && c in p ensures LowerChar(c) == c {
      var n :| 0 <= n < |EnvPath(name)| && EnvPath(name)[n] == p;
      var part := Split(name[|ENV_PREFIX|..], ENV_DELIMITER)[n];
      assert p == Lower(part);
      var i :| 0 <= i < |p| && c == p[i];
      assert p[i] == LowerChar(part[i]);
    }
  }

  lemma NamedPath(path: Path)
    requires path != [] && forall p | p in path :: InLowerCase(p)
    ensures Selected(VariableFor(path))
    ensures EnvPath(VariableFor(path)) == path <==> Separable(path, ENV_DELIMITER)
  {
    var name, rest := VariableFor(path), Join(ENV_DELIMITER, path);
    VariableIsSelected(path);
    assert name[|ENV_PREFIX|..] == rest;
    JoinInLowerCase(path);
    SplitInLowerCase(rest);
    SplitJoinExactly(path, ENV_DELIMITER);
  }

  /** A tree stored at a path is never the tree itself, nor the same stored at another path. */
  lemma {:induction false} StoredIsLarger<V>(p: Path, v: Tree<V>)
    requires p != []
    ensures Single(p, v) != v
    decreases v
  {
    if Single(p, v) == v {
      var kid := v.kids[p[0]];
      assert kid == Single(p[1..], v) && v == Single([p[0]], kid) by { assert [p[0]][1..] == []; }
      SingleTwice(p[1..], [p[0]], kid);
      StoredIsLarger(p[1..] + [p[0]], kid);
    }
  }

  lemma {:induction false} SingleTwice<V>(p: Path, q: Path, v: Tree<V>)
    ensures Single(p, Single(q, v)) == Single(p + q, v)
  {
    if p == [] {
      assert p + q == q;
    } else {
      SingleTwice(p[1..], q, v);
      assert (p + q)[1..] == p[1..] + q;
    }
  }

  lemma {:induction false} SingleInjective<V>(p: Path, q: Path, v: Tree<V>)
    requires Single(p, v) == Single(q, v)
    ensures p == q
  {
    if p == [] || q == [] {
      if q != [] { StoredIsLarger(q, v); }
      if p != [] { StoredIsLarger(p, v); }
    } else {
      assert p[0] in Single(q, v).kids;
      SingleInjective(p[1..], q[1..], v);
      assert p == [p[0]] + p[1..] && q == [q[0]] + q[1..];
    }
  }

  lemma SettleSingle<V>(name: string, raw: string, parse: string -> Tree<V>)
    requires Selected(name)
    ensures Settle([(name, raw)], parse) ==
            if "" in EnvPath(name) then Fail(InvalidName(name)) else Ok(Single(EnvPath(name), parse(raw)))
  {
    assert [(name, raw)][..0] == [];
    InsertIsMerge(Empty<V>(), EnvPath(name), parse(raw));
    OccupiedMeans(Empty<V>(), EnvPath(name));
    MergeIdentity(Single(EnvPath(name), parse(raw)));
  }

  /** The variable named after a setting path sets that path, whatever its value, if and only if the keys are
      in lower case, none is empty, and they are separable by the delimiter. */
  lemma VariableRoundTrip<V>(path: Path, raw: string, parse: string -> Tree<V>)
    ensures Settle([(VariableFor(path), raw)], parse) == Ok(Single(path, parse(raw))) <==> Nameable(path)
  {
    var name := VariableFor(path);
    VariableIsSelected(path);
    SettleSingle(name, raw, parse);
    PathIsInLowerCase(name);
    if path != [] && forall p | p in path :: InLowerCase(p) { NamedPath(path); }
    if Single(EnvPath(name), parse(raw)) == Single(path, parse(raw)) {
      SingleInjective(EnvPath(name), path, parse(raw));
    }
  }

  lemma JoinTwo(a: string, b: string)
    ensures Join(ENV_DELIMITER, [a, b]) == a + ENV_DELIMITER + b
  {
    assert [a, b][1..] == [b];
  }

  /** A key that ends in an underscore gives it to the next key. */
  lemma TrailingUnderscoreMoves(p: string, q: string)
    requires InLowerCase(p) && InLowerCase(q) && Separable([p, "_" + q], ENV_DELIMITER)
    ensures Selected(VariableFor([p + "_", q])) && EnvPath(VariableFor([p + "_", q])) == [p, "_" + q]
  {
    JoinTwo(p + "_", q);
    JoinTwo(p, "_" + q);
    assert (p + "_") + ENV_DELIMITER + q == p + ENV_DELIMITER + ("_" + q);
    assert VariableFor([p + "_", q]) == VariableFor([p, "_" + q]);
    NamedPath([p, "_" + q]);
  }
}
