/** Options, outcomes, and the orders Python's `sorted` and `<` use on strings and sequences. */
module Ordering {

  datatype Option<+T> = None | Some(value: T)

  datatype Outcome<+T, +E> = Ok(value: T) | Fail(error: E)

  // ---------- strict total orders ----------

  ghost predicate StrictTotal<T(!new)>(less: (T, T) -> bool) {
    && (forall x :: !less(x, x))
    && (forall x, y, z :: less(x, y) && less(y, z) ==> less(x, z))
    && (forall x, y :: x != y ==> less(x, y) || less(y, x))
  }

  predicate CharLess(x: char, y: char) { x < y }

  /** Lexicographic order: Python's `<` on strings, tuples and lists. */
  predicate Lex<T(==)>(less: (T, T) -> bool, a: seq<T>, b: seq<T>) {
    b != [] &&
    (a == [] || less(a[0], b[0]) || (a[0] == b[0] && Lex(less, a[1..], b[1..])))
  }

  /** Strings by code point. */
  predicate StrLess(a: string, b: string) { Lex(CharLess, a, b) }

  /** Paths of key segments, segment by segment. */
  predicate PathLess(a: seq<string>, b: seq<string>) { Lex(StrLess, a, b) }

  lemma {:induction false} LexIrreflexive<T(!new)>(less: (T, T) -> bool, a: seq<T>)
    requires StrictTotal(less)
    ensures !Lex(less, a, a)
  {
    if a != [] { LexIrreflexive(less, a[1..]); }
  }

  lemma {:induction false} LexTransitive<T(!new)>(less: (T, T) -> bool, a: seq<T>, b: seq<T>, c: seq<T>)
    requires StrictTotal(less) && Lex(less, a, b) && Lex(less, b, c)
    ensures Lex(less, a, c)
  {
    if a != [] && a[0] == b[0] && b[0] == c[0] {
      LexIrreflexive(less, [a[0]]);
      LexTransitive(less, a[1..], b[1..], c[1..]);
    }
  }

  lemma {:induction false} LexTotal<T(!new)>(less: (T, T) -> bool, a: seq<T>, b: seq<T>)
    requires StrictTotal(less) && a != b
    ensures Lex(less, a, b) || Lex(less, b, a)
  {
    if a != [] && b != [] && a[0] == b[0] {
      assert a == [a[0]] + a[1..] && b == [b[0]] + b[1..];
      LexTotal(less, a[1..], b[1..]);
    }
  }

  lemma LexStrictTotal<T(!new)>(less: (T, T) -> bool, lex: (seq<T>, seq<T>) -> bool)
    requires StrictTotal(less)
    requires forall a, b :: lex(a, b) == Lex(less, a, b)
    ensures StrictTotal(lex)
  {
    forall a ensures !lex(a, a) { LexIrreflexive(less, a); }
    forall a, b, c | lex(a, b) && lex(b, c) ensures lex(a, c) { LexTransitive(less, a, b, c); }
    forall a, b | a != b ensures lex(a, b) || lex(b, a) { LexTotal(less, a, b); }
  }

  lemma StrLessTotal()
    ensures StrictTotal(StrLess)
  {
    LexStrictTotal(CharLess, StrLess);
  }

  lemma PathLessTotal()
    ensures StrictTotal(PathLess)
  {
    StrLessTotal();
    LexStrictTotal(StrLess, PathLess);
  }

  lemma {:induction false} LessAfterCommon(a: string, x: string, y: string)
    ensures StrLess(a + x, a + y) <==> StrLess(x, y)
  {
    if a == "" {
      assert a + x == x && a + y == y;
    } else {
      LessAfterCommon(a[1..], x, y);
      assert (a + x)[1..] == a[1..] + x && (a + y)[1..] == a[1..] + y;
    }
  }

  lemma {:induction false} LessAtDifference(a: string, b: string, x: string, y: string)
    requires !(a <= b) && !(b <= a)
    ensures StrLess(a + x, b + y) <==> StrLess(a, b)
  {
    assert (a + x)[1..] == a[1..] + x && (b + y)[1..] == b[1..] + y;
    if a[0] == b[0] {
      assert a == [a[0]] + a[1..] && b == [b[0]] + b[1..];
      LessAtDifference(a[1..], b[1..], x, y);
    }
  }

  lemma LessThanExtension(a: string, x: string)
    requires x != ""
    ensures StrLess(a, a + x) && !StrLess(a + x, a)
  {
    LessAfterCommon(a, "", x);
    LessAfterCommon(a, x, "");
    assert a + "" == a;
  }

  // ---------- sorting ----------

  function Insert<T>(less: (T, T) -> bool, x: T, s: seq<T>): seq<T> {
    if s == [] || !less(s[0], x) then [x] + s else [s[0]] + Insert(less, x, s[1..])
  }

  /** Python's stable `sorted`. */
  function Sort<T>(less: (T, T) -> bool, s: seq<T>): seq<T> {
    if s == [] then [] else Insert(less, s[0], Sort(less, s[1..]))
  }

  ghost predicate Sorted<T>(less: (T, T) -> bool, s: seq<T>) {
    forall i, j | 0 <= i < j < |s| :: !less(s[j], s[i])
  }

  ghost predicate Increasing<T>(less: (T, T) -> bool, s: seq<T>) {
    forall i, j | 0 <= i < j < |s| :: less(s[i], s[j])
  }

  lemma {:induction false} InsertElements<T>(less: (T, T) -> bool, x: T, s: seq<T>)
    ensures multiset(Insert(less, x, s)) == multiset(s) + multiset{x}
    ensures forall y :: y in Insert(less, x, s) <==> y == x || y in s
  {
    if s != [] && less(s[0], x) {
      assert s == [s[0]] + s[1..];
      InsertElements(less, x, s[1..]);
    }
  }

  lemma {:induction false} InsertIsSorted<T(!new)>(less: (T, T) -> bool, x: T, s: seq<T>)
    requires StrictTotal(less) && Sorted(less, s)
    ensures Sorted(less, Insert(less, x, s))
  {
    if s != [] && less(s[0], x) {
      var r := Insert(less, x, s[1..]);
      InsertIsSorted(less, x, s[1..]);
      InsertElements(less, x, s[1..]);
      forall j | 0 <= j < |r| ensures !less(r[j], s[0]) {
        assert r[j] in r;
      }
    }
  }

  lemma {:induction false} SortIsSorted<T(!new)>(less: (T, T) -> bool, s: seq<T>)
    requires StrictTotal(less)
    ensures Sorted(less, Sort(less, s))
    ensures multiset(Sort(less, s)) == multiset(s)
    ensures |Sort(less, s)| == |s|
  {
    if s != [] {
      SortIsSorted(less, s[1..]);
      InsertIsSorted(less, s[0], Sort(less, s[1..]));
      InsertElements(less, s[0], Sort(less, s[1..]));
      assert s == [s[0]] + s[1..];
    }
    assert |multiset(Sort(less, s))| == |multiset(s)|;
  }

  lemma SortElements<T(!new)>(less: (T, T) -> bool, s: seq<T>)
    requires StrictTotal(less)
    ensures forall x :: x in Sort(less, s) <==> x in s
  {
    SortIsSorted(less, s);
    forall x ensures x in Sort(less, s) <==> x in s {
      assert x in Sort(less, s) <==> x in multiset(Sort(less, s));
    }
  }

  lemma SortedHeads<T(!new)>(less: (T, T) -> bool, a: seq<T>, b: seq<T>)
    requires StrictTotal(less) && Sorted(less, a) && Sorted(less, b) && a != [] && b != []
    requires a[0] in b && b[0] in a
    ensures a[0] == b[0]
  {
    var i :| 0 <= i < |b| && b[i] == a[0];
    var j :| 0 <= j < |a| && a[j] == b[0];
  }

  ghost function Tail<T>(m: multiset<T>, s: seq<T>): (r: multiset<T>)
    requires s != [] && multiset(s) == m
    ensures multiset(s[1..]) == r
  {
    assert s == [s[0]] + s[1..];
    m - multiset{s[0]}
  }

  /** A sorted sequence is determined by its elements. */
  lemma {:induction false} SortedUnique<T(!new)>(less: (T, T) -> bool, a: seq<T>, b: seq<T>)
    requires StrictTotal(less) && Sorted(less, a) && Sorted(less, b) && multiset(a) == multiset(b)
    ensures a == b
    decreases |a|
  {
    assert |a| == |multiset(a)| == |multiset(b)| == |b|;
    if a != [] {
      assert a[0] in multiset(a) && b[0] in multiset(b);
      SortedHeads(less, a, b);
      assert Tail(multiset(a), a) == Tail(multiset(b), b);
      SortedUnique(less, a[1..], b[1..]);
      assert a == [a[0]] + a[1..] && b == [b[0]] + b[1..];
    }
  }

  lemma MultisetWithout<T>(s: seq<T>, i: nat)
    requires i < |s|
    ensures multiset(s[..i] + s[i + 1..]) == multiset(s) - multiset{s[i]}
  {
    assert s == s[..i] + [s[i]] + s[i + 1..];
  }

  // ---------- sorted listings of a set ----------

  /** The first element of a sequence, found in and taken out of a rearrangement of it. */
  lemma TakeOutFirst<T>(a: seq<T>, b: seq<T>) returns (i: nat)
    requires multiset(a) == multiset(b) && a != []
    ensures i < |b| && b[i] == a[0] && multiset(a[1..]) == multiset(b[..i] + b[i + 1..])
  {
    assert a[0] in multiset(b);
    i :| i < |b| && b[i] == a[0];
    assert a[..0] + a[1..] == a[1..];
    MultisetWithout(a, 0);
    MultisetWithout(b, i);
  }

  /** A pair of places in one arrangement is a pair of places in any other. */
  lemma PairMoves<T>(a: seq<T>, b: seq<T>, i: nat, j: nat) returns (x: nat, y: nat)
    requires multiset(a) == multiset(b) && i < j < |a|
    ensures x < |b| && y < |b| && x != y && b[x] == a[i] && b[y] == a[j]
  {
    assert a[i] in multiset(b) && a[j] in multiset(b);
    x :| 0 <= x < |b| && b[x] == a[i];
    if a[i] != a[j] {
      y :| 0 <= y < |b| && b[y] == a[j];
    } else {
      MultisetWithout(b, x);
      var rest := b[..x] + b[x + 1..];
      TwiceInMultiset(a, i, j);
      assert a[j] in multiset(rest);
      var z :| 0 <= z < |rest| && rest[z] == a[j];
      y := if z < x then z else z + 1;
    }
  }

  lemma TwiceInMultiset<T>(a: seq<T>, i: nat, j: nat)
    requires i < j < |a| && a[i] == a[j]
    ensures multiset(a)[a[i]] >= 2
  {
    MultisetWithout(a, i);
    assert (a[..i] + a[i + 1..])[j - 1] == a[j];
    assert a[j] in multiset(a[..i] + a[i + 1..]);
  }

  predicate Distinct<T(==)>(s: seq<T>) {
    forall i, j | 0 <= i < j < |s| :: s[i] != s[j]
  }

  function Elements<T>(s: seq<T>): set<T> { set x | x in s }

  lemma PrependFresh<T>(x: T, rest: seq<T>)
    requires Distinct(rest) && x !in Elements(rest)
    ensures Distinct([x] + rest) && Elements([x] + rest) == {x} + Elements(rest)
  {
    forall i, j | 0 <= i < j < |rest| + 1 ensures ([x] + rest)[i] != ([x] + rest)[j] {
      assert rest[j - 1] in Elements(rest);
    }
  }

  ghost function Listing<T>(s: set<T>): (r: seq<T>)
    ensures Distinct(r) && Elements(r) == s && |r| == |s|
  {
    if s == {} then []
    else
      var x :| x in s;
      var rest := Listing(s - {x});
      PrependFresh(x, rest);
      [x] + rest
  }

  /** Python's `sorted` applied to a set. */
  ghost function SortedSet<T(!new)>(less: (T, T) -> bool, s: set<T>): seq<T> {
    Sort(less, Listing(s))
  }

  lemma SortedDistinctIncreases<T(!new)>(less: (T, T) -> bool, s: seq<T>)
    requires StrictTotal(less) && Sorted(less, s) && Distinct(s)
    ensures Increasing(less, s)
  {
  }

  lemma DistinctByMultiset<T>(a: seq<T>, b: seq<T>)
    requires Distinct(a) && multiset(a) == multiset(b)
    ensures Distinct(b)
  {
    forall i, j | 0 <= i < j < |b| ensures b[i] != b[j] {
      if b[i] == b[j] {
        var x := b[i];
        assert b == b[..i] + [x] + b[i + 1..j] + [x] + b[j + 1..];
        assert multiset(b)[x] >= 2;
        DistinctCounts(a, x);
      }
    }
  }

  lemma {:induction false} DistinctCounts<T>(a: seq<T>, x: T)
    requires Distinct(a)
    ensures multiset(a)[x] <= 1
  {
    if a != [] {
      assert a == [a[0]] + a[1..];
      DistinctCounts(a[1..], x);
      assert x == a[0] ==> x !in a[1..];
    }
  }

  /** `sorted(set)` lists every element once, in increasing order. */
  lemma SortedSetIncreases<T(!new)>(less: (T, T) -> bool, s: set<T>)
    requires StrictTotal(less)
    ensures Increasing(less, SortedSet(less, s)) && Elements(SortedSet(less, s)) == s
    ensures |SortedSet(less, s)| == |s|
  {
    var l := Listing(s);
    SortIsSorted(less, l);
    SortElements(less, l);
    DistinctByMultiset(l, SortedSet(less, s));
    SortedDistinctIncreases(less, SortedSet(less, s));
  }

  /** ... and is the only increasing sequence that does. */
  lemma {:induction false} IncreasingUnique<T(!new)>(less: (T, T) -> bool, a: seq<T>, b: seq<T>)
    requires StrictTotal(less) && Increasing(less, a) && Increasing(less, b) && Elements(a) == Elements(b)
    ensures a == b
  {
    assert b != [] ==> b[0] in Elements(b);
    assert a != [] ==> a[0] in Elements(a);
    if a != [] {
      assert a[0] in Elements(a) && a[0] in Elements(b);
      assert b != [] && b[0] in Elements(b) && b[0] in Elements(a);
      assert a[0] == b[0];
      assert a == [a[0]] + a[1..] && b == [b[0]] + b[1..];
      assert Elements(a[1..]) == Elements(a) - {a[0]};
      assert Elements(b[1..]) == Elements(b) - {b[0]};
      IncreasingUnique(less, a[1..], b[1..]);
    }
  }

  /** Python's `sorted` applied to a set, whatever order its elements come in. */
  method SortedListing<T(==, !new)>(less: (T, T) -> bool, s: set<T>) returns (r: seq<T>)
    requires StrictTotal(less)
    ensures Increasing(less, r) && Elements(r) == s && (r == [] <==> s == {})
  {
    var listed: seq<T> := [];
    var todo := s;
    while todo != {}
      invariant todo <= s && Distinct(listed) && forall x :: x in listed <==> x in s - todo
      decreases todo
    {
      var x :| x in todo;
      assert x !in listed;
      listed := listed + [x];
      todo := todo - {x};
    }
    r := Sort(less, listed);
    SortIsSorted(less, listed);
    SortElements(less, listed);
    DistinctByMultiset(listed, r);
    SortedDistinctIncreases(less, r);
    assert forall x :: x in Elements(r) <==> x in listed;
    if r != [] { assert r[0] in Elements(r); }
  }

  // ---------- filtering ----------

  /** The elements with a property, in order. */
  ghost function Keep<T>(p: T -> bool, xs: seq<T>): seq<T> {
    if xs == [] then []
    else Keep(p, xs[..|xs| - 1]) + if p(xs[|xs| - 1]) then [xs[|xs| - 1]] else []
  }

  /** One element, or none. */
  function Flag<T>(holds: bool, x: T): seq<T> { if holds then [x] else [] }

  lemma KeepSnoc<T>(p: T -> bool, xs: seq<T>, x: T)
    ensures Keep(p, xs + [x]) == Keep(p, xs) + Flag(p(x), x)
  {
    assert (xs + [x])[..|xs|] == xs;
  }

  lemma KeepNext<T>(p: T -> bool, xs: seq<T>, i: nat)
    requires i < |xs|
    ensures Keep(p, xs[..i + 1]) == Keep(p, xs[..i]) + Flag(p(xs[i]), xs[i])
  {
    assert xs[..i + 1] == xs[..i] + [xs[i]];
    KeepSnoc(p, xs[..i], xs[i]);
  }

  lemma {:induction false} KeepAppend<T>(p: T -> bool, xs: seq<T>, ys: seq<T>)
    ensures Keep(p, xs + ys) == Keep(p, xs) + Keep(p, ys)
  {
    if ys == [] {
      assert xs + ys == xs;
    } else {
      var n := |ys| - 1;
      assert (xs + ys)[..|xs + ys| - 1] == xs + ys[..n];
      KeepAppend(p, xs, ys[..n]);
    }
  }

  lemma {:induction false} KeepMembers<T>(p: T -> bool, xs: seq<T>)
    ensures forall x :: x in Keep(p, xs) <==> x in xs && p(x)
  {
    if xs != [] {
      KeepMembers(p, xs[..|xs| - 1]);
      assert xs == xs[..|xs| - 1] + [xs[|xs| - 1]];
    }
  }

  lemma {:induction false} KeepAgrees<T>(p: T -> bool, q: T -> bool, xs: seq<T>)
    requires forall x | x in xs :: p(x) == q(x)
    ensures Keep(p, xs) == Keep(q, xs)
  {
    if xs != [] {
      KeepAgrees(p, q, xs[..|xs| - 1]);
      assert xs[|xs| - 1] in xs;
    }
  }

  lemma KeepThree<T>(p: T -> bool, x: T, y: T, z: T)
    ensures Keep(p, [x, y, z]) == Flag(p(x), x) + Flag(p(y), y) + Flag(p(z), z)
  {
    KeepSnoc(p, [], x);
    KeepSnoc(p, [x], y);
    KeepSnoc(p, [x, y], z);
    assert [] + [x] == [x] && [x] + [y] == [x, y] && [x, y] + [z] == [x, y, z];
  }
}
