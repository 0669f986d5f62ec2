/** Python string searching, splitting and joining, and decimal numerals. */
module Text {
  import opened Ordering

  // ---------- occurrences ----------

  predicate OccursAt(s: string, m: string, i: nat) {
    i + |m| <= |s| && s[i..i + |m|] == m
  }

  ghost predicate Contains(s: string, m: string) { exists i: nat :: OccursAt(s, m, i) }

  lemma CharAt(s: string, m: string, i: nat, p: nat)
    requires OccursAt(s, m, i) && i <= p < i + |m|
    ensures s[p] == m[p - i]
  {
    assert s[i..i + |m|][p - i] == s[p];
  }

  /** There is no occurrence where its first character is not. */
  lemma HeadMissing(s: string, m: string, i: nat)
    requires m != "" && (i < |s| ==> s[i] != m[0])
    ensures !OccursAt(s, m, i)
  {
    if i + |m| <= |s| { assert s[i..i + |m|][0] == s[i]; }
  }

  /** `str.find`: the first occurrence. */
  function Find(s: string, m: string): (r: Option<nat>)
    ensures r.Some? ==> OccursAt(s, m, r.value) && forall j: nat | j < r.value :: !OccursAt(s, m, j)
    ensures r.None? ==> !Contains(s, m)
  {
    if |m| <= |s| && s[..|m|] == m then Some(0)
    else if s == "" then None
    else
      var r := Find(s[1..], m);
      assert forall j: nat | 0 < j && OccursAt(s, m, j) :: OccursAt(s[1..], m, j - 1);
      assert r.Some? ==> OccursAt(s, m, r.value + 1);
      if r.Some? then Some(r.value + 1) else None
  }

  lemma FindUnique(s: string, m: string, i: nat)
    requires OccursAt(s, m, i) && forall j: nat | j < i :: !OccursAt(s, m, j)
    ensures Find(s, m) == Some(i)
  {
  }

  /** Occurrences move with a prefix put in front of the text. */
  lemma OccursShift(a: string, s: string, m: string, i: nat)
    ensures OccursAt(a + s, m, |a| + i) <==> OccursAt(s, m, i)
  {
    if |a| + i + |m| <= |a + s| {
      assert (a + s)[|a| + i..|a| + i + |m|] == s[i..i + |m|];
    }
  }

  /** Occurrences wholly inside a prefix do not see what follows it. */
  lemma OccursInPrefix(a: string, s: string, m: string, i: nat)
    requires i + |m| <= |a|
    ensures OccursAt(a + s, m, i) <==> OccursAt(a, m, i)
  {
    assert (a + s)[i..i + |m|] == a[i..i + |m|];
  }

  lemma FindNone(s: string, m: string)
    requires forall j: nat :: !OccursAt(s, m, j)
    ensures Find(s, m) == None
  {
  }

  lemma OccursBelow(a: string, s: string, m: string, j: nat)
    requires j < |a| ==> !OccursAt(a + s, m, j)
    ensures OccursAt(a + s, m, j) <==> j >= |a| && OccursAt(s, m, j - |a|)
  {
    if j >= |a| { OccursShift(a, s, m, j - |a|); }
  }

  /** The first occurrence moves with a prefix in which none begins. */
  lemma FindShift(a: string, s: string, m: string)
    requires forall j: nat | j < |a| :: !OccursAt(a + s, m, j)
    ensures Find(a + s, m) == match Find(s, m) case None => None case Some(i) => Some(|a| + i)
  {
    var first, whole := Find(s, m), a + s;
    forall j: nat ensures OccursAt(whole, m, j) <==> j >= |a| && OccursAt(s, m, j - |a|) { OccursBelow(a, s, m, j); }
    if first.Some? { FindUnique(whole, m, |a| + first.value); } else { FindNone(whole, m); }
  }

  // ---------- split and join ----------

  /** `str.split(sep)`. */
  function Split(s: string, sep: string): (r: seq<string>)
    requires sep != ""
    ensures r != []
    decreases |s|
  {
    match Find(s, sep)
    case None => [s]
    case Some(i) => [s[..i]] + Split(s[i + |sep|..], sep)
  }

  /** `sep.join(parts)`. */
  function Join(sep: string, parts: seq<string>): string {
    if parts == [] then ""
    else if |parts| == 1 then parts[0]
    else parts[0] + sep + Join(sep, parts[1..])
  }

  lemma {:induction false} JoinSplit(s: string, sep: string)
    requires sep != ""
    ensures Join(sep, Split(s, sep)) == s
    decreases |s|
  {
    match Find(s, sep)
    case None =>
    case Some(i) =>
      JoinSplit(s[i + |sep|..], sep);
      assert ([s[..i]] + Split(s[i + |sep|..], sep))[1..] == Split(s[i + |sep|..], sep);
      assert s == s[..i] + sep + s[i + |sep|..];
  }

  lemma {:induction false} SplitAtChar(a: string, c: char, b: string)
    ensures Split(a + [c] + b, [c]) == Split(a, [c]) + Split(b, [c])
    decreases |a|
  {
    var s := a + [c] + b;
    match Find(a, [c])
    case None =>
      forall j: nat | j < |a| ensures !OccursAt(s, [c], j) {
        assert !OccursAt(a, [c], j);
        assert s[j] == a[j];
      }
      assert OccursAt(s, [c], |a|);
      FindUnique(s, [c], |a|);
      assert s[..|a|] == a && s[|a| + 1..] == b;
    case Some(i) =>
      forall j: nat | j < i ensures !OccursAt(s, [c], j) {
        assert !OccursAt(a, [c], j);
        assert s[j] == a[j];
      }
      assert OccursAt(s, [c], i);
      FindUnique(s, [c], i);
      assert s[..i] == a[..i] && s[i + 1..] == a[i + 1..] + [c] + b;
      SplitAtChar(a[i + 1..], c, b);
  }

  lemma SplitWhole(s: string, c: char)
    requires c !in s
    ensures Split(s, [c]) == [s]
  {
    forall j: nat ensures !OccursAt(s, [c], j) {
      if j < |s| { assert s[j] in s; }
      HeadMissing(s, [c], j);
    }
  }

  /** Splitting undoes joining when no part holds the separator. */
  lemma {:induction false} SplitJoin(parts: seq<string>, c: char)
    requires parts != [] && forall p | p in parts :: c !in p
    ensures Split(Join([c], parts), [c]) == parts
  {
    SplitWhole(parts[0], c);
    if |parts| > 1 {
      SplitJoin(parts[1..], c);
      assert parts[0] + [c] + Join([c], parts[1..]) == Join([c], parts);
      SplitAtChar(parts[0], c, Join([c], parts[1..]));
      assert [parts[0]] + parts[1..] == parts;
    }
  }

  lemma {:induction false} SplitPartsAreFree(s: string, c: char)
    ensures forall p | p in Split(s, [c]) :: c !in p
    decreases |s|
  {
    match Find(s, [c])
    case None =>
      forall j: nat | j < |s| ensures s[j] != c { assert !OccursAt(s, [c], j); }
    case Some(i) =>
      SplitPartsAreFree(s[i + 1..], c);
      forall j: nat | j < i ensures s[j] != c { assert !OccursAt(s, [c], j); }
      forall p | p in Split(s, [c]) ensures c !in p { assert p == s[..i] || p in Split(s[i + 1..], [c]); }
  }

  // ---------- decimal numerals ----------

  const DIGITS := "0123456789"

  predicate IsDigit(c: char) { '0' <= c <= '9' }

  function DigitValue(c: char): nat
    requires IsDigit(c)
  {
    (c - '0') as nat
  }

  predicate IsNumeral(s: string) { s != "" && forall c | c in s :: IsDigit(c) }

  /** `int(s)` on digits, leading zeros allowed. */
  function ParseNat(s: string): nat
    requires forall c | c in s :: IsDigit(c)
  {
    if s == "" then 0 else 10 * ParseNat(s[..|s| - 1]) + DigitValue(s[|s| - 1])
  }

  /** `str(n)`. */
  function PrintNat(n: nat): (s: string)
    ensures IsNumeral(s)
  {
    if n < 10 then [DIGITS[n]] else PrintNat(n / 10) + [DIGITS[n % 10]]
  }

  lemma DigitsInOrder(d: nat)
    requires d < 10
    ensures IsDigit(DIGITS[d]) && DigitValue(DIGITS[d]) == d
  {
  }

  lemma {:induction false} ParsePrint(n: nat)
    ensures ParseNat(PrintNat(n)) == n
  {
    DigitsInOrder(n % 10);
    if n < 10 {
      assert [DIGITS[n]][..0] == "";
    } else {
      ParsePrint(n / 10);
      var s := PrintNat(n);
      assert s[..|s| - 1] == PrintNat(n / 10);
    }
  }

  function TenTo(n: nat): nat { if n == 0 then 1 else 10 * TenTo(n - 1) }

  predicate Digits(s: string) { forall c | c in s :: IsDigit(c) }

  /** Reading is by place value, so leading zeros count for nothing. */
  lemma {:induction false} ParseAppend(a: string, b: string)
    requires Digits(a) && Digits(b)
    ensures Digits(a + b) && ParseNat(a + b) == ParseNat(a) * TenTo(|b|) + ParseNat(b)
  {
    if b == "" {
      assert a + b == a;
    } else {
      var n := |b| - 1;
      assert (a + b)[..|a + b| - 1] == a + b[..n] && (a + b)[|a + b| - 1] == b[n];
      ParseAppend(a, b[..n]);
      PlaceValue(ParseNat(a), TenTo(n), ParseNat(b[..n]), DigitValue(b[n]), ParseNat(a + b[..n]));
    }
  }

  lemma PlaceValue(x: nat, t: nat, y: nat, d: nat, front: nat)
    requires front == x * t + y
    ensures 10 * front + d == x * (10 * t) + (10 * y + d)
  {
    assert x * (10 * t) == 10 * (x * t);
  }
}
