/** The loops and in-place updates of `config_io.py`, proved against the tree functions. */
module ConfigIo {
  import opened Ordering
  import opened Text
  import opened ConfigTree
  import opened ConfigKeys
  import opened DottedKeys
  import opened Environment

  // ---------- results built in local dictionaries ----------

  /** `_merge`: copy the base, then take the override key by key. */
  method MergeMappings<V>(base: map<string, Tree<V>>, over: map<string, Tree<V>>) returns (result: map<string, Tree<V>>)
    ensures Node(result) == Merge(Node(base), Node(over))
    decreases Node(over)
  {
    ghost var goal := Merge(Node(base), Node(over)).kids;
    result := base;
    var todo := over.Keys;
    while todo != {}
      invariant todo <= over.Keys
      invariant result.Keys == base.Keys + (over.Keys - todo)
      invariant forall k | k in result :: result[k] == if k in over && k !in todo then goal[k] else base[k]
      decreases todo
    {
      var key :| key in todo;
      var value := over[key];
      assert goal[key] == if key in base then Merge(base[key], value) else value;
      if key in result && result[key].Node? && value.Node? {
        var merged := MergeMappings(result[key].kids, value.kids);
        result := result[key := Node(merged)];
      } else {
        result := result[key := value];
      }
      todo := todo - {key};
    }
    assert result == goal;
  }

  lemma FirstsAppend<A, B>(a: seq<(A, B)>, b: seq<(A, B)>)
    ensures Firsts(a + b) == Firsts(a) + Firsts(b)
  {
  }

  /** The names contributed by one key of a listing. */
  ghost function NamesUnder<V>(t: Tree<V>, keys: seq<string>, i: nat, prefix: string): seq<string>
    requires t.Node? && i < |keys| && forall k | k in keys :: k in t.kids
  {
    Firsts(Flatten(t.kids[keys[i]], Extend(prefix, keys[i])))
  }

  ghost function NamesFrom<V>(t: Tree<V>, keys: seq<string>, i: nat, prefix: string): seq<string>
    requires t.Node? && i <= |keys| && forall k | k in keys :: k in t.kids
  {
    Firsts(FlattenOver(t, keys[i..], prefix))
  }

  lemma NamesStep<V>(t: Tree<V>, keys: seq<string>, i: nat, prefix: string)
    requires t.Node? && i < |keys| && forall k | k in keys :: k in t.kids
    ensures NamesFrom(t, keys, i, prefix) == NamesUnder(t, keys, i, prefix) + NamesFrom(t, keys, i + 1, prefix)
  {
    var rest := keys[i..];
    assert rest[0] == keys[i] && rest[1..] == keys[i + 1..];
    FirstsAppend(Flatten(t.kids[keys[i]], Extend(prefix, keys[i])), FlattenOver(t, keys[i + 1..], prefix));
  }

  /** The keys of a mapping in the order `sorted` visits them. */
  method OrderedKeys<V>(t: Tree<V>, ghost prefix: string) returns (listed: seq<string>)
    requires t.Node?
    ensures forall k | k in listed :: k in t.kids
    ensures NamesFrom(t, listed, 0, prefix) == Firsts(Flatten(t, prefix))
  {
    StrLessTotal();
    listed := SortedListing(StrLess, t.kids.Keys);
    IncreasingUnique(StrLess, listed, SortedKeys(t));
    assert listed[0..] == listed;
  }

  lemma NameOfLeaf<V>(t: Tree<V>, name: string)
    requires t.Leaf?
    ensures Firsts(Flatten(t, name)) == [name]
  {
  }

  /** `_dotted_keys`: the sorted keys of each mapping, extended depth first. */
  method CollectDottedKeys<V>(value: Tree<V>, prefix: string) returns (keys: seq<string>)
    requires value.Node?
    ensures keys == Firsts(Flatten(value, prefix))
    decreases value, 1
  {
    var listed := OrderedKeys(value, prefix);
    keys := [];
    for i := 0 to |listed|
      invariant keys + NamesFrom(value, listed, i, prefix) == Firsts(Flatten(value, prefix))
    {
      NamesStep(value, listed, i, prefix);
      var names := KeyNames(value, listed, i, prefix);
      keys := keys + names;
    }
  }

  method KeyNames<V>(value: Tree<V>, listed: seq<string>, i: nat, prefix: string) returns (names: seq<string>)
    requires value.Node? && i < |listed| && forall k | k in listed :: k in value.kids
    ensures names == NamesUnder(value, listed, i, prefix)
    decreases value, 0
  {
    var name := Extend(prefix, listed[i]);
    var child := value.kids[listed[i]];
    if child.Node? {
      names := CollectDottedKeys(child, name);
    } else {
      NameOfLeaf(child, name);
      names := [name];
    }
  }

  /** Store `x` under a fresh key `k` of the mapping at `p`. */
  function Put<V>(t: Tree<V>, p: Path, k: string, x: Tree<V>): Tree<V>
    requires IsMapping(t, p) && k !in At(t, p).value.kids
  {
    if p == [] then Node(t.kids[k := x]) else Node(t.kids[p[0] := Put(t.kids[p[0]], p[1..], k, x)])
  }

  lemma {:induction false} PutIsInsert<V>(t: Tree<V>, p: Path, k: string, x: Tree<V>)
    requires IsMapping(t, p) && k !in At(t, p).value.kids
    ensures InsertAt(t, p + [k], x) == Ok(Put(t, p, k, x))
  {
    if p != [] {
      assert (p + [k])[1..] == p[1..] + [k];
      PutIsInsert(t.kids[p[0]], p[1..], k, x);
    } else {
      assert p + [k] == [k];
    }
  }

  lemma {:induction false} PutThere<V>(t: Tree<V>, p: Path, k: string, x: Tree<V>)
    requires IsMapping(t, p) && k !in At(t, p).value.kids
    ensures At(Put(t, p, k, x), p + [k]) == Some(x)
  {
    if p != [] {
      assert (p + [k])[1..] == p[1..] + [k];
      PutThere(t.kids[p[0]], p[1..], k, x);
    } else {
      assert p + [k] == [k];
    }
  }

  /** Creating an empty mapping on the way does not change what an insertion further down gives. */
  lemma {:induction false} PutOnTheWay<V>(t: Tree<V>, p: Path, k: string, rest: Path, x: Tree<V>)
    requires IsMapping(t, p) && k !in At(t, p).value.kids && rest != []
    ensures InsertAt(Put(t, p, k, Empty()), p + [k] + rest, x) == InsertAt(t, p + [k] + rest, x)
    decreases p
  {
    var all := p + [k] + rest;
    if p != [] {
      assert all[0] == p[0] && all[1..] == p[1..] + [k] + rest;
      var kid := Put(t.kids[p[0]], p[1..], k, Empty());
      PutOnTheWay(t.kids[p[0]], p[1..], k, rest, x);
      var there, here := InsertAt(kid, all[1..], x), InsertAt(t.kids[p[0]], all[1..], x);
      assert there == here;
      assert here.Ok? ==> t.kids[p[0] := kid][p[0] := here.value] == t.kids[p[0] := here.value];
    } else {
      assert all == [k] + rest && all[0] == k && all[1..] == rest;
      InsertIsMerge(Empty<V>(), rest, x);
      OccupiedMeans(Empty<V>(), rest);
      MergeIdentity(Single(rest, x));
      assert t.kids[k := Empty()][k := Single(rest, x)] == t.kids[k := Single(rest, x)];
    }
  }

  lemma SingleIsInsert<V>(parts: Path, value: Tree<V>)
    requires parts != []
    ensures InsertAt(Empty(), parts, value) == Ok(Single(parts, value))
  {
    InsertIsMerge(Empty<V>(), parts, value);
    OccupiedMeans(Empty<V>(), parts);
    MergeIdentity(Single(parts, value));
  }

  /** The chain of mappings for one dotted key. */
  method ChainMappings<V>(parts: Path, value: Tree<V>) returns (nested: Tree<V>)
    requires parts != []
    ensures nested == Single(parts, value)
  {
    var last := |parts| - 1;
    nested := Empty();
    for j := 0 to last
      invariant IsMapping(nested, parts[..j]) && At(nested, parts[..j]).value == Empty()
      invariant InsertAt(nested, parts, value) == InsertAt(Empty(), parts, value)
    {
      assert parts == parts[..j] + [parts[j]] + parts[j + 1..] && parts[..j] + [parts[j]] == parts[..j + 1];
      PutOnTheWay(nested, parts[..j], parts[j], parts[j + 1..], value);
      PutThere(nested, parts[..j], parts[j], Empty());
      nested := Put(nested, parts[..j], parts[j], Empty());
    }
    assert parts == parts[..last] + [parts[last]];
    PutIsInsert(nested, parts[..last], parts[last], value);
    SingleIsInsert(parts, value);
    nested := Put(nested, parts[..last], parts[last], value);
  }

  /** `expand_dotted_overrides`: chain one mapping per part, then merge the chain over the result. */
  method ExpandDottedOverrides<V>(overrides: seq<(string, Tree<V>)>) returns (r: Outcome<Tree<V>, DottedError>)
    ensures r == Expand(overrides)
  {
    var result := map[];
    for i := 0 to |overrides|
      invariant Expand(overrides[..i]) == Ok(Node(result))
    {
      var (key, value) := overrides[i];
      assert overrides[..i + 1][..i] == overrides[..i];
      if key == "" {
        ExpandFailsOnward(overrides, i + 1);
        return Fail(EmptyKey);
      }
      var parts := Split(key, ".");
      if "" in parts {
        ExpandFailsOnward(overrides, i + 1);
        return Fail(EmptySegment(key));
      }
      var nested := ChainMappings(parts, value);
      assert Single(parts, value).Node?;
      result := MergeMappings(result, nested.kids);
    }
    assert overrides[..|overrides|] == overrides;
    r := Ok(Node(result));
  }

  lemma {:induction false} ExpandFailsOnward<V>(items: seq<(string, Tree<V>)>, n: nat)
    requires n <= |items| && Expand(items[..n]).Fail?
    ensures Expand(items) == Expand(items[..n])
    decreases |items|
  {
    if n == |items| {
      assert items[..n] == items;
    } else {
      var front := items[..|items| - 1];
      assert front[..n] == items[..n];
      ExpandFailsOnward(front, n);
    }
  }
}
