/** `environment_overrides` as it runs: a moving cursor over mutable nested dictionaries. */
module SettingsHeap {
  import opened Ordering
  import opened ConfigTree
  import opened ConfigKeys
  import opened Environment
  import opened SortedEnvironment
  import opened ConfigIo

  datatype Entry<V> = Scalar(v: V) | Sub(dict: Dict<V>)

  class Dict<V> {
    var entries: map<string, Entry<V>>

    constructor ()
      ensures entries == map[]
    {
      entries := map[];
    }
  }

  // ---------- which tree a family of dictionaries stands for ----------

  /** The dictionary at each mapping path. */
  type Nodes<V> = map<Path, Dict<V>>

  type Contents<V> = map<Path, map<string, Entry<V>>>

  /** What a parent sees of a child: its scalar, or just that it is a mapping. */
  datatype Slot<V> = Value(v: V) | Mapping

  function SlotOf<V>(t: Tree<V>): Slot<V> {
    match t case Leaf(v) => Value(v) case Node(_) => Mapping
  }

  function SlotsAt<V>(t: Tree<V>, p: Path): map<string, Slot<V>>
    requires IsMapping(t, p)
  {
    var kids := At(t, p).value.kids;
    map k | k in kids :: SlotOf(kids[k])
  }

  ghost predicate Shows<V>(e: Entry<V>, slot: Slot<V>, at: Path, nodes: Nodes<V>) {
    match slot
    case Value(v) => e == Scalar(v)
    case Mapping => at in nodes && e == Sub(nodes[at])
  }

  ghost predicate ShowsAll<V>(entries: map<string, Entry<V>>, slots: map<string, Slot<V>>, p: Path, nodes: Nodes<V>) {
    entries.Keys == slots.Keys && forall k | k in slots :: Shows(entries[k], slots[k], p + [k], nodes)
  }

  ghost predicate Represents<V>(nodes: Nodes<V>, c: Contents<V>, t: Tree<V>) {
    && c.Keys == nodes.Keys
    && (forall p :: p in nodes <==> IsMapping(t, p))
    && (forall p | p in nodes :: ShowsAll(c[p], SlotsAt(t, p), p, nodes))
  }

  ghost predicate Unshared<V>(nodes: Nodes<V>) {
    forall p, q | p in nodes && q in nodes && p != q :: nodes[p] != nodes[q]
  }

  ghost function Read<V>(nodes: Nodes<V>): Contents<V>
    reads nodes.Values
  {
    map p | p in nodes :: nodes[p].entries
  }

  ghost predicate Holds<V>(nodes: Nodes<V>, t: Tree<V>)
    reads nodes.Values
  {
    Unshared(nodes) && Represents(nodes, Read(nodes), t)
  }

  // ---------- attaching a subtree ----------

  lemma {:induction false} PutMappings<V>(t: Tree<V>, p: Path, k: string, x: Tree<V>, q: Path)
    requires IsMapping(t, p) && k !in At(t, p).value.kids
    ensures var r := Put(t, p, k, x);
            IsMapping(r, q) <==> if p + [k] <= q then IsMapping(x, q[|p| + 1..]) else IsMapping(t, q)
    ensures var r := Put(t, p, k, x);
            IsMapping(r, q) ==>
              SlotsAt(r, q) ==
                if p + [k] <= q then SlotsAt(x, q[|p| + 1..])
                else if q == p then SlotsAt(t, p)[k := SlotOf(x)]
                else SlotsAt(t, q)
  {
    var r := Put(t, p, k, x);
    if q == [] {
    } else if p == [] {
      assert p + [k] == [k];
      if q[0] == k { assert q == [k] + q[1..]; }
    } else if q[0] == p[0] {
      PutMappings(t.kids[p[0]], p[1..], k, x, q[1..]);
      assert p == [p[0]] + p[1..] && q == [p[0]] + q[1..];
      assert (p + [k])[1..] == p[1..] + [k];
      assert p + [k] <= q <==> p[1..] + [k] <= q[1..];
      assert q == p <==> q[1..] == p[1..];
      if p + [k] <= q { assert q[1..][|p[1..]| + 1..] == q[|p| + 1..]; }
    } else {
      assert (p + [k])[0] == p[0];
    }
  }

  ghost function Graft<T>(m: map<Path, T>, at: Path, sub: map<Path, T>): map<Path, T> {
    map q | q in m.Keys + (set s | s in sub :: at + s) :: if q in m then m[q] else sub[q[|at|..]]
  }

  ghost predicate ClearBelow<T>(m: map<Path, T>, at: Path) { forall s :: at + s !in m }

  lemma GraftLookup<T>(m: map<Path, T>, at: Path, sub: map<Path, T>, q: Path)
    requires ClearBelow(m, at)
    ensures q in Graft(m, at, sub) <==> q in m || (at <= q && q[|at|..] in sub)
    ensures q in m ==> Graft(m, at, sub)[q] == m[q]
    ensures at <= q && q[|at|..] in sub ==> Graft(m, at, sub)[q] == sub[q[|at|..]]
  {
    if at <= q { assert q == at + q[|at|..]; }
    forall s ensures (at + s)[|at|..] == s { }
  }

  ghost predicate Attachable<V>(e: Entry<V>, x: Tree<V>, sub: Nodes<V>, c: Contents<V>) {
    if x.Leaf? then e == Scalar(x.v) && sub == map[] && c == map[]
    else [] in sub && e == Sub(sub[[]]) && Represents(sub, c, x)
  }

  lemma GraftKeys<V>(nodes: Nodes<V>, t: Tree<V>, p: Path, k: string)
    requires (forall q :: q in nodes <==> IsMapping(t, q)) && IsMapping(t, p) && k !in At(t, p).value.kids
    ensures ClearBelow(nodes, p + [k])
  {
    forall s ensures !IsMapping(t, (p + [k]) + s) {
      assert (p + [k]) + s == p + ([k] + s);
      AtAppend(t, p, [k] + s);
    }
  }

  lemma GraftRepresents<V>(nodes: Nodes<V>, c: Contents<V>, t: Tree<V>, p: Path, k: string,
                           e: Entry<V>, x: Tree<V>, sub: Nodes<V>, subc: Contents<V>)
    requires Represents(nodes, c, t) && p in nodes && k !in c[p]
    requires Attachable(e, x, sub, subc)
    ensures k !in At(t, p).value.kids
    ensures Represents(Graft(nodes, p + [k], sub), Graft(c, p + [k], subc)[p := c[p][k := e]], Put(t, p, k, x))
  {
    assert ShowsAll(c[p], SlotsAt(t, p), p, nodes);
    GraftKeys(nodes, t, p, k);
    var all, allc := Graft(nodes, p + [k], sub), Graft(c, p + [k], subc)[p := c[p][k := e]];
    forall q ensures RepresentsAt(all, allc, Put(t, p, k, x), q) {
      GraftEntry(nodes, c, t, p, k, e, x, sub, subc, q);
    }
    RepresentsEverywhere(all, allc, Put(t, p, k, x));
  }

  /** What a family must show at one path. */
  ghost predicate RepresentsAt<V>(nodes: Nodes<V>, c: Contents<V>, t: Tree<V>, q: Path) {
    (q in nodes <==> IsMapping(t, q)) && (q in nodes <==> q in c) &&
    (q in nodes ==> ShowsAll(c[q], SlotsAt(t, q), q, nodes))
  }

  lemma RepresentsEverywhere<V>(nodes: Nodes<V>, c: Contents<V>, t: Tree<V>)
    requires forall q :: RepresentsAt(nodes, c, t, q)
    ensures Represents(nodes, c, t)
  {
    forall q ensures q in nodes <==> q in c { assert RepresentsAt(nodes, c, t, q); }
    assert c.Keys == nodes.Keys;
    forall q ensures q in nodes <==> IsMapping(t, q) { assert RepresentsAt(nodes, c, t, q); }
    forall q | q in nodes ensures ShowsAll(c[q], SlotsAt(t, q), q, nodes) { assert RepresentsAt(nodes, c, t, q); }
  }

  /** Inside the attached subtree every dictionary shows what it showed before. */
  lemma GraftInside<V>(nodes: Nodes<V>, at: Path, sub: Nodes<V>, entries: map<string, Entry<V>>,
                       slots: map<string, Slot<V>>, s: Path)
    requires ClearBelow(nodes, at)
    requires ShowsAll(entries, slots, s, sub)
    ensures ShowsAll(entries, slots, at + s, Graft(nodes, at, sub))
  {
    var all := Graft(nodes, at, sub);
    forall j | j in slots ensures Shows(entries[j], slots[j], (at + s) + [j], all) {
      assert (at + s) + [j] == at + (s + [j]);
      assert (at + (s + [j]))[|at|..] == s + [j];
      GraftLookup(nodes, at, sub, at + (s + [j]));
      assert Shows(entries[j], slots[j], s + [j], sub);
    }
  }

  /** And so does every dictionary outside it. */
  lemma GraftOutside<V>(nodes: Nodes<V>, at: Path, sub: Nodes<V>, entries: map<string, Entry<V>>,
                        slots: map<string, Slot<V>>, q: Path)
    requires ClearBelow(nodes, at)
    requires ShowsAll(entries, slots, q, nodes)
    ensures ShowsAll(entries, slots, q, Graft(nodes, at, sub))
  {
    forall j | j in slots ensures Shows(entries[j], slots[j], q + [j], Graft(nodes, at, sub)) {
      GraftLookup(nodes, at, sub, q + [j]);
      assert Shows(entries[j], slots[j], q + [j], nodes);
    }
  }

  /** The parent shows the attached entry beside what it showed before. */
  lemma GraftParent<V>(all: Nodes<V>, entries: map<string, Entry<V>>, slots: map<string, Slot<V>>, p: Path, k: string,
                       e: Entry<V>, slot: Slot<V>)
    requires ShowsAll(entries, slots, p, all) && Shows(e, slot, p + [k], all)
    ensures ShowsAll(entries[k := e], slots[k := slot], p, all)
  {
  }

  lemma GraftBelow<V>(nodes: Nodes<V>, c: Contents<V>, t: Tree<V>, p: Path, k: string,
                      e: Entry<V>, x: Tree<V>, sub: Nodes<V>, subc: Contents<V>, q: Path)
    requires Represents(nodes, c, t) && p in nodes && k !in c[p] && k !in At(t, p).value.kids
    requires Attachable(e, x, sub, subc) && p + [k] <= q
    requires ClearBelow(nodes, p + [k])
    ensures RepresentsAt(Graft(nodes, p + [k], sub), Graft(c, p + [k], subc)[p := c[p][k := e]], Put(t, p, k, x), q)
  {
    var at := p + [k];
    var s := q[|at|..];
    assert q == at + s && q[|p| + 1..] == s && q != p && q !in nodes;
    GraftLookup(nodes, at, sub, q);
    GraftLookup(c, at, subc, q);
    PutMappings(t, p, k, x, q);
    if s in sub { GraftInside(nodes, at, sub, subc[s], SlotsAt(x, s), s); }
  }

  lemma GraftHere<V>(nodes: Nodes<V>, c: Contents<V>, t: Tree<V>, p: Path, k: string,
                     e: Entry<V>, x: Tree<V>, sub: Nodes<V>, subc: Contents<V>)
    requires Represents(nodes, c, t) && p in nodes && k !in c[p] && k !in At(t, p).value.kids
    requires Attachable(e, x, sub, subc)
    requires ClearBelow(nodes, p + [k])
    ensures RepresentsAt(Graft(nodes, p + [k], sub), Graft(c, p + [k], subc)[p := c[p][k := e]], Put(t, p, k, x), p)
  {
    var at := p + [k];
    var all := Graft(nodes, at, sub);
    assert !(at <= p) && at[|at|..] == [] && at + [] == at;
    PutMappings(t, p, k, x, p);
    GraftLookup(nodes, at, sub, p);
    GraftLookup(c, at, subc, p);
    GraftOutside(nodes, at, sub, c[p], SlotsAt(t, p), p);
    GraftLookup(nodes, at, sub, at);
    assert Shows(e, SlotOf(x), at, all);
    GraftParent(all, c[p], SlotsAt(t, p), p, k, e, SlotOf(x));
  }

  lemma GraftElsewhere<V>(nodes: Nodes<V>, c: Contents<V>, t: Tree<V>, p: Path, k: string,
                          e: Entry<V>, x: Tree<V>, sub: Nodes<V>, subc: Contents<V>, q: Path)
    requires Represents(nodes, c, t) && p in nodes && k !in c[p] && k !in At(t, p).value.kids
    requires Attachable(e, x, sub, subc) && q != p && !(p + [k] <= q)
    requires ClearBelow(nodes, p + [k])
    ensures RepresentsAt(Graft(nodes, p + [k], sub), Graft(c, p + [k], subc)[p := c[p][k := e]], Put(t, p, k, x), q)
  {
    var at := p + [k];
    PutMappings(t, p, k, x, q);
    GraftLookup(nodes, at, sub, q);
    GraftLookup(c, at, subc, q);
    if q in nodes { GraftOutside(nodes, at, sub, c[q], SlotsAt(t, q), q); }
  }

  lemma GraftEntry<V>(nodes: Nodes<V>, c: Contents<V>, t: Tree<V>, p: Path, k: string,
                      e: Entry<V>, x: Tree<V>, sub: Nodes<V>, subc: Contents<V>, q: Path)
    requires Represents(nodes, c, t) && p in nodes && k !in c[p] && k !in At(t, p).value.kids
    requires Attachable(e, x, sub, subc)
    requires ClearBelow(nodes, p + [k])
    ensures RepresentsAt(Graft(nodes, p + [k], sub), Graft(c, p + [k], subc)[p := c[p][k := e]], Put(t, p, k, x), q)
  {
    if p + [k] <= q {
      GraftBelow(nodes, c, t, p, k, e, x, sub, subc, q);
    } else if q == p {
      GraftHere(nodes, c, t, p, k, e, x, sub, subc);
    } else {
      GraftElsewhere(nodes, c, t, p, k, e, x, sub, subc, q);
    }
  }

  lemma ReadGraft<V>(nodes: Nodes<V>, at: Path, sub: Nodes<V>, p: Path,
                     c: Contents<V>, subc: Contents<V>, entries: map<string, Entry<V>>)
    requires p in nodes && c.Keys == nodes.Keys && subc == Read(sub)
    requires ClearBelow(nodes, at)
    requires forall q | q in nodes :: nodes[q].entries == if q == p then entries else c[q]
    ensures Read(Graft(nodes, at, sub)) == Graft(c, at, subc)[p := entries]
  {
    var all, allc := Graft(nodes, at, sub), Graft(c, at, subc)[p := entries];
    forall q ensures (q in all <==> q in allc) && (q in all ==> all[q].entries == allc[q]) {
      ReadGraftAt(nodes, at, sub, p, c, subc, entries, q);
    }
    SameContents(all, allc);
  }

  lemma SameContents<V>(all: Nodes<V>, allc: Contents<V>)
    requires forall q :: (q in all <==> q in allc) && (q in all ==> all[q].entries == allc[q])
    ensures Read(all) == allc
  {
  }

  lemma ReadGraftAt<V>(nodes: Nodes<V>, at: Path, sub: Nodes<V>, p: Path,
                       c: Contents<V>, subc: Contents<V>, entries: map<string, Entry<V>>, q: Path)
    requires p in nodes && c.Keys == nodes.Keys && subc == Read(sub)
    requires ClearBelow(nodes, at)
    requires forall q | q in nodes :: nodes[q].entries == if q == p then entries else c[q]
    ensures q in Graft(nodes, at, sub) <==> q in Graft(c, at, subc)[p := entries]
    ensures q in Graft(nodes, at, sub) ==> Graft(nodes, at, sub)[q].entries == Graft(c, at, subc)[p := entries][q]
  {
    GraftLookup(nodes, at, sub, q);
    GraftLookup(c, at, subc, q);
  }

  lemma GraftValues<V>(nodes: Nodes<V>, at: Path, sub: Nodes<V>)
    requires Unshared(nodes) && Unshared(sub) && nodes.Values !! sub.Values
    requires ClearBelow(nodes, at)
    ensures Graft(nodes, at, sub).Values == nodes.Values + sub.Values
    ensures Unshared(Graft(nodes, at, sub))
    ensures forall q | q in nodes :: q in Graft(nodes, at, sub) && Graft(nodes, at, sub)[q] == nodes[q]
  {
    var all := Graft(nodes, at, sub);
    forall q ensures q in all <==> q in nodes || (at <= q && q[|at|..] in sub) { GraftLookup(nodes, at, sub, q); }
    forall q | q in nodes ensures all[q] == nodes[q] { }
    forall s | s in sub ensures at + s in all && all[at + s] == sub[s] {
      GraftLookup(nodes, at, sub, at + s);
      assert (at + s)[|at|..] == s;
    }
    forall d | d in nodes.Values + sub.Values ensures d in all.Values {
      if d in nodes.Values { var q :| q in nodes && nodes[q] == d; assert all[q] == d; }
      else { var s :| s in sub && sub[s] == d; assert all[at + s] == d; }
    }
    forall q, r | q in all && r in all && q != r ensures all[q] != all[r] {
      if q !in nodes { assert q == at + q[|at|..] && all[q] == sub[q[|at|..]] && all[q] in sub.Values; }
      else { assert all[q] == nodes[q] && all[q] in nodes.Values; }
      if r !in nodes { assert r == at + r[|at|..] && all[r] == sub[r[|at|..]] && all[r] in sub.Values; }
      else { assert all[r] == nodes[r] && all[r] in nodes.Values; }
    }
  }

  /** The effect of a store, seen in the state after it. */
  lemma AfterStore<V>(nodes: Nodes<V>, c: Contents<V>, t: Tree<V>, p: Path, k: string,
                      e: Entry<V>, x: Tree<V>, sub: Nodes<V>) returns (all: Nodes<V>)
    requires Unshared(nodes) && Represents(nodes, c, t) && p in nodes && k !in c[p]
    requires Unshared(sub) && Attachable(e, x, sub, Read(sub)) && nodes.Values !! sub.Values
    requires forall q | q in nodes :: nodes[q].entries == if q == p then c[p][k := e] else c[q]
    ensures k !in At(t, p).value.kids
    ensures Holds(all, Put(t, p, k, x)) && all.Values == nodes.Values + sub.Values
    ensures forall q | q in nodes :: q in all && all[q] == nodes[q]
  {
    all := Graft(nodes, p + [k], sub);
    GraftRepresents(nodes, c, t, p, k, e, x, sub, Read(sub));
    GraftKeys(nodes, t, p, k);
    GraftValues(nodes, p + [k], sub);
    ReadGraft(nodes, p + [k], sub, p, c, Read(sub), c[p][k := e]);
  }

  /** `cursor[k] = e` on the dictionary at `p`, where `e` stands for the tree `x`. */
  method Store<V>(cursor: Dict<V>, k: string, e: Entry<V>, ghost nodes: Nodes<V>, ghost t: Tree<V>,
                  ghost p: Path, ghost x: Tree<V>, ghost sub: Nodes<V>) returns (ghost all: Nodes<V>)
    requires Holds(nodes, t) && p in nodes && nodes[p] == cursor && k !in cursor.entries
    requires Unshared(sub) && Attachable(e, x, sub, Read(sub)) && nodes.Values !! sub.Values
    modifies cursor
    ensures cursor.entries == old(cursor.entries)[k := e]
    ensures k !in At(t, p).value.kids
    ensures Holds(all, Put(t, p, k, x)) && all.Values == nodes.Values + sub.Values
    ensures forall q | q in nodes :: q in all && all[q] == nodes[q]
  {
    ghost var c, subc := Read(nodes), Read(sub);
    assert cursor in nodes.Values && cursor !in sub.Values;
    cursor.entries := cursor.entries[k := e];
    assert Read(sub) == subc;
    all := AfterStore(nodes, c, t, p, k, e, x, sub);
  }

  // ---------- fresh dictionaries for parsed values ----------

  method EmptyDict<V>() returns (d: Dict<V>, ghost nodes: Nodes<V>)
    ensures fresh(d) && nodes == map[[] := d] && d.entries == map[] && nodes.Values == {d}
    ensures Holds(nodes, Empty())
  {
    d := new Dict();
    nodes := map[[] := d];
    assert nodes[[]] == d;
    forall p ensures p in nodes <==> IsMapping(Empty<V>(), p) { }
  }

  /** The part of a mapping whose keys are no longer to do. */
  ghost function Finished<V>(kids: map<string, Tree<V>>, todo: set<string>): map<string, Tree<V>> {
    map k | k in kids && k !in todo :: kids[k]
  }

  lemma FinishKey<V>(kids: map<string, Tree<V>>, todo: set<string>, k: string)
    requires k in todo && k in kids
    ensures k !in Finished(kids, todo)
    ensures Finished(kids, todo - {k}) == Finished(kids, todo)[k := kids[k]]
  {
  }

  /** The dictionaries `json.loads` makes for an object. */
  method BuildDict<V>(kids: map<string, Tree<V>>) returns (d: Dict<V>, ghost nodes: Nodes<V>)
    ensures fresh(nodes.Values) && [] in nodes && nodes[[]] == d && Holds(nodes, Node(kids))
    decreases Node(kids), 1
  {
    d, nodes := EmptyDict();
    var todo := kids.Keys;
    assert Finished(kids, todo) == map[];
    while todo != {}
      invariant todo <= kids.Keys
      invariant fresh(nodes.Values) && [] in nodes && nodes[[]] == d
      invariant Holds(nodes, Node(Finished(kids, todo)))
      decreases todo
    {
      var k :| k in todo;
      FinishKey(kids, todo, k);
      nodes := StoreValue(d, k, kids[k], nodes, Node(Finished(kids, todo)), []);
      assert At(Node(Finished(kids, todo)), []) == Some(Node(Finished(kids, todo)));
      todo := todo - {k};
    }
    assert Finished(kids, todo) == kids;
  }

  /** `d[k] = value` for a fresh key: build what the value needs, then store it. */
  method StoreValue<V>(d: Dict<V>, k: string, x: Tree<V>, ghost nodes: Nodes<V>, ghost t: Tree<V>, ghost p: Path)
    returns (ghost all: Nodes<V>)
    requires Holds(nodes, t) && p in nodes && nodes[p] == d && k !in d.entries
    modifies d
    ensures fresh(all.Values - nodes.Values) && forall q | q in nodes :: q in all && all[q] == nodes[q]
    ensures k !in At(t, p).value.kids && Holds(all, Put(t, p, k, x))
    decreases x, 2
  {
    match x
    case Leaf(v) =>
      all := Store(d, k, Scalar(v), nodes, t, p, x, map[]);
    case Node(inner) =>
      var child, sub := BuildDict(inner);
      all := Store(d, k, Sub(child), nodes, t, p, x, sub);
  }

  lemma RootKeys<V>(nodes: Nodes<V>, t: Tree<V>, p: Path)
    requires Holds(nodes, t) && p in nodes
    ensures IsMapping(t, p) && nodes[p].entries.Keys == At(t, p).value.kids.Keys
    ensures forall k | k in nodes[p].entries ::
              match At(t, p).value.kids[k]
              case Leaf(v) => nodes[p].entries[k] == Scalar(v)
              case Node(_) => p + [k] in nodes && nodes[p].entries[k] == Sub(nodes[p + [k]])
  {
    assert ShowsAll(Read(nodes)[p], SlotsAt(t, p), p, nodes);
    forall k | k in nodes[p].entries
      ensures Shows(nodes[p].entries[k], SlotOf(At(t, p).value.kids[k]), p + [k], nodes)
    {
      assert SlotsAt(t, p)[k] == SlotOf(At(t, p).value.kids[k]);
    }
  }

  // ---------- one variable: walk the cursor down, then assign ----------

  /** One step of the cursor: `existing = cursor.setdefault(part, {})`. */
  method SetDefault<V>(cursor: Dict<V>, part: string, ghost nodes: Nodes<V>, ghost t: Tree<V>, ghost p: Path)
    returns (existing: Entry<V>, ghost all: Nodes<V>, ghost t': Tree<V>)
    requires Holds(nodes, t) && p in nodes && nodes[p] == cursor
    modifies cursor
    ensures fresh(all.Values - nodes.Values) && Holds(all, t')
    ensures forall q | q in nodes :: q in all && all[q] == nodes[q]
    ensures IsMapping(t, p) &&
            t' == if part in At(t, p).value.kids then t else Put(t, p, part, Empty())
    ensures match existing
            case Scalar(v) => IsScalar(t', p + [part])
            case Sub(d) => p + [part] in all && all[p + [part]] == d
  {
    RootKeys(nodes, t, p);
    all, t' := nodes, t;
    if part !in cursor.entries {
      all := StoreValue(cursor, part, Empty(), nodes, t, p);
      PutThere(t, p, part, Empty());
      t' := Put(t, p, part, Empty());
    }
    RootKeys(all, t', p);
    PathDown(t', p, part);
    existing := cursor.entries[part];
  }

  lemma PathDown<V>(t: Tree<V>, p: Path, k: string)
    requires IsMapping(t, p)
    ensures At(t, p + [k]) == if k in At(t, p).value.kids then Some(At(t, p).value.kids[k]) else None
  {
    AtAppend(t, p, [k]);
    var kids := At(t, p).value.kids;
    assert k in kids ==> At(kids[k], []) == Some(kids[k]);
    assert [k][1..] == [];
  }

  lemma PrefixSnoc(parts: Path, i: nat)
    requires i < |parts|
    ensures parts[..i + 1] == parts[..i] + [parts[i]]
  {
  }

  lemma SameInsertion<V>(t: Tree<V>, t': Tree<V>, parts: Path, i: nat, x: Tree<V>)
    requires i + 1 < |parts| && IsMapping(t, parts[..i])
    requires t' == if parts[i] in At(t, parts[..i]).value.kids then t else Put(t, parts[..i], parts[i], Empty())
    ensures InsertAt(t', parts, x) == InsertAt(t, parts, x)
  {
    if parts[i] !in At(t, parts[..i]).value.kids {
      assert parts == parts[..i] + [parts[i]] + parts[i + 1..];
      PutOnTheWay(t, parts[..i], parts[i], parts[i + 1..], x);
    }
  }

  lemma ScalarRefuses<V>(t: Tree<V>, parts: Path, i: nat, x: Tree<V>)
    requires i < |parts| && IsScalar(t, parts[..i])
    ensures InsertAt(t, parts, x) == Fail(ScalarParent)
  {
    InsertIsMerge(t, parts, x);
    OccupiedMeans(t, parts);
  }

  /** The same step seen from the path being inserted: it moves on, or meets a scalar. */
  method Descend<V>(cursor: Dict<V>, parts: Path, i: nat, ghost x: Tree<V>, ghost nodes: Nodes<V>, ghost t: Tree<V>)
    returns (next: Option<Dict<V>>, ghost all: Nodes<V>, ghost t': Tree<V>)
    requires i + 1 < |parts| && Holds(nodes, t) && parts[..i] in nodes && nodes[parts[..i]] == cursor
    modifies cursor
    ensures fresh(all.Values - nodes.Values) && Holds(all, t')
    ensures forall q | q in nodes :: q in all && all[q] == nodes[q]
    ensures InsertAt(t', parts, x) == InsertAt(t, parts, x)
    ensures match next
            case None => InsertAt(t', parts, x) == Fail(ScalarParent)
            case Some(d) => parts[..i + 1] in all && all[parts[..i + 1]] == d
  {
    var existing;
    existing, all, t' := SetDefault(cursor, parts[i], nodes, t, parts[..i]);
    PrefixSnoc(parts, i);
    SameInsertion(t, t', parts, i, x);
    match existing
    case Scalar(_) =>
      ScalarRefuses(t', parts, i + 1, x);
      next := None;
    case Sub(d) =>
      next := Some(d);
  }

  /** The assignment at the end of the walk. */
  method Assign<V>(cursor: Dict<V>, parts: Path, x: Tree<V>, ghost nodes: Nodes<V>, ghost t: Tree<V>)
    returns (conflict: Option<Conflict>, ghost all: Nodes<V>)
    requires parts != [] && Holds(nodes, t)
    requires parts[..|parts| - 1] in nodes && nodes[parts[..|parts| - 1]] == cursor
    modifies cursor
    ensures fresh(all.Values - nodes.Values)
    ensures forall q | q in nodes :: q in all && all[q] == nodes[q]
    ensures match InsertAt(t, parts, x)
            case Ok(t') => conflict.None? && Holds(all, t')
            case Fail(e) => conflict == Some(e)
  {
    var last := |parts| - 1;
    assert parts == parts[..last] + [parts[last]];
    RootKeys(nodes, t, parts[..last]);
    PathDown(t, parts[..last], parts[last]);
    all := nodes;
    if parts[last] in cursor.entries {
      InsertIsMerge(t, parts, x);
      return Some(Duplicate), all;
    }
    PutIsInsert(t, parts[..last], parts[last], x);
    all := StoreValue(cursor, parts[last], x, nodes, t, parts[..last]);
    conflict := None;
  }

  /** The body of the loop for a selected, well-named variable. */
  method InsertVariable<V>(root: Dict<V>, parts: Path, x: Tree<V>, ghost nodes: Nodes<V>, ghost t: Tree<V>)
    returns (conflict: Option<Conflict>, ghost all: Nodes<V>)
    requires parts != [] && Holds(nodes, t) && [] in nodes && nodes[[]] == root
    modifies nodes.Values
    ensures fresh(all.Values - nodes.Values) && [] in all && all[[]] == root
    ensures match InsertAt(t, parts, x)
            case Ok(t') => conflict.None? && Holds(all, t')
            case Fail(e) => conflict == Some(e)
  {
    var cursor := root;
    ghost var now := t;
    all := nodes;
    for i := 0 to |parts| - 1
      invariant Holds(all, now) && [] in all && all[[]] == root
      invariant parts[..i] in all && all[parts[..i]] == cursor
      invariant fresh(all.Values - nodes.Values)
      invariant InsertAt(now, parts, x) == InsertAt(t, parts, x)
    {
      var next;
      next, all, now := Descend(cursor, parts, i, x, all, now);
      match next {
        case None => return Some(ScalarParent), all;
        case Some(d) => cursor := d;
      }
    }
    conflict, all := Assign(cursor, parts, x, all, now);
  }

  // ---------- all variables ----------

  lemma {:induction false} SettleStops<V>(environ: seq<(string, string)>, n: nat, parse: string -> Tree<V>)
    requires n <= |environ| && Settle(environ[..n], parse).Fail?
    ensures Settle(environ, parse) == Settle(environ[..n], parse)
    decreases |environ|
  {
    if n == |environ| {
      assert environ[..n] == environ;
    } else {
      var front := environ[..|environ| - 1];
      assert front[..n] == environ[..n];
      SettleStops(front, n, parse);
    }
  }

  /** One turn of the loop over the sorted items. */
  method TakeVariable<V>(root: Dict<V>, name: string, value: Tree<V>, ghost nodes: Nodes<V>, ghost t: Tree<V>)
    returns (error: Option<EnvError>, ghost all: Nodes<V>)
    requires Holds(nodes, t) && [] in nodes && nodes[[]] == root
    modifies nodes.Values
    ensures fresh(all.Values - nodes.Values) && [] in all && all[[]] == root
    ensures match SettleOne(t, name, value)
            case Ok(t') => error.None? && Holds(all, t')
            case Fail(e) => error == Some(e)
  {
    all := nodes;
    if !Selected(name) { return None, all; }
    var parts := EnvPath(name);
    if "" in parts { return Some(InvalidName(name)), all; }
    var conflict;
    conflict, all := InsertVariable(root, parts, value, nodes, t);
    error := match conflict case None => None case Some(e) => Some(Conflicting(e, name));
  }

  lemma SettleNext<V>(items: seq<(string, string)>, i: nat, parse: string -> Tree<V>, t: Tree<V>)
    requires i < |items| && Settle(items[..i], parse) == Ok(t)
    ensures Settle(items[..i + 1], parse) == SettleOne(t, items[i].0, parse(items[i].1))
  {
    var s := items[..i + 1];
    assert |s| == i + 1 && s[..|s| - 1] == items[..i] && s[|s| - 1] == items[i];
  }

  method OverridesInOrder<V>(items: seq<(string, string)>, parse: string -> Tree<V>)
    returns (r: Outcome<Dict<V>, EnvError>, ghost nodes: Nodes<V>)
    ensures match Settle(items, parse)
            case Ok(t) => r.Ok? && [] in nodes && nodes[[]] == r.value && fresh(nodes.Values) && Holds(nodes, t)
            case Fail(e) => r == Fail(e)
  {
    ghost var t := Empty();
    var result;
    result, nodes := EmptyDict();
    for i := 0 to |items|
      invariant Settle(items[..i], parse) == Ok(t) && Holds(nodes, t)
      invariant fresh(nodes.Values) && [] in nodes && nodes[[]] == result
    {
      SettleNext(items, i, parse, t);
      var error;
      error, nodes := TakeVariable(result, items[i].0, parse(items[i].1), nodes, t);
      if error.Some? {
        SettleStops(items, i + 1, parse);
        return Fail(error.value), nodes;
      }
      t := SettleOne(t, items[i].0, parse(items[i].1)).value;
    }
    assert items[..|items|] == items;
    r := Ok(result);
  }

  /** `environment_overrides`: it succeeds exactly when no part of a selected name is empty and no name is in
      the way of a later one. The nested dictionaries it leaves then stand for a tree that holds under every
      path exactly what a variable's value holds there; otherwise some name is refused by the tree of the
      names before it. */
  method EnvironmentOverrides<V(!new)>(environ: map<string, string>, parse: string -> Tree<V>)
    returns (r: Outcome<Dict<V>, EnvError>, ghost nodes: Nodes<V>)
    ensures r.Ok? <==> Settled(environ, parse)
    ensures r.Ok? ==> [] in nodes && nodes[[]] == r.value && fresh(nodes.Values) &&
                      exists t :: Holds(nodes, t) && HoldsSettings(environ, parse, t)
    ensures r.Fail? ==> exists n, t :: n in environ && Selected(n) && Settled(Before(environ, n), parse) &&
                          HoldsSettings(Before(environ, n), parse, t) && RefusedBy(t, n, r.error)
  {
    StrLessTotal();
    var names := SortedListing(StrLess, environ.Keys);
    assert forall n | n in names :: n in Elements(names);
    SameNames(environ, names);
    r, nodes := OverridesInOrder(ItemsOf(environ, names), parse);
    EnvironmentMeaning(environ, parse);
    if r.Fail? { EnvironmentRefusal(environ, parse); }
  }

  lemma SameNames(environ: map<string, string>, names: seq<string>)
    requires Increasing(StrLess, names) && Elements(names) == environ.Keys
    ensures names == SortedNames(environ)
  {
    StrLessTotal();
    assert Elements(SortedNames(environ)) == environ.Keys;
    IncreasingUnique(StrLess, names, SortedNames(environ));
  }

  /** A family of dictionaries stands for one tree only. */
  lemma {:induction false} OneTree<V>(nodes: Nodes<V>, c: Contents<V>, s: Tree<V>, t: Tree<V>)
    requires Represents(nodes, c, s) && Represents(nodes, c, t) && s.Node? && t.Node?
    ensures s == t
  {
    SameTreeAt(nodes, c, s, t, [], s, t);
  }

  lemma {:induction false} SameTreeAt<V>(nodes: Nodes<V>, c: Contents<V>, s: Tree<V>, t: Tree<V>, p: Path,
                                         x: Tree<V>, y: Tree<V>)
    requires Represents(nodes, c, s) && Represents(nodes, c, t)
    requires At(s, p) == Some(x) && At(t, p) == Some(y) && x.Node? && y.Node?
    ensures x == y
    decreases x
  {
    assert p in nodes;
    assert ShowsAll(c[p], SlotsAt(s, p), p, nodes) && ShowsAll(c[p], SlotsAt(t, p), p, nodes);
    assert x.kids.Keys == SlotsAt(s, p).Keys == y.kids.Keys;
    forall k | k in x.kids ensures x.kids[k] == y.kids[k] {
      PathDown(s, p, k);
      PathDown(t, p, k);
      assert Shows(c[p][k], SlotsAt(s, p)[k], p + [k], nodes) && Shows(c[p][k], SlotsAt(t, p)[k], p + [k], nodes);
      if x.kids[k].Node? { SameTreeAt(nodes, c, s, t, p + [k], x.kids[k], y.kids[k]); }
    }
    assert x.kids == y.kids;
  }
}
