/** What a scan adds up: the sum over the distinct objects below its roots, whatever the order of the listings and
    whatever cycles there are (vfs/scanner.go). */
module ScanTotals {
  import opened Base
  import opened Scanner

  /** An object a scan can come to: what it adds, and the objects directly below it. */
  datatype Object = Object(stats: Stats, children: set<Key>)

  type Graph = map<Key, Object>

  function ChildKeys(w: World, o: Options, dir: Path, items: seq<Item>): set<Key> {
    set i | 0 <= i < |items| :: KeyOf(w, o, dir + [items[i].name], items[i])
  }

  predicate NamesApart(items: seq<Item>) {
    forall i, j :: 0 <= i < j < |items| ==> items[i].name != items[j].name
  }

  /** The graph describes what a scan finds from an entry on: entries with one key add the same and have the same
      objects below them. */
  ghost predicate Fits(w: World, o: Options, g: Graph, path: Path, item: Item, depth: nat)
    decreases MAX_DEPTH - depth, 2
  {
    depth <= MAX_DEPTH ==>
      var key := KeyOf(w, o, path, item);
      && key in g && g[key].stats == StatsOf(w, o, path, item, depth)
      && if GoesInto(o, item, depth) then
           var items := Children(w, path);
           && NamesApart(items) && g[key].children == ChildKeys(w, o, path, items)
           && FitsAll(w, o, g, path, items, depth + 1)
         else g[key].children == {}
  }

  ghost predicate FitsAll(w: World, o: Options, g: Graph, dir: Path, items: seq<Item>, depth: nat)
    requires depth <= MAX_DEPTH + 1
    decreases MAX_DEPTH + 1 - depth, 1
  {
    forall i :: 0 <= i < |items| ==> Fits(w, o, g, dir + [items[i].name], items[i], depth)
  }

  // ----- sums over sets of objects

  ghost function SumOver(g: Graph, keys: set<Key>): Stats
    requires keys <= g.Keys
  {
    if keys == {} then NOTHING
    else
      var k :| k in keys;
      Add(g[k].stats, SumOver(g, keys - {k}))
  }

  lemma AddLaws(a: Stats, b: Stats, c: Stats)
    ensures Add(a, Add(b, c)) == Add(b, Add(a, c)) && Add(Add(a, b), c) == Add(a, Add(b, c))
    ensures Add(a, b) == Add(b, a) && Add(a, NOTHING) == a
  {
  }

  lemma SumPicked(g: Graph, keys: set<Key>) returns (k: Key)
    requires keys <= g.Keys && keys != {}
    ensures k in keys && SumOver(g, keys) == Add(g[k].stats, SumOver(g, keys - {k}))
  {
    k :| k in keys && SumOver(g, keys) == Add(g[k].stats, SumOver(g, keys - {k}));
  }

  lemma {:induction false} SumInsert(g: Graph, keys: set<Key>, k: Key)
    requires keys <= g.Keys && k in g && k !in keys
    ensures SumOver(g, keys + {k}) == Add(g[k].stats, SumOver(g, keys))
    decreases keys
  {
    var c := SumPicked(g, keys + {k});
    if c == k {
      assert keys + {k} - {c} == keys;
    } else {
      var rest := keys - {c};
      assert keys + {k} - {c} == rest + {k} && rest + {c} == keys;
      SumInsert(g, rest, k);
      SumInsert(g, rest, c);
      AddLaws(g[c].stats, g[k].stats, SumOver(g, rest));
    }
  }

  lemma {:induction false} SumUnion(g: Graph, a: set<Key>, b: set<Key>)
    requires a <= g.Keys && b <= g.Keys && a !! b
    ensures SumOver(g, a + b) == Add(SumOver(g, a), SumOver(g, b))
    decreases b
  {
    if b == {} {
      assert a + b == a;
      AddLaws(SumOver(g, a), NOTHING, NOTHING);
    } else {
      var k := SumPicked(g, b);
      var rest := b - {k};
      assert a + rest + {k} == a + b;
      SumUnion(g, a, rest);
      SumInsert(g, a + rest, k);
      AddLaws(g[k].stats, SumOver(g, a), SumOver(g, rest));
    }
  }

  // ----- reachability

  /** A way down the graph from one of the given objects. */
  predicate IsTrail(g: Graph, from: set<Key>, trail: seq<Key>) {
    && trail != [] && trail[0] in from
    && forall i :: 0 <= i < |trail| - 1 ==> trail[i] in g && trail[i + 1] in g[trail[i]].children
  }

  ghost predicate Reaches(g: Graph, from: set<Key>, k: Key) {
    exists trail :: IsTrail(g, from, trail) && trail[|trail| - 1] == k
  }

  lemma ReachesFrom(g: Graph, from: set<Key>, k: Key)
    requires k in from
    ensures Reaches(g, from, k)
  {
    assert IsTrail(g, from, [k]);
  }

  lemma ReachesMore(g: Graph, from: set<Key>, more: set<Key>, k: Key)
    requires Reaches(g, from, k) && from <= more
    ensures Reaches(g, more, k)
  {
    var trail :| IsTrail(g, from, trail) && trail[|trail| - 1] == k;
    assert IsTrail(g, more, trail);
  }

  lemma ReachesBelow(g: Graph, top: Key, k: Key)
    requires top in g && Reaches(g, g[top].children, k)
    ensures Reaches(g, {top}, k)
  {
    var trail :| IsTrail(g, g[top].children, trail) && trail[|trail| - 1] == k;
    assert IsTrail(g, {top}, [top] + trail);
  }

  /** A set that holds the start and, with every object, the objects below it, holds all that can be reached. */
  lemma {:induction false} ClosedReaches(g: Graph, from: set<Key>, closed: set<Key>, trail: seq<Key>)
    requires from <= closed <= g.Keys && forall k :: k in closed ==> g[k].children <= closed
    requires IsTrail(g, from, trail)
    ensures trail[|trail| - 1] in closed
    decreases |trail|
  {
    if |trail| > 1 {
      var before := trail[..|trail| - 1];
      ClosedReaches(g, from, closed, before);
      assert trail[|trail| - 2] == before[|before| - 1];
      assert trail[|trail| - 2 + 1] in g[trail[|trail| - 2]].children;
    }
  }

  // ----- one part of a walk

  predicate AreSeen(t: Totals) {
    (forall id :: id in t.seen ==> Known(id) in t.visited)
    && forall k :: k in t.visited && k.Known? ==> k.identity in t.seen
  }

  /** From s to t, the objects counted in between were added once each. */
  ghost predicate IsPart(g: Graph, s: Totals, t: Totals) {
    && AreSeen(s) && AreSeen(t) && s.visited <= t.visited <= g.Keys
    && t.stats == Add(s.stats, SumOver(g, t.visited - s.visited))
  }

  /** Everything counted in between that goes by a path is at or below the given one. */
  predicate StaysBelow(path: Path, s: Totals, t: Totals) {
    forall k :: k in t.visited - s.visited && k.ByPath? ==> path <= k.path
  }

  predicate IsClosed(g: Graph, s: Totals, t: Totals) {
    forall k :: k in t.visited - s.visited && k in g ==> g[k].children <= t.visited
  }

  ghost predicate ComesFrom(g: Graph, from: set<Key>, s: Totals, t: Totals) {
    forall k :: k in t.visited - s.visited ==> Reaches(g, from, k)
  }

  predicate IsFresh(path: Path, t: Totals) {
    forall k :: k in t.visited && k.ByPath? ==> !(path <= k.path)
  }

  lemma PartSame(g: Graph, s: Totals)
    requires AreSeen(s) && s.visited <= g.Keys
    ensures IsPart(g, s, s)
  {
    assert s.visited - s.visited == {};
  }

  lemma PartCount(g: Graph, s: Totals, key: Key)
    requires AreSeen(s) && s.visited <= g.Keys && key in g && key !in s.visited
    ensures IsPart(g, s, Count(s, key, g[key].stats))
    ensures Count(s, key, g[key].stats).visited - s.visited == {key}
  {
    SumInsert(g, {}, key);
    assert {} + {key} == {key};
    assert Count(s, key, g[key].stats).visited - s.visited == {key};
  }

  lemma SetsBetween(s: set<Key>, m: set<Key>, t: set<Key>)
    requires s <= m <= t
    ensures t - s == (m - s) + (t - m) && (m - s) !! (t - m)
  {
  }

  lemma PartJoined(g: Graph, s: Totals, m: Totals, t: Totals)
    requires IsPart(g, s, m) && IsPart(g, m, t)
    ensures IsPart(g, s, t)
    ensures t.visited - s.visited == (m.visited - s.visited) + (t.visited - m.visited)
  {
    SetsBetween(s.visited, m.visited, t.visited);
    SumUnion(g, m.visited - s.visited, t.visited - m.visited);
    AddLaws(s.stats, SumOver(g, m.visited - s.visited), SumOver(g, t.visited - m.visited));
  }

  /** What a part of a walk does that starts at the given objects, all of them below dir. */
  ghost predicate IsWalk(g: Graph, from: set<Key>, dir: Path, s: Totals, t: Totals, outcome: Outcome) {
    && IsPart(g, s, t) && StaysBelow(dir, s, t) && ComesFrom(g, from, s, t)
    && (outcome == Complete ==> from <= t.visited && IsClosed(g, s, t))
  }

  lemma ScanWalks(w: World, o: Options, g: Graph, path: Path, item: Item, depth: nat, s: Totals)
    requires Fits(w, o, g, path, item, depth) && AreSeen(s) && s.visited <= g.Keys && IsFresh(path, s)
    ensures var (t, outcome) := Scan(w, o, path, item, depth, s);
            IsWalk(g, {KeyOf(w, o, path, item)}, path, s, t, outcome)
    decreases MAX_DEPTH - depth, 2, 0
  {
    var key := KeyOf(w, o, path, item);
    if depth > MAX_DEPTH || key in s.visited {
      PartSame(g, s);
    } else if GoesInto(o, item, depth) {
      var items := Children(w, path);
      var m := Count(s, key, g[key].stats);
      PartCount(g, s, key);
      FreshBelow(path, s, m, items);
      ScanAllWalks(w, o, g, path, items, depth + 1, m);
      var (t, outcome) := ScanAll(w, o, path, items, depth + 1, m);
      EntryThenBelow(g, path, key, s, m, t, outcome);
    } else {
      LeafWalks(g, path, key, s);
    }
  }

  lemma LeafWalks(g: Graph, path: Path, key: Key, s: Totals)
    requires key in g && key !in s.visited && AreSeen(s) && s.visited <= g.Keys
    requires g[key].children == {} && (key.ByPath? ==> key.path == path)
    ensures IsWalk(g, {key}, path, s, Count(s, key, g[key].stats), Complete)
  {
    PartCount(g, s, key);
    ReachesFrom(g, {key}, key);
  }

  lemma BelowName(dir: Path, name: string, q: Path)
    requires dir + [name] <= q
    ensures dir < q && q[|dir|] == name
  {
    assert (dir + [name])[..|dir|] == q[..|dir|];
    assert (dir + [name])[|dir|] == q[|dir|];
  }

  /** Below a fresh path everything is fresh, also once the path itself is counted. */
  lemma FreshBelow(path: Path, s: Totals, m: Totals, items: seq<Item>)
    requires IsFresh(path, s) && forall k :: k in m.visited && k.ByPath? ==> k in s.visited || k.path == path
    ensures forall i :: 0 <= i < |items| ==> IsFresh(path + [items[i].name], m)
  {
    forall i, k | 0 <= i < |items| && k in m.visited && k.ByPath?
      ensures !(path + [items[i].name] <= k.path)
    {
      if path + [items[i].name] <= k.path {
        BelowName(path, items[i].name, k.path);
      }
    }
  }

  lemma EntryThenBelow(g: Graph, path: Path, key: Key, s: Totals, m: Totals, t: Totals, outcome: Outcome)
    requires key in g && IsPart(g, s, m) && m.visited - s.visited == {key} && (key.ByPath? ==> key.path == path)
    requires IsWalk(g, g[key].children, path, m, t, outcome)
    ensures IsWalk(g, {key}, path, s, t, outcome)
  {
    PartJoined(g, s, m, t);
    forall k | k in t.visited - s.visited
      ensures Reaches(g, {key}, k)
    {
      if k in t.visited - m.visited {
        ReachesBelow(g, key, k);
      } else {
        ReachesFrom(g, {key}, key);
      }
    }
  }

  lemma {:induction false} ScanAllWalks(w: World, o: Options, g: Graph, dir: Path, items: seq<Item>, depth: nat,
                                        s: Totals)
    requires depth <= MAX_DEPTH + 1 && FitsAll(w, o, g, dir, items, depth) && NamesApart(items)
    requires AreSeen(s) && s.visited <= g.Keys
    requires forall i :: 0 <= i < |items| ==> IsFresh(dir + [items[i].name], s)
    ensures var (t, outcome) := ScanAll(w, o, dir, items, depth, s);
            IsWalk(g, ChildKeys(w, o, dir, items), dir, s, t, outcome)
    decreases MAX_DEPTH + 1 - depth, 1, |items|
  {
    if items == [] {
      PartSame(g, s);
    } else {
      var first := dir + [items[0].name];
      var key := KeyOf(w, o, first, items[0]);
      ScanWalks(w, o, g, first, items[0], depth, s);
      var (m, outcome) := Scan(w, o, first, items[0], depth, s);
      ChildKeysCons(w, o, dir, items);
      if outcome == Complete {
        RestReady(w, o, g, dir, items, depth, s, m);
        ScanAllWalks(w, o, g, dir, items[1..], depth, m);
        var (t, last) := ScanAll(w, o, dir, items[1..], depth, m);
        WalksJoined(g, dir, first, key, ChildKeys(w, o, dir, items[1..]), s, m, t, last);
      } else {
        WalkWider(g, dir, first, {key}, ChildKeys(w, o, dir, items), s, m, outcome);
      }
    }
  }

  lemma RestReady(w: World, o: Options, g: Graph, dir: Path, items: seq<Item>, depth: nat, s: Totals, m: Totals)
    requires depth <= MAX_DEPTH + 1 && FitsAll(w, o, g, dir, items, depth) && items != [] && NamesApart(items)
    requires StaysBelow(dir + [items[0].name], s, m)
    requires forall i :: 0 <= i < |items| ==> IsFresh(dir + [items[i].name], s)
    ensures FitsAll(w, o, g, dir, items[1..], depth) && NamesApart(items[1..])
    ensures forall i :: 0 <= i < |items[1..]| ==> IsFresh(dir + [items[1..][i].name], m)
  {
    OthersFresh(dir, items, s, m);
    FitsRest(w, o, g, dir, items, depth);
  }

  lemma FitsRest(w: World, o: Options, g: Graph, dir: Path, items: seq<Item>, depth: nat)
    requires depth <= MAX_DEPTH + 1 && FitsAll(w, o, g, dir, items, depth) && items != []
    ensures FitsAll(w, o, g, dir, items[1..], depth)
  {
    forall i | 0 <= i < |items[1..]|
      ensures Fits(w, o, g, dir + [items[1..][i].name], items[1..][i], depth)
    {
      assert items[1..][i] == items[i + 1];
    }
  }

  lemma ChildKeysCons(w: World, o: Options, dir: Path, items: seq<Item>)
    requires items != []
    ensures ChildKeys(w, o, dir, items)
         == {KeyOf(w, o, dir + [items[0].name], items[0])} + ChildKeys(w, o, dir, items[1..])
  {
    var all, rest := ChildKeys(w, o, dir, items), ChildKeys(w, o, dir, items[1..]);
    forall i | 0 <= i < |items|
      ensures KeyOf(w, o, dir + [items[i].name], items[i]) in {KeyOf(w, o, dir + [items[0].name], items[0])} + rest
    {
      if i > 0 {
        assert items[1..][i - 1] == items[i];
      }
    }
    forall i | 0 <= i < |items[1..]|
      ensures KeyOf(w, o, dir + [items[1..][i].name], items[1..][i]) in all
    {
      assert items[1..][i] == items[i + 1];
    }
  }

  /** Entries of other names stay fresh while one is walked. */
  lemma OthersFresh(dir: Path, items: seq<Item>, s: Totals, m: Totals)
    requires items != [] && NamesApart(items) && StaysBelow(dir + [items[0].name], s, m)
    requires forall i :: 0 <= i < |items| ==> IsFresh(dir + [items[i].name], s)
    ensures forall i :: 0 <= i < |items[1..]| ==> IsFresh(dir + [items[1..][i].name], m)
  {
    forall i | 0 <= i < |items[1..]|
      ensures IsFresh(dir + [items[1..][i].name], m)
    {
      assert items[1..][i] == items[i + 1];
      OtherFresh(dir, items[0].name, items[i + 1].name, s, m);
    }
  }

  lemma OtherFresh(dir: Path, walked: string, other: string, s: Totals, m: Totals)
    requires walked != other && StaysBelow(dir + [walked], s, m) && IsFresh(dir + [other], s)
    ensures IsFresh(dir + [other], m)
  {
    forall k | k in m.visited && k.ByPath?
      ensures !(dir + [other] <= k.path)
    {
      if dir + [walked] <= k.path {
        BelowName(dir, walked, k.path);
        if dir + [other] <= k.path {
          BelowName(dir, other, k.path);
        }
      }
    }
  }

  lemma WalkWider(g: Graph, dir: Path, path: Path, from: set<Key>, more: set<Key>, s: Totals, t: Totals,
                  outcome: Outcome)
    requires IsWalk(g, from, path, s, t, outcome) && outcome != Complete && from <= more && dir <= path
    ensures IsWalk(g, more, dir, s, t, outcome)
  {
    BelowWider(dir, path, s, t);
    forall k | k in t.visited - s.visited {
      ReachesMore(g, from, more, k);
    }
  }

  lemma BelowWider(dir: Path, path: Path, s: Totals, t: Totals)
    requires StaysBelow(path, s, t) && dir <= path
    ensures StaysBelow(dir, s, t)
  {
    forall k | k in t.visited - s.visited && k.ByPath?
      ensures dir <= k.path
    {
      assert k.path[..|path|] == path;
      assert k.path[..|dir|] == path[..|dir|];
    }
  }

  lemma WalksJoined(g: Graph, dir: Path, path: Path, key: Key, rest: set<Key>, s: Totals, m: Totals, t: Totals,
                    outcome: Outcome)
    requires IsWalk(g, {key}, path, s, m, Complete) && IsWalk(g, rest, dir, m, t, outcome) && dir <= path
    ensures IsWalk(g, {key} + rest, dir, s, t, outcome)
  {
    PartJoined(g, s, m, t);
    BelowWider(dir, path, s, m);
    forall k | k in t.visited - s.visited
      ensures Reaches(g, {key} + rest, k)
    {
      ReachesMore(g, if k in m.visited - s.visited then {key} else rest, {key} + rest, k);
    }
  }

  // ----- whole scans

  ghost predicate RootsFit(w: World, o: Options, g: Graph, names: seq<string>) {
    && (forall i, j :: 0 <= i < j < |names| ==> names[i] != names[j])
    && (forall i :: 0 <= i < |names| ==>
          w.stat([names[i]]).Some? ==> Fits(w, o, g, [names[i]], w.stat([names[i]]).value, 0))
  }

  /** The objects the roots are. */
  function RootKeys(w: World, o: Options, names: seq<string>): set<Key> {
    set i | 0 <= i < |names| && w.stat([names[i]]).Some? :: KeyOf(w, o, [names[i]], w.stat([names[i]]).value)
  }

  lemma RootKeysCons(w: World, o: Options, names: seq<string>)
    requires names != [] && w.stat([names[0]]).Some?
    ensures RootKeys(w, o, names)
         == {KeyOf(w, o, [names[0]], w.stat([names[0]]).value)} + RootKeys(w, o, names[1..])
  {
    var all, rest := RootKeys(w, o, names), RootKeys(w, o, names[1..]);
    forall i | 0 <= i < |names| && w.stat([names[i]]).Some?
      ensures KeyOf(w, o, [names[i]], w.stat([names[i]]).value)
              in {KeyOf(w, o, [names[0]], w.stat([names[0]]).value)} + rest
    {
      if i > 0 {
        assert names[1..][i - 1] == names[i];
      }
    }
    forall i | 0 <= i < |names[1..]| && w.stat([names[1..][i]]).Some?
      ensures KeyOf(w, o, [names[1..][i]], w.stat([names[1..][i]]).value) in all
    {
      assert names[1..][i] == names[i + 1];
    }
  }

  lemma {:induction false} RootsWalk(w: World, o: Options, g: Graph, names: seq<string>, s: Totals)
    requires RootsFit(w, o, g, names) && AreSeen(s) && s.visited <= g.Keys
    requires forall i :: 0 <= i < |names| ==> IsFresh([names[i]], s)
    ensures var (t, outcome) := ScanRoots(w, o, names, s);
            IsWalk(g, RootKeys(w, o, names), [], s, t, outcome)
    decreases |names|
  {
    if names == [] || w.stat([names[0]]) == None {
      PartSame(g, s);
    } else {
      var item := w.stat([names[0]]).value;
      var key := KeyOf(w, o, [names[0]], item);
      assert Fits(w, o, g, [names[0]], item, 0);
      ScanWalks(w, o, g, [names[0]], item, 0, s);
      var (m, outcome) := Scan(w, o, [names[0]], item, 0, s);
      RootKeysCons(w, o, names);
      if outcome == Complete {
        RootsFresh(names, s, m);
        RestFits(w, o, g, names);
        RootsWalk(w, o, g, names[1..], m);
        var (t, last) := ScanRoots(w, o, names[1..], m);
        WalksJoined(g, [], [names[0]], key, RootKeys(w, o, names[1..]), s, m, t, last);
      } else {
        WalkWider(g, [], [names[0]], {key}, RootKeys(w, o, names), s, m, outcome);
      }
    }
  }

  lemma RestFits(w: World, o: Options, g: Graph, names: seq<string>)
    requires RootsFit(w, o, g, names) && names != []
    ensures RootsFit(w, o, g, names[1..])
  {
    forall i | 0 <= i < |names[1..]|
      ensures w.stat([names[1..][i]]).Some? ==> Fits(w, o, g, [names[1..][i]], w.stat([names[1..][i]]).value, 0)
    {
      assert names[1..][i] == names[i + 1];
    }
  }

  /** The totals are a sum over distinct objects reached from the roots; if the scan is complete, over all of them. */
  ghost predicate IsExact(g: Graph, roots: set<Key>, t: Totals, outcome: Outcome) {
    && t.visited <= g.Keys && t.stats == SumOver(g, t.visited)
    && (forall k :: k in t.visited ==> Reaches(g, roots, k))
    && (outcome == Complete ==> forall k :: Reaches(g, roots, k) ==> k in t.visited)
  }

  lemma WalkExact(g: Graph, roots: set<Key>, t: Totals, outcome: Outcome)
    requires IsWalk(g, roots, [], EMPTY, t, outcome)
    ensures IsExact(g, roots, t, outcome)
  {
    assert t.visited - EMPTY.visited == t.visited;
    AddLaws(SumOver(g, t.visited), NOTHING, NOTHING);
    if outcome == Complete {
      forall k | Reaches(g, roots, k)
        ensures k in t.visited
      {
        var trail :| IsTrail(g, roots, trail) && trail[|trail| - 1] == k;
        ClosedReaches(g, roots, t.visited, trail);
      }
    }
  }

  /** However a scan ends, its totals are a sum over distinct objects below its roots, each counted once; a complete
      scan has counted exactly those that can be reached from the roots. Nothing else about the listings, such as their
      order or cycles among them, plays a part. */
  lemma TotalsExact(w: World, o: Options, g: Graph, names: seq<string>)
    requires RootsFit(w, o, g, names)
    ensures var (t, outcome) := ScanRoots(w, o, names, EMPTY);
            IsExact(g, RootKeys(w, o, names), t, outcome)
  {
    RootsWalk(w, o, g, names, EMPTY);
    var (t, outcome) := ScanRoots(w, o, names, EMPTY);
    WalkExact(g, RootKeys(w, o, names), t, outcome);
  }

  /** Two scans of the same objects have the same totals, in whatever order and under whatever names they find them. */
  lemma OrderDoesNotMatter(w1: World, w2: World, o: Options, g: Graph, names1: seq<string>, names2: seq<string>)
    requires RootsFit(w1, o, g, names1) && RootsFit(w2, o, g, names2)
    requires RootKeys(w1, o, names1) == RootKeys(w2, o, names2)
    ensures var (t1, outcome1) := ScanRoots(w1, o, names1, EMPTY);
            var (t2, outcome2) := ScanRoots(w2, o, names2, EMPTY);
            outcome1 == outcome2 == Complete ==> t1.stats == t2.stats
  {
    TotalsExact(w1, o, g, names1);
    TotalsExact(w2, o, g, names2);
    var (t1, outcome1) := ScanRoots(w1, o, names1, EMPTY);
    var (t2, outcome2) := ScanRoots(w2, o, names2, EMPTY);
    if outcome1 == outcome2 == Complete {
      SameTotals(g, RootKeys(w1, o, names1), t1, t2);
    }
  }

  lemma SameTotals(g: Graph, roots: set<Key>, t1: Totals, t2: Totals)
    requires IsExact(g, roots, t1, Complete) && IsExact(g, roots, t2, Complete)
    ensures t1.stats == t2.stats
  {
    assert t1.visited == t2.visited;
  }

  // ----- the depth limit

  /** A walk no deeper than the number of things counted before it cannot get too deep among few enough objects. */
  lemma ScanNotTooDeep(w: World, o: Options, g: Graph, path: Path, item: Item, depth: nat, s: Totals)
    requires Fits(w, o, g, path, item, depth) && AreSeen(s) && s.visited <= g.Keys && IsFresh(path, s)
    requires depth <= |s.visited| && |g.Keys| <= MAX_DEPTH
    ensures Scan(w, o, path, item, depth, s).1 == Complete
    decreases MAX_DEPTH - depth, 2, 0
  {
    FewerVisited(g, s);
    var key := KeyOf(w, o, path, item);
    if key !in s.visited && GoesInto(o, item, depth) {
      var m := Count(s, key, g[key].stats);
      PartCount(g, s, key);
      FreshBelow(path, s, m, Children(w, path));
      assert m.visited == s.visited + {key};
      ScanAllNotTooDeep(w, o, g, path, Children(w, path), depth + 1, m);
    }
  }

  lemma FewerVisited(g: Graph, s: Totals)
    requires s.visited <= g.Keys
    ensures |s.visited| <= |g.Keys|
  {
    SubsetSize(s.visited, g.Keys);
  }

  lemma {:induction false} ScanAllNotTooDeep(w: World, o: Options, g: Graph, dir: Path, items: seq<Item>, depth: nat,
                                             s: Totals)
    requires depth <= MAX_DEPTH + 1 && FitsAll(w, o, g, dir, items, depth) && NamesApart(items)
    requires AreSeen(s) && s.visited <= g.Keys && depth <= |s.visited| && |g.Keys| <= MAX_DEPTH
    requires forall i :: 0 <= i < |items| ==> IsFresh(dir + [items[i].name], s)
    ensures ScanAll(w, o, dir, items, depth, s).1 == Complete
    decreases MAX_DEPTH + 1 - depth, 1, |items|
  {
    if items != [] {
      var first := dir + [items[0].name];
      ScanWalks(w, o, g, first, items[0], depth, s);
      ScanNotTooDeep(w, o, g, first, items[0], depth, s);
      var m := Scan(w, o, first, items[0], depth, s).0;
      SubsetSize(s.visited, m.visited);
      OthersFresh(dir, items, s, m);
      FitsRest(w, o, g, dir, items, depth);
      ScanAllNotTooDeep(w, o, g, dir, items[1..], depth, m);
    }
  }

  /** With at most as many objects as the depth limit, a scan whose roots exist is always complete, also when the
      directories form a cycle. */
  lemma {:induction false} CompletesAmongFew(w: World, o: Options, g: Graph, names: seq<string>, s: Totals)
    requires RootsFit(w, o, g, names) && AreSeen(s) && s.visited <= g.Keys && |g.Keys| <= 1000
    requires forall i :: 0 <= i < |names| ==> IsFresh([names[i]], s) && w.stat([names[i]]).Some?
    ensures ScanRoots(w, o, names, s).1 == Complete
    decreases |names|
  {
    if names != [] {
      var item := w.stat([names[0]]).value;
      assert Fits(w, o, g, [names[0]], item, 0);
      ScanWalks(w, o, g, [names[0]], item, 0, s);
      ScanNotTooDeep(w, o, g, [names[0]], item, 0, s);
      RestFits(w, o, g, names);
      RootsFresh(names, s, Scan(w, o, [names[0]], item, 0, s).0);
      CompletesAmongFew(w, o, g, names[1..], Scan(w, o, [names[0]], item, 0, s).0);
    }
  }

  lemma RootsFresh(names: seq<string>, s: Totals, m: Totals)
    requires names != [] && forall i, j :: 0 <= i < j < |names| ==> names[i] != names[j]
    requires StaysBelow([names[0]], s, m) && forall i :: 0 <= i < |names| ==> IsFresh([names[i]], s)
    ensures forall i :: 0 <= i < |names[1..]| ==> IsFresh([names[1..][i]], m)
  {
    forall i | 0 <= i < |names[1..]|
      ensures IsFresh([names[1..][i]], m)
    {
      assert names[1..][i] == names[i + 1];
      assert [] + [names[0]] == [names[0]] && [] + [names[i + 1]] == [names[i + 1]];
      OtherFresh([], names[0], names[i + 1], s, m);
    }
  }

  // ----- which file systems a graph describes

  /** One way to an object: where it was met, what it is counted by, and what it is. */
  datatype Entry = Entry(path: Path, item: Item, depth: nat, key: Key, what: Object)

  /** What the scan goes on with below an entry. */
  function ItemsBelow(w: World, o: Options, path: Path, item: Item, depth: nat): seq<Item> {
    if GoesInto(o, item, depth) then Children(w, path) else []
  }

  function EntryOf(w: World, o: Options, path: Path, item: Item, depth: nat): Entry {
    Entry(path, item, depth, KeyOf(w, o, path, item),
          Object(StatsOf(w, o, path, item, depth), ChildKeys(w, o, path, ItemsBelow(w, o, path, item, depth))))
  }

  /** All entries a scan without identities would come to, one for each way. */
  function Entries(w: World, o: Options, path: Path, item: Item, depth: nat): seq<Entry>
    decreases MAX_DEPTH - depth, 2, 0
  {
    if depth > MAX_DEPTH then []
    else
      [EntryOf(w, o, path, item, depth)] + EntriesAll(w, o, path, ItemsBelow(w, o, path, item, depth), depth + 1)
  }

  function EntriesAll(w: World, o: Options, dir: Path, items: seq<Item>, depth: nat): seq<Entry>
    requires depth <= MAX_DEPTH + 1
    decreases MAX_DEPTH + 1 - depth, 1, |items|
  {
    if items == [] then []
    else Entries(w, o, dir + [items[0].name], items[0], depth) + EntriesAll(w, o, dir, items[1..], depth)
  }

  function RootEntries(w: World, o: Options, names: seq<string>): seq<Entry>
    decreases |names|
  {
    if names == [] then []
    else
      (match w.stat([names[0]])
       case None => []
       case Some(item) => Entries(w, o, [names[0]], item, 0)) + RootEntries(w, o, names[1..])
  }

  /** Two entries counted by one key are the same object, with the same below it. */
  predicate Agree(es: seq<Entry>) {
    forall a, b :: a in es && b in es && a.key == b.key ==> a.what == b.what
  }

  ghost function GraphOf(es: seq<Entry>): Graph
    requires Agree(es)
  {
    map e | e in es :: e.key := e.what
  }

  ghost predicate Describes(g: Graph, es: seq<Entry>) {
    forall e :: e in es ==> e.key in g && g[e.key] == e.what
  }

  /** A listing has every name once. */
  ghost predicate ListsOnce(w: World) {
    forall path :: NamesApart(Children(w, path))
  }

  lemma DescribesBoth(g: Graph, a: seq<Entry>, b: seq<Entry>)
    requires Describes(g, a + b)
    ensures Describes(g, a) && Describes(g, b)
  {
    forall e | e in a || e in b
      ensures e in a + b
    {
    }
  }

  lemma DescribedFits(w: World, o: Options, g: Graph, path: Path, item: Item, depth: nat)
    requires ListsOnce(w) && Describes(g, Entries(w, o, path, item, depth))
    ensures Fits(w, o, g, path, item, depth)
    decreases MAX_DEPTH - depth, 2, 0
  {
    if depth <= MAX_DEPTH {
      var items := ItemsBelow(w, o, path, item, depth);
      var e := EntryOf(w, o, path, item, depth);
      DescribesBoth(g, [e], EntriesAll(w, o, path, items, depth + 1));
      assert e in [e];
      DescribedAllFit(w, o, g, path, items, depth + 1);
      assert NamesApart(Children(w, path));
    }
  }

  lemma {:induction false} DescribedAllFit(w: World, o: Options, g: Graph, dir: Path, items: seq<Item>, depth: nat)
    requires depth <= MAX_DEPTH + 1 && ListsOnce(w) && Describes(g, EntriesAll(w, o, dir, items, depth))
    ensures FitsAll(w, o, g, dir, items, depth)
    decreases MAX_DEPTH + 1 - depth, 1, |items|
  {
    if items != [] {
      DescribesBoth(g, Entries(w, o, dir + [items[0].name], items[0], depth), EntriesAll(w, o, dir, items[1..], depth));
      DescribedFits(w, o, g, dir + [items[0].name], items[0], depth);
      DescribedAllFit(w, o, g, dir, items[1..], depth);
      forall i | 0 <= i < |items|
        ensures Fits(w, o, g, dir + [items[i].name], items[i], depth)
      {
        if i > 0 {
          assert items[1..][i - 1] == items[i];
        }
      }
    }
  }

  /** A graph that describes the root entries fits every root. */
  lemma {:induction false} DescribedRootsFit(w: World, o: Options, g: Graph, names: seq<string>)
    requires ListsOnce(w) && Describes(g, RootEntries(w, o, names))
    requires forall i, j :: 0 <= i < j < |names| ==> names[i] != names[j]
    ensures RootsFit(w, o, g, names)
    decreases |names|
  {
    if names != [] {
      var first := match w.stat([names[0]]) case None => [] case Some(item) => Entries(w, o, [names[0]], item, 0);
      DescribesBoth(g, first, RootEntries(w, o, names[1..]));
      if w.stat([names[0]]).Some? {
        DescribedFits(w, o, g, [names[0]], w.stat([names[0]]).value, 0);
      }
      DescribedRootsFit(w, o, g, names[1..]);
      forall i | 0 <= i < |names|
        ensures w.stat([names[i]]).Some? ==> Fits(w, o, g, [names[i]], w.stat([names[i]]).value, 0)
      {
        if i > 0 {
          assert names[1..][i - 1] == names[i];
        }
      }
    }
  }

  /** Where entries with one identity agree, there is a graph, so the totals are exact. */
  lemma TotalsOfAgreeing(w: World, o: Options, names: seq<string>)
    requires ListsOnce(w) && Agree(RootEntries(w, o, names))
    requires forall i, j :: 0 <= i < j < |names| ==> names[i] != names[j]
    ensures var (t, outcome) := ScanRoots(w, o, names, EMPTY);
            IsExact(GraphOf(RootEntries(w, o, names)), RootKeys(w, o, names), t, outcome)
  {
    DescribedRootsFit(w, o, GraphOf(RootEntries(w, o, names)), names);
    TotalsExact(w, o, GraphOf(RootEntries(w, o, names)), names);
  }

  // ----- distinct directories and hard links of one size

  /** No directory the scan goes into shares its key with an entry met elsewhere. */
  predicate DirectoriesApart(o: Options, es: seq<Entry>) {
    forall a, b :: a in es && b in es && a.key == b.key && GoesInto(o, a.item, a.depth) ==> a.path == b.path
  }

  /** Entries with one key that the scan does not go into, hard links of one file, have one size. */
  predicate LinksAlike(w: World, o: Options, es: seq<Entry>) {
    forall a, b :: a in es && b in es && a.key == b.key && AreLeaves(o, a, b) ==> SameSize(w, a, b)
  }

  predicate AreLeaves(o: Options, a: Entry, b: Entry) {
    !GoesInto(o, a.item, a.depth) && !GoesInto(o, b.item, b.depth)
  }

  predicate SameSize(w: World, a: Entry, b: Entry) {
    && a.item.size == b.item.size && a.item.sizeKnown == b.item.sizeKnown
    && PhysicalOf(w, a.path, a.item) == PhysicalOf(w, b.path, b.item)
  }

  function Named(items: seq<Item>, name: string): Option<Item> {
    if items == [] then None else if items[0].name == name then Some(items[0]) else Named(items[1..], name)
  }

  /** What the scan meets at a path. */
  function ItemAt(w: World, path: Path): Option<Item> {
    if path == [] then None
    else if |path| == 1 then w.stat(path)
    else Named(Children(w, path[..|path| - 1]), path[|path| - 1])
  }

  /** An entry is determined by its path. */
  predicate IsAt(w: World, o: Options, e: Entry) {
    e.path != [] && ItemAt(w, e.path).Some? && e == EntryOf(w, o, e.path, ItemAt(w, e.path).value, |e.path| - 1)
  }

  ghost predicate AreAt(w: World, o: Options, es: seq<Entry>) {
    forall e :: e in es ==> IsAt(w, o, e)
  }

  lemma {:induction false} NamedAt(items: seq<Item>, i: nat)
    requires NamesApart(items) && i < |items|
    ensures Named(items, items[i].name) == Some(items[i])
    decreases |items|
  {
    if i > 0 {
      var rest := items[1..];
      assert rest[i - 1] == items[i] && items[0].name != items[i].name;
      forall j, k | 0 <= j < k < |rest|
        ensures rest[j].name != rest[k].name
      {
        assert rest[j] == items[j + 1] && rest[k] == items[k + 1];
      }
      NamedAt(rest, i - 1);
    }
  }

  lemma BelowAt(w: World, dir: Path, i: nat)
    requires ListsOnce(w) && dir != [] && i < |Children(w, dir)|
    ensures var item := Children(w, dir)[i]; ItemAt(w, dir + [item.name]) == Some(item)
  {
    var item := Children(w, dir)[i];
    var path := dir + [item.name];
    assert NamesApart(Children(w, dir));
    NamedAt(Children(w, dir), i);
    assert path[..|path| - 1] == dir;
  }

  lemma EntriesAt(w: World, o: Options, path: Path, item: Item, depth: nat)
    requires ListsOnce(w) && path != [] && ItemAt(w, path) == Some(item) && depth == |path| - 1
    ensures AreAt(w, o, Entries(w, o, path, item, depth))
    decreases MAX_DEPTH - depth, 2, 0
  {
    if depth <= MAX_DEPTH {
      var items := ItemsBelow(w, o, path, item, depth);
      forall i | 0 <= i < |items|
        ensures ItemAt(w, path + [items[i].name]) == Some(items[i])
      {
        BelowAt(w, path, i);
      }
      EntriesAllAt(w, o, path, items, depth + 1);
    }
  }

  lemma {:induction false} EntriesAllAt(w: World, o: Options, dir: Path, items: seq<Item>, depth: nat)
    requires ListsOnce(w) && dir != [] && depth == |dir| <= MAX_DEPTH + 1
    requires forall i :: 0 <= i < |items| ==> ItemAt(w, dir + [items[i].name]) == Some(items[i])
    ensures AreAt(w, o, EntriesAll(w, o, dir, items, depth))
    decreases MAX_DEPTH + 1 - depth, 1, |items|
  {
    if items != [] {
      EntriesAt(w, o, dir + [items[0].name], items[0], depth);
      forall i | 0 <= i < |items[1..]|
        ensures ItemAt(w, dir + [items[1..][i].name]) == Some(items[1..][i])
      {
        assert items[1..][i] == items[i + 1];
      }
      EntriesAllAt(w, o, dir, items[1..], depth);
    }
  }

  lemma {:induction false} RootEntriesAt(w: World, o: Options, names: seq<string>)
    requires ListsOnce(w)
    ensures AreAt(w, o, RootEntries(w, o, names))
    decreases |names|
  {
    if names != [] {
      if w.stat([names[0]]).Some? {
        EntriesAt(w, o, [names[0]], w.stat([names[0]]).value, 0);
      }
      RootEntriesAt(w, o, names[1..]);
    }
  }

  lemma LeavesAlike(w: World, o: Options, a: Entry, b: Entry)
    requires IsAt(w, o, a) && IsAt(w, o, b) && AreLeaves(o, a, b)
    requires SameSize(w, a, b)
    ensures a.what == b.what
  {
    assert ChildKeys(w, o, a.path, []) == {} == ChildKeys(w, o, b.path, []);
  }

  /** Where no two ways lead to one directory, and hard links have one size, entries with one key agree. */
  lemma ApartAgree(w: World, o: Options, names: seq<string>)
    requires ListsOnce(w)
    requires DirectoriesApart(o, RootEntries(w, o, names)) && LinksAlike(w, o, RootEntries(w, o, names))
    ensures Agree(RootEntries(w, o, names))
  {
    var es := RootEntries(w, o, names);
    RootEntriesAt(w, o, names);
    forall a, b | a in es && b in es && a.key == b.key
      ensures a.what == b.what
    {
      assert IsAt(w, o, a) && IsAt(w, o, b);
      if a.path != b.path {
        LeavesAlike(w, o, a, b);
      }
    }
  }

  /** A scan of such a file system counts every object it reaches once. */
  lemma TotalsOfApart(w: World, o: Options, names: seq<string>)
    requires ListsOnce(w) && forall i, j :: 0 <= i < j < |names| ==> names[i] != names[j]
    requires DirectoriesApart(o, RootEntries(w, o, names)) && LinksAlike(w, o, RootEntries(w, o, names))
    ensures Agree(RootEntries(w, o, names))
    ensures var (t, outcome) := ScanRoots(w, o, names, EMPTY);
            IsExact(GraphOf(RootEntries(w, o, names)), RootKeys(w, o, names), t, outcome)
  {
    ApartAgree(w, o, names);
    TotalsOfAgreeing(w, o, names);
  }
}
