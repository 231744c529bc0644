/** What a scan adds up in any world, also where hard links disagree on what they are (vfs/scanner.go): the entries it
    counts, each identity once. */
module ScanMet {
  import opened Base
  import opened Scanner
  import opened ScanTotals

  /** What the entries add together. */
  function SumOf(met: seq<Entry>): Stats {
    if met == [] then NOTHING else Add(met[0].what.stats, SumOf(met[1..]))
  }

  lemma {:induction false} SumAppend(a: seq<Entry>, b: seq<Entry>)
    ensures SumOf(a + b) == Add(SumOf(a), SumOf(b))
  {
    if a == [] {
      assert a + b == b;
    } else {
      assert (a + b)[0] == a[0] && (a + b)[1..] == a[1..] + b;
      SumAppend(a[1..], b);
    }
  }

  function Identities(met: seq<Entry>): set<Identity> {
    set e | e in met && e.key.Known? :: e.key.identity
  }

  function KeysOf(met: seq<Entry>): set<Key> {
    set e | e in met :: e.key
  }

  /** No identity is met twice. */
  predicate IdentitiesApart(met: seq<Entry>) {
    forall i, j :: 0 <= i < j < |met| && met[i].key.Known? ==> met[i].key != met[j].key
  }

  predicate PathsApart(met: seq<Entry>) {
    forall i, j :: 0 <= i < j < |met| ==> met[i].path != met[j].path
  }

  predicate KeysApart(met: seq<Entry>) {
    forall i, j :: 0 <= i < j < |met| ==> met[i].key != met[j].key
  }

  /** Every entry is what the world shows at its path. */
  predicate AreEntries(w: World, o: Options, met: seq<Entry>) {
    forall e :: e in met ==> e == EntryOf(w, o, e.path, e.item, e.depth)
  }

  /** From s to t the entries met were counted, none of them under an identity seen before. */
  ghost predicate Counts(s: Totals, met: seq<Entry>, t: Totals) {
    && t.stats == Add(s.stats, SumOf(met)) && t.seen == s.seen + Identities(met) && IdentitiesApart(met)
    && Identities(met) !! s.seen
  }

  lemma CountsNothing(s: Totals)
    ensures Counts(s, [], s)
  {
  }

  lemma IdentitiesJoined(a: seq<Entry>, b: seq<Entry>)
    requires IdentitiesApart(a) && IdentitiesApart(b) && Identities(a) !! Identities(b)
    ensures IdentitiesApart(a + b) && Identities(a + b) == Identities(a) + Identities(b)
  {
    forall i, j | 0 <= i < j < |a + b| && (a + b)[i].key.Known?
      ensures (a + b)[i].key != (a + b)[j].key
    {
      if i < |a| && j >= |a| {
        assert a[i] in a && b[j - |a|] in b;
        assert a[i].key.identity in Identities(a);
      }
    }
    assert forall e :: e in a + b <==> e in a || e in b;
  }

  lemma CountsJoined(s: Totals, a: seq<Entry>, m: Totals, b: seq<Entry>, t: Totals)
    requires Counts(s, a, m) && Counts(m, b, t)
    ensures Counts(s, a + b, t)
  {
    SumAppend(a, b);
    AddLaws(s.stats, SumOf(a), SumOf(b));
    IdentitiesJoined(a, b);
  }

  lemma CountsOne(s: Totals, e: Entry)
    requires e.key.Known? ==> e.key.identity !in s.seen
    ensures Counts(s, [e], Count(s, e.key, e.what.stats))
  {
    assert [e][1..] == [];
    assert Identities([e]) == if e.key.Known? then {e.key.identity} else {};
  }

  // ----- nothing is left out

  /** The key was seen before, or is among those met. */
  predicate IsCovered(k: Key, seen: set<Identity>, met: seq<Entry>) {
    (k.Known? && k.identity in seen) || k in KeysOf(met)
  }

  /** What is directly below the entries met is covered, too. */
  predicate AreClosed(seen: set<Identity>, met: seq<Entry>) {
    forall e, k :: e in met && k in e.what.children ==> IsCovered(k, seen, met)
  }

  lemma CoveredMore(k: Key, s: Totals, a: seq<Entry>, m: Totals, b: seq<Entry>)
    requires Counts(s, a, m) && (IsCovered(k, s.seen, a) || IsCovered(k, m.seen, b))
    ensures IsCovered(k, s.seen, a + b)
  {
    if k.Known? && k.identity in Identities(a) {
      var e :| e in a && e.key.Known? && e.key.identity == k.identity;
      assert e in a + b && e.key == k;
    } else if k in KeysOf(a) || k in KeysOf(b) {
      var e :| (e in a || e in b) && e.key == k;
      assert e in a + b;
    }
  }

  lemma ClosedJoined(s: Totals, a: seq<Entry>, m: Totals, b: seq<Entry>)
    requires Counts(s, a, m) && AreClosed(s.seen, a) && AreClosed(m.seen, b)
    ensures AreClosed(s.seen, a + b)
  {
    forall e, k | e in a + b && k in e.what.children
      ensures IsCovered(k, s.seen, a + b)
    {
      assert e in a || e in b;
      CoveredMore(k, s, a, m, b);
    }
  }

  // ----- where the entries are

  function NamesOf(items: seq<Item>): set<string> {
    set i | i in items :: i.name
  }

  predicate AreBelow(dir: Path, names: set<string>, met: seq<Entry>) {
    forall e :: e in met ==> dir < e.path && e.path[|dir|] in names
  }

  lemma PathsJoined(dir: Path, x: set<string>, a: seq<Entry>, y: set<string>, b: seq<Entry>)
    requires AreBelow(dir, x, a) && AreBelow(dir, y, b) && x !! y && PathsApart(a) && PathsApart(b)
    ensures PathsApart(a + b)
  {
    forall i, j | 0 <= i < j < |a + b|
      ensures (a + b)[i].path != (a + b)[j].path
    {
      if i < |a| && j >= |a| {
        assert a[i] in a && b[j - |a|] in b;
      }
    }
  }

  predicate AreAbove(path: Path, met: seq<Entry>) {
    forall e :: e in met ==> path <= e.path
  }

  lemma BelowChild(dir: Path, name: string, met: seq<Entry>)
    requires AreAbove(dir + [name], met)
    ensures AreBelow(dir, {name}, met)
  {
    forall e | e in met
      ensures dir < e.path && e.path[|dir|] == name
    {
      var n := |dir|;
      assert e.path[..n + 1] == dir + [name];
      assert e.path[..n] == e.path[..n + 1][..n] == dir;
      assert e.path[n] == e.path[..n + 1][n];
    }
  }

  lemma FirstApart(path: Path, e: Entry, names: set<string>, met: seq<Entry>)
    requires e.path == path && AreBelow(path, names, met) && PathsApart(met)
    ensures PathsApart([e] + met) && AreAbove(path, [e] + met)
  {
    var all := [e] + met;
    forall i, j | 0 <= i < j < |all|
      ensures all[i].path != all[j].path
    {
      assert all[j] == met[j - 1] && met[j - 1] in met;
      if i > 0 {
        assert all[i] == met[i - 1];
      }
    }
    forall x | x in all
      ensures path <= x.path
    {
      assert x == e || x in met;
    }
  }

  // ----- how the entries were come to

  /** A directory, but a link only where links are followed: everywhere, or where it is one of the roots. */
  predicate IsGoneInto(o: Options, e: Entry) {
    e.item.isDir && (!e.item.isSymlink || o.followSymlinkDirs || (|e.path| == 1 && o.followRootSymlinkDirs))
  }

  /** e is an entry of the listing of d. */
  predicate IsListedIn(w: World, d: Entry, e: Entry) {
    && w.list(d.path).Some? && e.item in w.list(d.path).value && e.item.name != ".."
    && e.path == d.path + [e.item.name]
  }

  predicate HasDirectory(w: World, o: Options, met: seq<Entry>, e: Entry) {
    exists d :: d in met && IsGoneInto(o, d) && IsListedIn(w, d, e)
  }

  /** All but the entries of the directory the walk is in were found in one that was met. */
  predicate AreFound(w: World, o: Options, dir: Path, items: seq<Item>, met: seq<Entry>) {
    forall e :: e in met ==> (e.path == dir + [e.item.name] && e.item in items) || HasDirectory(w, o, met, e)
  }

  predicate AreFoundFrom(w: World, o: Options, path: Path, item: Item, met: seq<Entry>) {
    forall e :: e in met ==> (e.path == path && e.item == item) || HasDirectory(w, o, met, e)
  }

  lemma DirectoryStays(w: World, o: Options, few: seq<Entry>, many: seq<Entry>, e: Entry)
    requires HasDirectory(w, o, few, e) && forall d :: d in few ==> d in many
    ensures HasDirectory(w, o, many, e)
  {
    var d :| d in few && IsGoneInto(o, d) && IsListedIn(w, d, e);
    assert d in many;
  }

  lemma {:induction false} ParentDropped(items: seq<Item>, x: Item)
    requires x in WithoutParent(items)
    ensures x in items && x.name != ".."
    decreases |items|
  {
    if x !in WithoutParent(items[1..]) {
      assert x == items[0] && x.name != "..";
    } else {
      ParentDropped(items[1..], x);
    }
  }

  lemma FoundBelow(w: World, o: Options, e: Entry, below: seq<Entry>)
    requires e.depth == 0 <==> |e.path| == 1
    requires AreFound(w, o, e.path, ItemsBelow(w, o, e.path, e.item, e.depth), below)
    ensures AreFoundFrom(w, o, e.path, e.item, [e] + below)
  {
    var met := [e] + below;
    forall x | x in met && x != e
      ensures HasDirectory(w, o, met, x)
    {
      assert x in below;
      if HasDirectory(w, o, below, x) {
        DirectoryStays(w, o, below, met, x);
      } else {
        ParentDropped(w.list(e.path).GetOr([]), x.item);
        assert IsGoneInto(o, e) && IsListedIn(w, e, x) && e in met;
      }
    }
  }

  lemma FoundJoined(w: World, o: Options, dir: Path, items: seq<Item>, a: seq<Entry>, b: seq<Entry>)
    requires items != [] && AreFoundFrom(w, o, dir + [items[0].name], items[0], a)
    requires AreFound(w, o, dir, items[1..], b)
    ensures AreFound(w, o, dir, items, a + b)
  {
    forall e | e in a + b
      ensures (e.path == dir + [e.item.name] && e.item in items) || HasDirectory(w, o, a + b, e)
    {
      if e in a && HasDirectory(w, o, a, e) {
        DirectoryStays(w, o, a, a + b, e);
      } else if e !in a && HasDirectory(w, o, b, e) {
        DirectoryStays(w, o, b, a + b, e);
      }
    }
  }

  // ----- the walk

  /** A part of a walk: what was counted from s to t, entries of the world, and if the part is complete nothing directly
      below them is left out. */
  ghost predicate IsWalk(w: World, o: Options, s: Totals, met: seq<Entry>, t: Totals, outcome: Outcome) {
    Counts(s, met, t) && AreEntries(w, o, met) && (outcome == Complete ==> AreClosed(s.seen, met))
  }

  lemma WalksJoined(w: World, o: Options, s: Totals, a: seq<Entry>, m: Totals, b: seq<Entry>, t: Totals,
                    outcome: Outcome)
    requires IsWalk(w, o, s, a, m, Complete) && IsWalk(w, o, m, b, t, outcome)
    ensures IsWalk(w, o, s, a + b, t, outcome)
  {
    CountsJoined(s, a, m, b, t);
    if outcome == Complete {
      ClosedJoined(s, a, m, b);
    }
    forall e | e in a + b
      ensures e == EntryOf(w, o, e.path, e.item, e.depth)
    {
      assert e in a || e in b;
    }
  }

  predicate AreAmong(met: seq<Entry>, es: seq<Entry>) {
    forall e :: e in met ==> e in es
  }

  lemma AmongJoined(a: seq<Entry>, x: seq<Entry>, b: seq<Entry>, y: seq<Entry>)
    requires AreAmong(a, x) && AreAmong(b, y)
    ensures AreAmong(a + b, x + y)
  {
    forall e | e in a + b
      ensures e in x + y
    {
      assert e in a || e in b;
    }
  }

  /** An entry and what is below it. */
  lemma EntryFirst(w: World, o: Options, s: Totals, e: Entry, below: seq<Entry>, t: Totals, outcome: Outcome)
    requires e == EntryOf(w, o, e.path, e.item, e.depth) && (e.key.Known? ==> e.key.identity !in s.seen)
    requires IsWalk(w, o, Count(s, e.key, e.what.stats), below, t, outcome)
    requires outcome == Complete ==>
               forall k :: k in e.what.children ==> IsCovered(k, Count(s, e.key, e.what.stats).seen, below)
    ensures IsWalk(w, o, s, [e] + below, t, outcome)
  {
    var m := Count(s, e.key, e.what.stats);
    CountsOne(s, e);
    CountsJoined(s, [e], m, below, t);
    if outcome == Complete {
      forall x, k | x in [e] + below && k in x.what.children
        ensures IsCovered(k, s.seen, [e] + below)
      {
        assert x == e || x in below;
        CoveredMore(k, s, [e], m, below);
      }
    }
    forall x | x in [e] + below
      ensures x == EntryOf(w, o, x.path, x.item, x.depth)
    {
      assert x == e || x in below;
    }
  }

  lemma FirstCovered(s: Totals, e: Entry, below: seq<Entry>)
    ensures IsCovered(e.key, s.seen, [e] + below)
  {
    assert e in [e] + below;
  }

  /** What the walk from one entry on counts. */
  ghost predicate IsEntryWalk(w: World, o: Options, path: Path, item: Item, depth: nat, s: Totals, met: seq<Entry>) {
    var (t, outcome) := Scan(w, o, path, item, depth, s);
    && IsWalk(w, o, s, met, t, outcome)
    && (outcome == Complete ==> IsCovered(KeyOf(w, o, path, item), s.seen, met))
    && AreAbove(path, met) && (ListsOnce(w) ==> PathsApart(met)) && AreAmong(met, Entries(w, o, path, item, depth))
    && (depth + 1 == |path| ==> AreFoundFrom(w, o, path, item, met))
  }

  predicate AreCovered(keys: set<Key>, seen: set<Identity>, met: seq<Entry>) {
    forall k :: k in keys ==> IsCovered(k, seen, met)
  }

  /** What the walk through the entries of a directory counts. */
  ghost predicate IsItemsWalk(w: World, o: Options, dir: Path, items: seq<Item>, depth: nat, s: Totals, met: seq<Entry>)
    requires depth <= MAX_DEPTH + 1
  {
    var (t, outcome) := ScanAll(w, o, dir, items, depth, s);
    && IsWalk(w, o, s, met, t, outcome)
    && (outcome == Complete ==> AreCovered(ChildKeys(w, o, dir, items), s.seen, met))
    && AreBelow(dir, NamesOf(items), met) && (ListsOnce(w) && NamesApart(items) ==> PathsApart(met))
    && AreAmong(met, EntriesAll(w, o, dir, items, depth))
    && (depth == |dir| ==> AreFound(w, o, dir, items, met))
  }

  /** A new entry is counted, and then all below it. */
  lemma {:induction false} ScanGoesOn(w: World, o: Options, path: Path, item: Item, depth: nat, s: Totals)
    requires depth <= MAX_DEPTH
    requires var key := KeyOf(w, o, path, item); key.Known? ==> key.identity !in s.seen
    ensures var e := EntryOf(w, o, path, item, depth);
            Scan(w, o, path, item, depth, s)
            == ScanAll(w, o, path, ItemsBelow(w, o, path, item, depth), depth + 1, Count(s, e.key, e.what.stats))
  {
  }

  lemma {:induction false} EntryWalk(w: World, o: Options, e: Entry, s: Totals, below: seq<Entry>)
    requires e.depth <= MAX_DEPTH && e == EntryOf(w, o, e.path, e.item, e.depth)
    requires e.key.Known? ==> e.key.identity !in s.seen
    requires IsItemsWalk(w, o, e.path, ItemsBelow(w, o, e.path, e.item, e.depth), e.depth + 1,
                         Count(s, e.key, e.what.stats), below)
    ensures IsEntryWalk(w, o, e.path, e.item, e.depth, s, [e] + below)
  {
    hide Scan, ScanAll, IsWalk, IsCovered, PathsApart, AreAmong, AreFound, AreFoundFrom;
    var items := ItemsBelow(w, o, e.path, e.item, e.depth);
    var m := Count(s, e.key, e.what.stats);
    var (t, outcome) := ScanAll(w, o, e.path, items, e.depth + 1, m);
    ScanGoesOn(w, o, e.path, e.item, e.depth, s);
    EntryFirst(w, o, s, e, below, t, outcome);
    FirstCovered(s, e, below);
    if ListsOnce(w) {
      assert NamesApart(Children(w, e.path));
      FirstApart(e.path, e, NamesOf(items), below);
    }
    EntryAmong(w, o, e, below);
    FirstAbove(e, NamesOf(items), below);
    if e.depth + 1 == |e.path| {
      FoundBelow(w, o, e, below);
    }
  }

  lemma FirstAbove(e: Entry, names: set<string>, below: seq<Entry>)
    requires AreBelow(e.path, names, below)
    ensures AreAbove(e.path, [e] + below)
  {
    forall x | x in [e] + below
      ensures e.path <= x.path
    {
      assert x == e || x in below;
    }
  }

  lemma {:induction false} EntryAmong(w: World, o: Options, e: Entry, below: seq<Entry>)
    requires e.depth <= MAX_DEPTH && e == EntryOf(w, o, e.path, e.item, e.depth)
    requires AreAmong(below, EntriesAll(w, o, e.path, ItemsBelow(w, o, e.path, e.item, e.depth), e.depth + 1))
    ensures AreAmong([e] + below, Entries(w, o, e.path, e.item, e.depth))
  {
    AmongJoined([e], [e], below, EntriesAll(w, o, e.path, ItemsBelow(w, o, e.path, e.item, e.depth), e.depth + 1));
  }

  lemma {:induction false} ScanMeets(w: World, o: Options, path: Path, item: Item, depth: nat, s: Totals)
    returns (met: seq<Entry>)
    ensures IsEntryWalk(w, o, path, item, depth, s, met)
    decreases MAX_DEPTH - depth, 2, 0
  {
    var key := KeyOf(w, o, path, item);
    if depth > MAX_DEPTH || (key.Known? && key.identity in s.seen) {
      met := [];
    } else {
      hide IsEntryWalk, IsItemsWalk;
      var e := EntryOf(w, o, path, item, depth);
      var items := ItemsBelow(w, o, path, item, depth);
      var below := ScanAllMeets(w, o, path, items, depth + 1, Count(s, key, e.what.stats));
      met := [e] + below;
      EntryWalk(w, o, e, s, below);
    }
  }

  // ----- the entries of a directory

  lemma NamesCons(items: seq<Item>)
    requires items != []
    ensures NamesOf(items) == {items[0].name} + NamesOf(items[1..])
    ensures NamesApart(items) ==> NamesApart(items[1..]) && {items[0].name} !! NamesOf(items[1..])
  {
    assert items == [items[0]] + items[1..];
    if NamesApart(items) {
      forall i, j | 0 <= i < j < |items[1..]|
        ensures items[1..][i].name != items[1..][j].name
      {
        assert items[1..][i] == items[i + 1] && items[1..][j] == items[j + 1];
      }
      forall x | x in items[1..]
        ensures x.name != items[0].name
      {
        var j :| 0 <= j < |items[1..]| && items[1..][j] == x;
        assert items[j + 1] == x;
      }
    }
  }

  lemma BelowMore(dir: Path, few: set<string>, many: set<string>, met: seq<Entry>)
    requires AreBelow(dir, few, met) && few <= many
    ensures AreBelow(dir, many, met)
  {
  }

  lemma BelowJoined(dir: Path, names: set<string>, a: seq<Entry>, b: seq<Entry>)
    requires AreBelow(dir, names, a) && AreBelow(dir, names, b)
    ensures AreBelow(dir, names, a + b)
  {
    forall e | e in a + b
      ensures dir < e.path && e.path[|dir|] in names
    {
      assert e in a || e in b;
    }
  }

  lemma CoveredJoined(first: Key, rest: set<Key>, s: Totals, a: seq<Entry>, m: Totals, b: seq<Entry>)
    requires Counts(s, a, m) && IsCovered(first, s.seen, a) && AreCovered(rest, m.seen, b)
    ensures AreCovered({first} + rest, s.seen, a + b)
  {
    forall k | k in {first} + rest
      ensures IsCovered(k, s.seen, a + b)
    {
      CoveredMore(k, s, a, m, b);
    }
  }

  /** Where the entries of both parts are. */
  lemma PlacesJoined(w: World, dir: Path, items: seq<Item>, a: seq<Entry>, b: seq<Entry>)
    requires items != [] && AreAbove(dir + [items[0].name], a) && (ListsOnce(w) ==> PathsApart(a))
    requires AreBelow(dir, NamesOf(items[1..]), b) && (ListsOnce(w) && NamesApart(items[1..]) ==> PathsApart(b))
    ensures AreBelow(dir, NamesOf(items), a + b) && (ListsOnce(w) && NamesApart(items) ==> PathsApart(a + b))
  {
    hide PathsApart, AreAbove, AreBelow, NamesOf, NamesApart, ListsOnce;
    var name, rest := {items[0].name}, NamesOf(items[1..]);
    NamesCons(items);
    BelowChild(dir, items[0].name, a);
    BelowMore(dir, name, NamesOf(items), a);
    BelowMore(dir, rest, NamesOf(items), b);
    BelowJoined(dir, NamesOf(items), a, b);
    if ListsOnce(w) && NamesApart(items) {
      PathsJoined(dir, name, a, rest, b);
    }
  }

  lemma {:induction false} ItemsWalk(w: World, o: Options, dir: Path, items: seq<Item>, depth: nat, s: Totals,
                                     a: seq<Entry>, m: Totals, b: seq<Entry>)
    requires items != [] && depth <= MAX_DEPTH + 1
    requires Scan(w, o, dir + [items[0].name], items[0], depth, s) == (m, Complete)
    requires IsEntryWalk(w, o, dir + [items[0].name], items[0], depth, s, a)
    requires IsItemsWalk(w, o, dir, items[1..], depth, m, b)
    ensures IsItemsWalk(w, o, dir, items, depth, s, a + b)
  {
    hide Scan, IsCovered, PathsApart, AreAmong, AreAbove, AreBelow, Entries, ChildKeys, NamesOf;
    hide Counts, AreClosed, AreEntries, AreFound, AreFoundFrom;
    var path := dir + [items[0].name];
    var (t, outcome) := ScanAll(w, o, dir, items[1..], depth, m);
    assert ScanAll(w, o, dir, items, depth, s) == (t, outcome);
    WalksJoined(w, o, s, a, m, b, t, outcome);
    if outcome == Complete {
      ChildKeysCons(w, o, dir, items);
      CoveredJoined(KeyOf(w, o, path, items[0]), ChildKeys(w, o, dir, items[1..]), s, a, m, b);
    }
    PlacesJoined(w, dir, items, a, b);
    AmongJoined(a, Entries(w, o, path, items[0], depth), b, EntriesAll(w, o, dir, items[1..], depth));
    if depth == |dir| {
      FoundJoined(w, o, dir, items, a, b);
    }
  }

  /** A walk that fails in the first entry. */
  lemma {:induction false} FirstFails(w: World, o: Options, dir: Path, items: seq<Item>, depth: nat, s: Totals,
                                      a: seq<Entry>)
    requires items != [] && depth <= MAX_DEPTH + 1
    requires Scan(w, o, dir + [items[0].name], items[0], depth, s).1 != Complete
    requires IsEntryWalk(w, o, dir + [items[0].name], items[0], depth, s, a)
    ensures IsItemsWalk(w, o, dir, items, depth, s, a)
  {
    hide Scan, IsCovered, AreAmong, AreAbove, AreBelow, Entries, ChildKeys, NamesOf, Counts, AreClosed, AreEntries;
    var name := items[0].name;
    assert ScanAll(w, o, dir, items, depth, s) == Scan(w, o, dir + [name], items[0], depth, s);
    NamesCons(items);
    BelowChild(dir, name, a);
    BelowMore(dir, {name}, NamesOf(items), a);
    AmongJoined(a, Entries(w, o, dir + [name], items[0], depth), [], EntriesAll(w, o, dir, items[1..], depth));
    assert a + [] == a;
    if depth == |dir| {
      FoundJoined(w, o, dir, items, a, []);
    }
  }

  lemma NothingWalk(w: World, o: Options, dir: Path, depth: nat, s: Totals)
    requires depth <= MAX_DEPTH + 1
    ensures IsItemsWalk(w, o, dir, [], depth, s, [])
  {
    CountsNothing(s);
  }

  lemma {:induction false} ScanAllMeets(w: World, o: Options, dir: Path, items: seq<Item>, depth: nat, s: Totals)
    returns (met: seq<Entry>)
    requires depth <= MAX_DEPTH + 1
    ensures IsItemsWalk(w, o, dir, items, depth, s, met)
    decreases MAX_DEPTH + 1 - depth, 1, |items|
  {
    hide IsItemsWalk, IsEntryWalk, Scan;
    if items == [] {
      met := [];
      NothingWalk(w, o, dir, depth, s);
    } else {
      var path := dir + [items[0].name];
      met := ScanMeets(w, o, path, items[0], depth, s);
      var (m, outcome) := Scan(w, o, path, items[0], depth, s);
      if outcome == Complete {
        var rest := ScanAllMeets(w, o, dir, items[1..], depth, m);
        ItemsWalk(w, o, dir, items, depth, s, met, m, rest);
        met := met + rest;
      } else {
        FirstFails(w, o, dir, items, depth, s, met);
      }
    }
  }

  // ----- whole scans

  function SetOf(names: seq<string>): set<string> {
    set n | n in names
  }

  predicate AreDistinct(names: seq<string>) {
    forall i, j :: 0 <= i < j < |names| ==> names[i] != names[j]
  }

  /** What the walk from the roots counts. */
  ghost predicate IsRootsWalk(w: World, o: Options, names: seq<string>, s: Totals, met: seq<Entry>) {
    var (t, outcome) := ScanRoots(w, o, names, s);
    && IsWalk(w, o, s, met, t, outcome)
    && (outcome == Complete ==> AreCovered(RootKeys(w, o, names), s.seen, met))
    && AreBelow([], SetOf(names), met) && (ListsOnce(w) && AreDistinct(names) ==> PathsApart(met))
    && AreAmong(met, RootEntries(w, o, names)) && AreRooted(w, o, names, met)
  }

  /** All but the roots were found in a directory that was met. */
  predicate AreRooted(w: World, o: Options, names: seq<string>, met: seq<Entry>) {
    forall e :: e in met ==> IsRoot(w, names, e) || HasDirectory(w, o, met, e)
  }

  predicate IsRoot(w: World, names: seq<string>, e: Entry) {
    |e.path| == 1 && e.path[0] in names && w.stat(e.path) == Some(e.item)
  }

  lemma RootedJoined(w: World, o: Options, names: seq<string>, a: seq<Entry>, b: seq<Entry>)
    requires names != [] && w.stat([names[0]]).Some?
    requires AreFoundFrom(w, o, [names[0]], w.stat([names[0]]).value, a) && AreRooted(w, o, names[1..], b)
    ensures AreRooted(w, o, names, a + b)
  {
    forall e | e in a + b
      ensures IsRoot(w, names, e) || HasDirectory(w, o, a + b, e)
    {
      if e in a && HasDirectory(w, o, a, e) {
        DirectoryStays(w, o, a, a + b, e);
      } else if e !in a && HasDirectory(w, o, b, e) {
        DirectoryStays(w, o, b, a + b, e);
      } else if e !in a {
        assert IsRoot(w, names[1..], e);
      }
    }
  }

  lemma RootsCons(names: seq<string>)
    requires names != []
    ensures SetOf(names) == {names[0]} + SetOf(names[1..])
    ensures AreDistinct(names) ==> AreDistinct(names[1..]) && {names[0]} !! SetOf(names[1..])
  {
    assert names == [names[0]] + names[1..];
    if AreDistinct(names) {
      forall n | n in names[1..]
        ensures n != names[0]
      {
        var j :| 0 <= j < |names[1..]| && names[1..][j] == n;
        assert names[j + 1] == n;
      }
    }
  }

  lemma RootPlaces(w: World, names: seq<string>, a: seq<Entry>, b: seq<Entry>)
    requires names != [] && AreAbove([names[0]], a) && (ListsOnce(w) ==> PathsApart(a))
    requires AreBelow([], SetOf(names[1..]), b) && (ListsOnce(w) && AreDistinct(names[1..]) ==> PathsApart(b))
    ensures AreBelow([], SetOf(names), a + b) && (ListsOnce(w) && AreDistinct(names) ==> PathsApart(a + b))
  {
    hide PathsApart, AreAbove, AreBelow, AreDistinct, ListsOnce;
    var first, rest, all := {names[0]}, SetOf(names[1..]), SetOf(names);
    RootsCons(names);
    assert [] + [names[0]] == [names[0]];
    BelowChild([], names[0], a);
    BelowMore([], first, all, a);
    BelowMore([], rest, all, b);
    BelowJoined([], all, a, b);
    if ListsOnce(w) && AreDistinct(names) {
      PathsJoined([], first, a, rest, b);
    }
  }

  lemma {:induction false} RootFirst(w: World, o: Options, names: seq<string>, s: Totals, a: seq<Entry>, b: seq<Entry>)
    requires names != [] && w.stat([names[0]]).Some?
    requires IsEntryWalk(w, o, [names[0]], w.stat([names[0]]).value, 0, s, a)
    requires var (m, outcome) := Scan(w, o, [names[0]], w.stat([names[0]]).value, 0, s);
             if outcome == Complete then IsRootsWalk(w, o, names[1..], m, b) else b == []
    ensures IsRootsWalk(w, o, names, s, a + b)
  {
    hide Scan, IsCovered, PathsApart, AreAmong, AreAbove, AreBelow, Entries, RootKeys, Counts, AreClosed, AreEntries;
    hide AreFoundFrom, AreRooted;
    var item := w.stat([names[0]]).value;
    var (m, outcome) := Scan(w, o, [names[0]], item, 0, s);
    if outcome == Complete {
      var (t, last) := ScanRoots(w, o, names[1..], m);
      WalksJoined(w, o, s, a, m, b, t, last);
      if last == Complete {
        RootKeysCons(w, o, names);
        CoveredJoined(KeyOf(w, o, [names[0]], item), RootKeys(w, o, names[1..]), s, a, m, b);
      }
      RootPlaces(w, names, a, b);
      AmongJoined(a, Entries(w, o, [names[0]], item, 0), b, RootEntries(w, o, names[1..]));
      RootedJoined(w, o, names, a, b);
    } else {
      NowhereElse(w, o, names, b);
      RootedJoined(w, o, names, a, b);
      RootPlaces(w, names, a, b);
      AmongNothing(b, RootEntries(w, o, names[1..]));
      AmongJoined(a, Entries(w, o, [names[0]], item, 0), b, RootEntries(w, o, names[1..]));
      assert a + b == a;
    }
  }

  lemma NowhereElse(w: World, o: Options, names: seq<string>, b: seq<Entry>)
    requires names != [] && b == []
    ensures AreRooted(w, o, names[1..], b)
    ensures AreBelow([], SetOf(names[1..]), b) && PathsApart(b)
  {
  }

  lemma AmongNothing(b: seq<Entry>, es: seq<Entry>)
    requires b == []
    ensures AreAmong(b, es)
  {
  }

  lemma {:induction false} RootsNothing(w: World, o: Options, names: seq<string>, s: Totals)
    requires names == [] || w.stat([names[0]]).None?
    ensures IsRootsWalk(w, o, names, s, [])
  {
    CountsNothing(s);
  }

  lemma {:induction false} RootsMeet(w: World, o: Options, names: seq<string>, s: Totals) returns (met: seq<Entry>)
    ensures IsRootsWalk(w, o, names, s, met)
    decreases |names|
  {
    hide IsRootsWalk, IsEntryWalk, Scan;
    met := [];
    if names == [] || w.stat([names[0]]).None? {
      RootsNothing(w, o, names, s);
    } else {
      var item := w.stat([names[0]]).value;
      var first := ScanMeets(w, o, [names[0]], item, 0, s);
      var rest: seq<Entry> := [];
      var (m, outcome) := Scan(w, o, [names[0]], item, 0, s);
      if outcome == Complete {
        rest := RootsMeet(w, o, names[1..], m);
      }
      RootFirst(w, o, names, s, first, rest);
      met := first + rest;
    }
  }

  lemma KeysOfPaths(w: World, o: Options, met: seq<Entry>)
    requires AreEntries(w, o, met) && IdentitiesApart(met) && PathsApart(met)
    ensures KeysApart(met)
  {
    forall i, j | 0 <= i < j < |met|
      ensures met[i].key != met[j].key
    {
      assert met[i] in met && met[j] in met;
      if met[i].key.ByPath? {
        assert met[i].path != met[j].path;
      }
    }
  }

  /** At the start nothing is seen and the totals are zero. */
  lemma NothingSeen(w: World, o: Options, names: seq<string>, met: seq<Entry>)
    requires IsRootsWalk(w, o, names, EMPTY, met)
    ensures var (t, outcome) := ScanRoots(w, o, names, EMPTY);
            && t.stats == SumOf(met)
            && (outcome == Complete ==>
                  RootKeys(w, o, names) <= KeysOf(met) && forall e :: e in met ==> e.what.children <= KeysOf(met))
  {
    hide RootEntries, ScanRoots, RootKeys, KeysOf, SumOf, PathsApart, IdentitiesApart, AreEntries, AreBelow, Identities;
    assert Add(NOTHING, SumOf(met)) == SumOf(met);
    if ScanRoots(w, o, names, EMPTY).1 == Complete {
      forall e, k | e in met && k in e.what.children
        ensures k in KeysOf(met)
      {
        assert IsCovered(k, EMPTY.seen, met);
      }
      forall k | k in RootKeys(w, o, names)
        ensures k in KeysOf(met)
      {
        assert IsCovered(k, EMPTY.seen, met);
      }
    }
  }

  /** In every world, also where hard links disagree on their size, the totals are the sum over a list of entries below
      the roots among which no identity is twice, nor any key if names are not listed twice. After a complete scan the
      list leaves out nothing: it has the roots, and with an entry whatever is directly below that. */
  lemma {:induction false} TotalsOfMet(w: World, o: Options, names: seq<string>) returns (met: seq<Entry>)
    ensures var (t, outcome) := ScanRoots(w, o, names, EMPTY);
            && t.stats == SumOf(met) && AreEntries(w, o, met) && AreAmong(met, RootEntries(w, o, names))
            && IdentitiesApart(met) && AreRooted(w, o, names, met)
            && (ListsOnce(w) && AreDistinct(names) ==> KeysApart(met) && PathsApart(met))
            && (outcome == Complete ==>
                  && RootKeys(w, o, names) <= KeysOf(met)
                  && forall e :: e in met ==> e.what.children <= KeysOf(met))
  {
    hide RootEntries, ScanRoots, RootKeys, KeysOf, PathsApart, KeysApart, IdentitiesApart, AreEntries, AreBelow;
    met := RootsMeet(w, o, names, EMPTY);
    NothingSeen(w, o, names, met);
    if ListsOnce(w) && AreDistinct(names) {
      KeysOfPaths(w, o, met);
    }
  }
}
