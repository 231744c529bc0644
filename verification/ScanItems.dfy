/** What the totals of a scan mean, said of nothing but listings and items (genericScan and scanRecursive,
    vfs/scanner.go): which entries are counted, and what each of the six numbers is. */
module ScanItems {
  import opened Base
  import opened Scanner
  import opened ScanTotals
  import opened ScanMet

  /** The entries the scan goes into, and the others. */
  function Dirs(o: Options, met: seq<Entry>): seq<Entry> {
    if met == [] then [] else (if IsGoneInto(o, met[0]) then [met[0]] else []) + Dirs(o, met[1..])
  }

  function Files(o: Options, met: seq<Entry>): seq<Entry> {
    if met == [] then [] else (if IsGoneInto(o, met[0]) then [] else [met[0]]) + Files(o, met[1..])
  }

  /** Those with no size, where that does not mean that they are empty. */
  function Unsized(met: seq<Entry>): seq<Entry> {
    if met == [] then []
    else (if met[0].item.size == 0 && !met[0].item.sizeKnown then [met[0]] else []) + Unsized(met[1..])
  }

  function Sizes(met: seq<Entry>): nat {
    if met == [] then 0 else met[0].item.size + Sizes(met[1..])
  }

  /** The listed size on the disk; where there is none, the size is not zero and the file system knows such sizes, it is
      asked for, but never for a link. */
  function SizeOnDisk(w: World, e: Entry): nat {
    if e.item.physicalSize > 0 || e.item.size == 0 || e.item.isSymlink || !w.supportsPhysicalSize then
      e.item.physicalSize
    else
      match w.stat(e.path)
      case Some(item) => item.physicalSize
      case None => 0
  }

  function SizesOnDisk(w: World, met: seq<Entry>): nat {
    if met == [] then 0 else SizeOnDisk(w, met[0]) + SizesOnDisk(w, met[1..])
  }

  /** What a list of entries adds up to. */
  ghost predicate AreTheTotals(w: World, o: Options, met: seq<Entry>, stats: Stats) {
    && stats.dirs == |Dirs(o, met)| && stats.files == |Files(o, met)|
    && stats.dirBytes == Sizes(Dirs(o, met)) && stats.bytes == Sizes(Files(o, met))
    && stats.unknownSizeFiles == |Unsized(Files(o, met))|
    && stats.physicalBytes == SizesOnDisk(w, met)
  }

  predicate HaveDepths(met: seq<Entry>) {
    forall e :: e in met ==> e.depth + 1 == |e.path|
  }

  lemma FirstOf(w: World, o: Options, e: Entry, rest: seq<Entry>)
    ensures var met, gone := [e] + rest, IsGoneInto(o, e);
            && Dirs(o, met) == (if gone then [e] else []) + Dirs(o, rest)
            && Files(o, met) == (if gone then [] else [e]) + Files(o, rest)
            && Unsized(met) == (if e.item.size == 0 && !e.item.sizeKnown then [e] else []) + Unsized(rest)
            && Sizes(met) == e.item.size + Sizes(rest) && SizesOnDisk(w, met) == SizeOnDisk(w, e) + SizesOnDisk(w, rest)
  {
    assert ([e] + rest)[1..] == rest;
  }

  lemma EntryAdds(w: World, o: Options, e: Entry)
    requires e == EntryOf(w, o, e.path, e.item, e.depth) && e.depth + 1 == |e.path|
    ensures e.what.stats ==
              if IsGoneInto(o, e) then Stats(0, e.item.size, SizeOnDisk(w, e), 0, 1, 0)
              else Stats(e.item.size, 0, SizeOnDisk(w, e), 1, 0, if e.item.size == 0 && !e.item.sizeKnown then 1 else 0)
  {
  }

  lemma {:induction false} TotalsCons(w: World, o: Options, e: Entry, rest: seq<Entry>, stats: Stats)
    requires e == EntryOf(w, o, e.path, e.item, e.depth) && e.depth + 1 == |e.path|
    requires AreTheTotals(w, o, rest, stats)
    ensures AreTheTotals(w, o, [e] + rest, Add(e.what.stats, stats))
  {
    hide Dirs, Files, Unsized, Sizes, SizesOnDisk, SizeOnDisk, IsGoneInto, EntryOf;
    EntryAdds(w, o, e);
    FirstOf(w, o, e, rest);
    if IsGoneInto(o, e) {
      FirstOf(w, o, e, Dirs(o, rest));
      assert [] + Files(o, rest) == Files(o, rest);
    } else {
      FirstOf(w, o, e, Files(o, rest));
      assert [] + Dirs(o, rest) == Dirs(o, rest);
    }
  }

  lemma {:induction false} SumsAre(w: World, o: Options, met: seq<Entry>)
    requires AreEntries(w, o, met) && HaveDepths(met)
    ensures AreTheTotals(w, o, met, SumOf(met))
  {
    if met != [] {
      hide AreTheTotals;
      var e, rest := met[0], met[1..];
      assert e in met && met == [e] + rest;
      SumsAre(w, o, rest);
      TotalsCons(w, o, e, rest, SumOf(rest));
    } else {
      assert SumOf(met) == NOTHING;
    }
  }

  // ----- identities

  /** The identity of an item at a path: the listed one; where there is none, the one asked for, but never for a link.
      */
  predicate HasIdentity(w: World, path: Path, item: Item, id: Identity) {
    && id != NO_IDENTITY
    && (item.identity == id
        || (item.identity == NO_IDENTITY && !item.isSymlink && w.identify(path) == Some(id)))
  }

  lemma KeyMeans(w: World, o: Options, path: Path, item: Item)
    ensures var key := KeyOf(w, o, path, item);
            && (key.Known? ==> o.dedupInodes && HasIdentity(w, path, item, key.identity))
            && (key.ByPath? ==> key.path == path)
            && (o.dedupInodes ==> forall id :: HasIdentity(w, path, item, id) ==> key == Known(id))
  {
  }

  /** With identities in use, no two entries have the same one. */
  ghost predicate NoneTwice(w: World, o: Options, met: seq<Entry>) {
    forall i, j, id :: 0 <= i < j < |met| && o.dedupInodes && HasIdentity(w, met[i].path, met[i].item, id) ==>
                         !HasIdentity(w, met[j].path, met[j].item, id)
  }

  lemma ApartMeansNotTwice(w: World, o: Options, met: seq<Entry>)
    requires AreEntries(w, o, met) && IdentitiesApart(met)
    ensures NoneTwice(w, o, met)
  {
    forall i, j, id | 0 <= i < j < |met| && o.dedupInodes && HasIdentity(w, met[i].path, met[i].item, id)
      ensures !HasIdentity(w, met[j].path, met[j].item, id)
    {
      assert met[i] in met && met[j] in met;
      KeyMeans(w, o, met[i].path, met[i].item);
      KeyMeans(w, o, met[j].path, met[j].item);
    }
  }

  /** An item is counted at its path, or as something with the same identity. */
  ghost predicate IsCounted(w: World, o: Options, met: seq<Entry>, path: Path, item: Item) {
    exists e :: e in met
             && (e.path == path
                 || (o.dedupInodes
                     && exists id :: HasIdentity(w, path, item, id) && HasIdentity(w, e.path, e.item, id)))
  }

  lemma CoveredMeansCounted(w: World, o: Options, met: seq<Entry>, path: Path, item: Item)
    requires AreEntries(w, o, met) && KeyOf(w, o, path, item) in KeysOf(met)
    ensures IsCounted(w, o, met, path, item)
  {
    var e :| e in met && e.key == KeyOf(w, o, path, item);
    KeyMeans(w, o, path, item);
    KeyMeans(w, o, e.path, e.item);
  }

  /** Nothing is left out: the roots are there and counted, and so is every entry of a directory that is gone into. */
  ghost predicate IsWhole(w: World, o: Options, names: seq<string>, met: seq<Entry>) {
    && (forall n :: n in names ==> w.stat([n]).Some? && IsCounted(w, o, met, [n], w.stat([n]).value))
    && (forall d, x ::
          d in met && IsGoneInto(o, d) && w.list(d.path).Some? && x in w.list(d.path).value && x.name != ".." ==>
            IsCounted(w, o, met, d.path + [x.name], x))
  }

  lemma {:induction false} ParentOnlyDropped(items: seq<Item>, x: Item)
    requires x in items && x.name != ".."
    ensures x in WithoutParent(items)
    decreases |items|
  {
    if x != items[0] {
      assert x in items[1..];
      ParentOnlyDropped(items[1..], x);
    }
  }

  lemma ListedIsCounted(w: World, o: Options, met: seq<Entry>, d: Entry, x: Item)
    requires AreEntries(w, o, met) && HaveDepths(met) && d in met && d.what.children <= KeysOf(met)
    requires IsGoneInto(o, d) && w.list(d.path).Some? && x in w.list(d.path).value && x.name != ".."
    ensures IsCounted(w, o, met, d.path + [x.name], x)
  {
    ParentOnlyDropped(w.list(d.path).value, x);
    var items := Children(w, d.path);
    var i :| 0 <= i < |items| && items[i] == x;
    assert ItemsBelow(w, o, d.path, d.item, d.depth) == items;
    assert KeyOf(w, o, d.path + [items[i].name], items[i]) in d.what.children;
    CoveredMeansCounted(w, o, met, d.path + [x.name], x);
  }

  lemma {:induction false} CompleteRoots(w: World, o: Options, names: seq<string>, t: Totals, n: string)
    requires ScanRoots(w, o, names, t).1 == Complete && n in names
    ensures w.stat([n]).Some?
    decreases |names|
  {
    if n != names[0] {
      assert n in names[1..];
      CompleteRoots(w, o, names[1..], Scan(w, o, [names[0]], w.stat([names[0]]).value, 0, t).0, n);
    }
  }

  lemma {:induction false} WholeScan(w: World, o: Options, names: seq<string>, met: seq<Entry>)
    requires ScanRoots(w, o, names, EMPTY).1 == Complete
    requires AreEntries(w, o, met) && HaveDepths(met) && RootKeys(w, o, names) <= KeysOf(met)
    requires forall e :: e in met ==> e.what.children <= KeysOf(met)
    ensures IsWhole(w, o, names, met)
  {
    hide IsCounted, AreEntries, HaveDepths, KeysOf, ScanRoots;
    forall n | n in names
      ensures w.stat([n]).Some? && IsCounted(w, o, met, [n], w.stat([n]).value)
    {
      CompleteRoots(w, o, names, EMPTY, n);
      var i :| 0 <= i < |names| && names[i] == n;
      assert KeyOf(w, o, [names[i]], w.stat([names[i]]).value) in RootKeys(w, o, names);
      CoveredMeansCounted(w, o, met, [n], w.stat([n]).value);
    }
    forall d, x | d in met && IsGoneInto(o, d) && w.list(d.path).Some? && x in w.list(d.path).value && x.name != ".."
      ensures IsCounted(w, o, met, d.path + [x.name], x)
    {
      ListedIsCounted(w, o, met, d, x);
    }
  }

  // ----- depths

  lemma EntriesDepths(w: World, o: Options, path: Path, item: Item, depth: nat)
    requires depth + 1 == |path|
    ensures HaveDepths(Entries(w, o, path, item, depth))
    decreases MAX_DEPTH - depth, 2, 0
  {
    if depth <= MAX_DEPTH {
      EntriesAllDepths(w, o, path, ItemsBelow(w, o, path, item, depth), depth + 1);
    }
  }

  lemma {:induction false} EntriesAllDepths(w: World, o: Options, dir: Path, items: seq<Item>, depth: nat)
    requires depth == |dir| && depth <= MAX_DEPTH + 1
    ensures HaveDepths(EntriesAll(w, o, dir, items, depth))
    decreases MAX_DEPTH + 1 - depth, 1, |items|
  {
    if items != [] {
      EntriesDepths(w, o, dir + [items[0].name], items[0], depth);
      EntriesAllDepths(w, o, dir, items[1..], depth);
    }
  }

  lemma {:induction false} RootsDepths(w: World, o: Options, names: seq<string>)
    ensures HaveDepths(RootEntries(w, o, names))
    decreases |names|
  {
    if names != [] {
      if w.stat([names[0]]).Some? {
        EntriesDepths(w, o, [names[0]], w.stat([names[0]]).value, 0);
      }
      RootsDepths(w, o, names[1..]);
    }
  }

  /** However a scan ends, its totals are those of a list of entries, each a root or listed in a directory of the list
      that is gone into, no identity among them twice; where names are not listed twice, no path either. A complete scan
      has left out nothing. */
  lemma {:induction false} TotalsInItems(w: World, o: Options, names: seq<string>) returns (met: seq<Entry>)
    ensures var (t, outcome) := ScanRoots(w, o, names, EMPTY);
            && AreTheTotals(w, o, met, t.stats)
            && (forall e :: e in met ==> IsRoot(w, names, e) || HasDirectory(w, o, met, e))
            && NoneTwice(w, o, met) && (ListsOnce(w) && AreDistinct(names) ==> PathsApart(met))
            && (outcome == Complete ==> IsWhole(w, o, names, met))
  {
    hide ScanRoots, RootEntries, AreTheTotals, NoneTwice, IsWhole, PathsApart, ListsOnce, KeysApart, RootKeys, KeysOf;
    met := TotalsOfMet(w, o, names);
    RootsDepths(w, o, names);
    assert HaveDepths(met);
    SumsAre(w, o, met);
    ApartMeansNotTwice(w, o, met);
    if ScanRoots(w, o, names, EMPTY).1 == Complete {
      WholeScan(w, o, names, met);
    }
  }
}
