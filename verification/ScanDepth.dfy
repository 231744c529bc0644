/** How a scan ends (genericScan and scanRecursive, vfs/scanner.go): an unreadable directory does not stop it, a root
    that is not there does, and so does whatever is nested more than 1000 deep. */
module ScanDepth {
  import opened Base
  import opened Scanner
  import S = ScanItems

  /** Items below one another: each is listed in the one before, the scan goes into all but the last. */
  predicate IsChain(w: World, o: Options, path: Path, item: Item, below: seq<Item>)
    decreases |below|
  {
    below == []
    || (&& item.isDir && (!item.isSymlink || o.followSymlinkDirs || (|path| == 1 && o.followRootSymlinkDirs))
        && w.list(path).Some? && below[0] in w.list(path).value && below[0].name != ".."
        && IsChain(w, o, path + [below[0].name], below[0], below[1..]))
  }

  lemma {:induction false} ChildListed(items: seq<Item>, x: Item)
    requires x in WithoutParent(items)
    ensures x in items && x.name != ".."
  {
    if items != [] && x in WithoutParent(items[1..]) {
      ChildListed(items[1..], x);
    }
  }

  lemma UnreadableIsEmpty(w: World, path: Path)
    ensures w.list(path).None? ==> Children(w, path) == []
  {
  }

  /** A walk that gets too deep has gone down such a chain. */
  lemma DeepBelow(w: World, o: Options, path: Path, item: Item, depth: nat, t: Totals) returns (below: seq<Item>)
    requires Scan(w, o, path, item, depth, t).1 == TooDeep && depth <= 1001 && depth + 1 == |path|
    ensures |below| == 1001 - depth && IsChain(w, o, path, item, below)
    decreases MAX_DEPTH + 1 - depth, 2, 0
  {
    below := [];
    if depth <= 1000 {
      var counted := Count(t, KeyOf(w, o, path, item), StatsOf(w, o, path, item, depth));
      var x, more := DeepAmong(w, o, path, Children(w, path), depth + 1, counted);
      below := [x] + more;
      assert below[1..] == more;
      UnreadableIsEmpty(w, path);
      ChildListed(w.list(path).value, x);
    }
  }

  lemma {:induction false} DeepAmong(w: World, o: Options, dir: Path, items: seq<Item>, depth: nat, t: Totals)
    returns (x: Item, below: seq<Item>)
    requires depth <= 1001 && depth == |dir| && ScanAll(w, o, dir, items, depth, t).1 == TooDeep
    ensures x in items && |below| == 1001 - depth && IsChain(w, o, dir + [x.name], x, below)
    decreases MAX_DEPTH + 1 - depth, 3, |items|
  {
    var (next, outcome) := Scan(w, o, dir + [items[0].name], items[0], depth, t);
    if outcome == Complete {
      x, below := DeepAmong(w, o, dir, items[1..], depth, next);
    } else {
      x := items[0];
      below := DeepBelow(w, o, dir + [x.name], x, depth, t);
    }
  }

  /** Without identities nothing is passed over, so such a chain is not walked to its end. */
  lemma ChainFails(w: World, o: Options, path: Path, item: Item, depth: nat, t: Totals, below: seq<Item>)
    requires !o.dedupInodes && depth <= 1001 && depth + 1 == |path|
    requires |below| == 1001 - depth && IsChain(w, o, path, item, below)
    ensures Scan(w, o, path, item, depth, t).1 == TooDeep
    decreases MAX_DEPTH + 1 - depth, 2, 0
  {
    if depth <= 1000 {
      S.ParentOnlyDropped(w.list(path).value, below[0]);
      var counted := Count(t, KeyOf(w, o, path, item), StatsOf(w, o, path, item, depth));
      ChainAmong(w, o, path, Children(w, path), depth + 1, counted, below);
    }
  }

  lemma {:induction false} ChainAmong(w: World, o: Options, dir: Path, items: seq<Item>, depth: nat, t: Totals,
                                      below: seq<Item>)
    requires !o.dedupInodes && 1 <= depth <= 1001 && depth == |dir| && |below| == 1002 - depth
    requires below[0] in items && IsChain(w, o, dir + [below[0].name], below[0], below[1..])
    ensures ScanAll(w, o, dir, items, depth, t).1 == TooDeep
    decreases MAX_DEPTH + 1 - depth, 3, |items|
  {
    var (next, outcome) := Scan(w, o, dir + [items[0].name], items[0], depth, t);
    NeverMissing(w, o, dir + [items[0].name], items[0], depth, t);
    if below[0] == items[0] {
      ChainFails(w, o, dir + [items[0].name], items[0], depth, t, below[1..]);
    } else if outcome == Complete {
      ChainAmong(w, o, dir, items[1..], depth, next, below);
    }
  }

  /** Below a root nothing but the depth stops a scan. */
  lemma NeverMissing(w: World, o: Options, path: Path, item: Item, depth: nat, t: Totals)
    ensures Scan(w, o, path, item, depth, t).1 != NotFound
    decreases MAX_DEPTH + 1 - depth, 0, 0
  {
    if depth <= MAX_DEPTH {
      var counted := Count(t, KeyOf(w, o, path, item), StatsOf(w, o, path, item, depth));
      NeverMissingAmong(w, o, path, Children(w, path), depth + 1, counted);
    }
  }

  lemma {:induction false} NeverMissingAmong(w: World, o: Options, dir: Path, items: seq<Item>, depth: nat, t: Totals)
    requires depth <= MAX_DEPTH + 1
    ensures ScanAll(w, o, dir, items, depth, t).1 != NotFound
    decreases MAX_DEPTH + 1 - depth, 1, |items|
  {
    if items != [] {
      NeverMissing(w, o, dir + [items[0].name], items[0], depth, t);
      NeverMissingAmong(w, o, dir, items[1..], depth, Scan(w, o, dir + [items[0].name], items[0], depth, t).0);
    }
  }

  /** A root and a chain of 1001 items below it. */
  ghost predicate IsTooDeep(w: World, o: Options, name: string) {
    w.stat([name]).Some? && exists below :: |below| == 1001 && IsChain(w, o, [name], w.stat([name]).value, below)
  }

  /** The root a scan stops at, if it does: one that is not there, or one with something nested too deep. */
  lemma {:induction false} StopsAt(w: World, o: Options, names: seq<string>, t: Totals) returns (i: nat)
    requires ScanRoots(w, o, names, t).1 != Complete
    ensures i < |names|
    ensures ScanRoots(w, o, names, t).1 == NotFound ==> w.stat([names[i]]) == None
    ensures ScanRoots(w, o, names, t).1 == TooDeep ==> IsTooDeep(w, o, names[i])
    ensures forall k :: 0 <= k < i ==> w.stat([names[k]]).Some?
    decreases |names|
  {
    var item := w.stat([names[0]]);
    i := 0;
    if item.Some? {
      var (next, outcome) := Scan(w, o, [names[0]], item.value, 0, t);
      NeverMissing(w, o, [names[0]], item.value, 0, t);
      if outcome == Complete {
        var k := StopsAt(w, o, names[1..], next);
        i := k + 1;
      } else {
        var below := DeepBelow(w, o, [names[0]], item.value, 0, t);
      }
    }
  }

  /** Without identities a scan is complete exactly when all roots are there and nothing is nested too deep. */
  lemma {:induction false} CompleteExactly(w: World, o: Options, names: seq<string>, t: Totals)
    requires !o.dedupInodes
    ensures ScanRoots(w, o, names, t).1 == Complete
        <==> forall i :: 0 <= i < |names| ==> w.stat([names[i]]).Some? && !IsTooDeep(w, o, names[i])
    decreases |names|
  {
    if ScanRoots(w, o, names, t).1 != Complete {
      var i := StopsAt(w, o, names, t);
    } else if names != [] {
      var item := w.stat([names[0]]).value;
      var next := Scan(w, o, [names[0]], item, 0, t).0;
      CompleteExactly(w, o, names[1..], next);
      if IsTooDeep(w, o, names[0]) {
        var below :| |below| == 1001 && IsChain(w, o, [names[0]], item, below);
        ChainFails(w, o, [names[0]], item, 0, t, below);
      }
      forall i | 0 <= i < |names|
        ensures w.stat([names[i]]).Some? && !IsTooDeep(w, o, names[i])
      {
        assert i > 0 ==> names[i] == names[1..][i - 1];
      }
    }
  }
}
