/** Editing one key as .reg text changes nothing outside it (ImportContent and regPathWithin in
    vfs/registry_reg_apply_windows.go). */
module RegWithin {
  import opened Base
  import opened RegFormat
  import opened Registry
  import opened RegTransfer
  import I = RegImport

  /** regPathWithin */
  predicate PathWithin(lower: Fold, path: string, root: string) {
    var p, r := FoldName(lower, TrimBackslashes(path)), FoldName(lower, root);
    p == r || r + "\\" <= p
  }

  /** Whether a section within the root names, to the registry, the key of the root or one below it: its hive is that of
      the root and the rest is spelled, as far as the root goes, like the root but for what the registry folds. */
  predicate LeadsBelow(same: Fold, f: Fold, path: string, root: string) {
    var t, h := TrimBackslashes(path), IndexOf(root, '\\');
    && h < |root| <= |t|
    && var hive := FindHive(same, t[..h], HIVES);
    hive.Some? && FoldName(f, hive.value) == FoldName(f, root[..h])
    && FoldName(f, t[h + 1..|root|]) == FoldName(f, root[h + 1..])
  }

  /** Every key that is not at or below the one at r is as before; the only new ones are keys above r, without
      values. */
  ghost predicate ChangedOnlyBelow(before: Keys, r: Path, after: Keys) {
    forall q :: !(r <= q) ==> KeptAt(before, r, after, q)
  }

  /** A section that is not refused before it changes anything. */
  predicate TakesEffect(same: Fold, k: I.ImportKey) {
    Target(same, k.path).Ok? && AreNames(Target(same, k.path).value)
  }

  ghost predicate KeptAt(before: Keys, r: Path, after: Keys, q: Path) {
    && (q in before ==> q in after && after[q] == before[q])
    && (q in after && q !in before ==> q <= r && after[q].values == map[])
  }

  // ----- folding and splitting

  lemma FoldNamesCons(f: Fold, c: char, rest: seq<string>)
    requires rest != []
    ensures FoldNames(f, [[]] + rest) == [[]] + FoldNames(f, rest)
    ensures FoldNames(f, [[c] + rest[0]] + rest[1..])
         == [[f(c)] + FoldNames(f, rest)[0]] + FoldNames(f, rest)[1..]
  {
    assert FoldName(f, []) == [];
    assert FoldName(f, [c] + rest[0]) == [f(c)] + FoldName(f, rest[0]);
  }

  predicate SameLayout(a: string, b: string) {
    |a| == |b| && forall i :: 0 <= i < |a| ==> (a[i] == '\\' <==> b[i] == '\\')
  }

  lemma FoldNameCons(f: Fold, c: char, s: string)
    ensures FoldName(f, [c] + s) == [f(c)] + FoldName(f, s)
  {
  }

  lemma {:induction false} SplitLayout(a: string, b: string)
    requires SameLayout(a, b)
    ensures |Split(a, '\\')| == |Split(b, '\\')|
    decreases |a|
  {
    if a != "" {
      SplitLayout(a[1..], b[1..]);
    }
  }

  lemma HeadsAndTails(x: Path, y: Path, c: char, d: char)
    requires x != [] && y != []
    ensures [[c] + x[0]] + x[1..] == [[d] + y[0]] + y[1..] <==> c == d && x == y
  {
    var p, q := [[c] + x[0]] + x[1..], [[d] + y[0]] + y[1..];
    if p == q {
      assert p[0][0] == c && q[0][0] == d && p[0][1..] == x[0] && q[0][1..] == y[0];
      assert p[1..] == x[1..] && q[1..] == y[1..];
      assert x == [x[0]] + x[1..] && y == [y[0]] + y[1..];
    }
  }

  /** Texts with backslashes at the same places are the same texts to f exactly when their names are. */
  lemma {:induction false} SplitAlike(f: Fold, a: string, b: string)
    requires SameLayout(a, b)
    ensures FoldNames(f, Split(a, '\\')) == FoldNames(f, Split(b, '\\')) <==> FoldName(f, a) == FoldName(f, b)
    decreases |a|
  {
    if a != "" {
      SplitAlike(f, a[1..], b[1..]);
      var x, y := Split(a[1..], '\\'), Split(b[1..], '\\');
      assert a == [a[0]] + a[1..] && b == [b[0]] + b[1..];
      FoldNameCons(f, a[0], a[1..]);
      FoldNameCons(f, b[0], b[1..]);
      assert FoldName(f, a)[0] == f(a[0]) && FoldName(f, a)[1..] == FoldName(f, a[1..]);
      assert FoldName(f, b)[0] == f(b[0]) && FoldName(f, b)[1..] == FoldName(f, b[1..]);
      if a[0] == '\\' {
        FoldNamesCons(f, a[0], x);
        FoldNamesCons(f, b[0], y);
        assert ([[]] + FoldNames(f, x))[1..] == FoldNames(f, x) && ([[]] + FoldNames(f, y))[1..] == FoldNames(f, y);
      } else {
        FoldNamesCons(f, a[0], x);
        FoldNamesCons(f, b[0], y);
        HeadsAndTails(FoldNames(f, x), FoldNames(f, y), f(a[0]), f(b[0]));
      }
    }
  }

  lemma FoldNamesAppend(f: Fold, a: seq<string>, b: seq<string>)
    ensures FoldNames(f, a + b) == FoldNames(f, a) + FoldNames(f, b)
  {
  }

  // ----- where a section within the edited key goes

  /** The trimmed path of a section within root: the root in some spelling and what follows it. */
  lemma WithinParts(lower: Fold, t: string, root: string) returns (head: string, tail: string)
    requires KeepsBackslash(lower)
    requires var p, r := FoldName(lower, t), FoldName(lower, root); p == r || r + "\\" <= p
    ensures t == head + tail && FoldName(lower, head) == FoldName(lower, root)
    ensures tail != "" ==> tail[0] == '\\'
  {
    var n := |root|;
    assert |FoldName(lower, t)| == |t|;
    head, tail := t[..n], t[n..];
    if FoldName(lower, t) != FoldName(lower, root) {
      assert FoldName(lower, t)[n] == (FoldName(lower, root) + "\\")[n] == '\\';
      assert FoldName(lower, t)[..n] == FoldName(lower, root);
      assert FoldName(lower, head) == FoldName(lower, t)[..n];
    } else {
      assert head == t;
    }
  }

  /** The names of a text that starts as another one does, up to a backslash: those of the other one come first exactly
      when that start is the same to f. */
  lemma StartNames(f: Fold, head: string, tail: string, root: string)
    requires SameLayout(head, root) && (tail != "" ==> tail[0] == '\\')
    ensures PathOf(f, root) <= PathOf(f, head + tail) <==> FoldName(f, head) == FoldName(f, root)
    ensures |PathOf(f, root)| <= |PathOf(f, head + tail)|
  {
    SplitLayout(head, root);
    SplitAlike(f, head, root);
    if tail == "" {
      assert head + tail == head;
    } else {
      assert head + tail == head + ['\\'] + tail[1..];
      SplitAppend(head, '\\', tail[1..]);
      FoldNamesAppend(f, Split(head, '\\'), Split(tail[1..], '\\'));
      assert PathOf(f, head + tail)[..|PathOf(f, root)|] == PathOf(f, head);
    }
  }

  lemma {:induction false} FindHiveKnown(same: Fold, name: string, hives: seq<string>)
    ensures var r := FindHive(same, name, hives);
            r.Some? ==> r.value in hives && FoldName(same, name) == FoldName(same, r.value)
    decreases |hives|
  {
    if hives != [] {
      FindHiveKnown(same, name, hives[1..]);
    }
  }

  lemma NoEmptyHive(same: Fold)
    ensures FindHive(same, "", HIVES) == None
  {
    FindHiveKnown(same, "", HIVES);
    assert forall h :: h in HIVES ==> |h| > 0;
  }

  lemma TrimRightStart(s: string)
    requires s != "" && s[0] != '\\'
    ensures var t := TrimRight(s, IsBackslash); t != "" && t[0] == s[0] && t <= s
    decreases |s|
  {
    if s[|s| - 1] == '\\' {
      TrimRightStart(s[..|s| - 1]);
    }
  }

  lemma {:induction false} TrimRightTail(a: string, s: string)
    requires TrimRight(s, IsBackslash) != ""
    ensures TrimRight(a + s, IsBackslash) == a + TrimRight(s, IsBackslash)
    decreases |s|
  {
    if s[|s| - 1] == '\\' {
      assert (a + s)[..|a + s| - 1] == a + s[..|s| - 1];
      assert (a + s)[|a + s| - 1] == '\\';
      TrimRightTail(a, s[..|s| - 1]);
    } else {
      assert (a + s)[|a + s| - 1] == s[|s| - 1];
    }
  }

  /** A root a key can be edited under: a hive and names below it. */
  predicate IsRoot(root: string) {
    var names := Split(root, '\\');
    AreNames(names) && |names| >= 2 && names[0] in HIVES
  }

  lemma RootShape(root: string)
    requires IsRoot(root)
    ensures var h := |Split(root, '\\')[0]|;
            && 0 < h && h + 1 < |root| && root[h] == '\\' && root[h + 1] != '\\' && root[..h] == Split(root, '\\')[0]
            && '\\' !in root[..h]
  {
    var names := Split(root, '\\');
    JoinSplit(root, '\\');
    JoinEnds(names[1..]);
    assert root == names[0] + ['\\'] + Join(names[1..], '\\');
    assert IsName(names[0]);
  }

  /** The same shape in every spelling of the root. */
  lemma SpelledShape(lower: Fold, head: string, root: string, h: nat)
    requires KeepsBackslash(lower) && FoldName(lower, head) == FoldName(lower, root)
    requires h + 1 < |root| && root[h] == '\\' && root[h + 1] != '\\' && '\\' !in root[..h]
    ensures |head| == |root| && head[h] == '\\' && head[h + 1] != '\\' && '\\' !in head[..h]
    ensures FoldName(lower, head[..h]) == FoldName(lower, root[..h])
  {
    assert |head| == |FoldName(lower, head)| == |root|;
    assert forall i :: 0 <= i < |root| ==>
             FoldName(lower, head)[i] == lower(head[i]) && FoldName(lower, root)[i] == lower(root[i]);
    assert forall i :: 0 <= i < |root| ==> lower(head[i]) == lower(root[i]);
    forall i | 0 <= i < h
      ensures head[i] != '\\'
    {
      assert root[..h][i] == root[i];
      assert lower(head[i]) == lower(root[i]);
    }
  }

  /** A path that starts with hive\\x, trimmed at both ends, is the hive, a backslash and the trimmed rest. */
  lemma TrimmedParts(path: string, h: nat)
    requires h + 1 < |path| && path[h] == '\\' && path[h + 1] != '\\' && '\\' !in path[..h] && 0 < h
    ensures var sub := TrimBackslashes(path[h + 1..]);
            sub != "" && TrimBackslashes(path) == path[..h] + ['\\'] + sub && IndexOf(path, '\\') == h
  {
    var above, s := path[..h + 1], path[h + 1..];
    assert path[0] == path[..h][0];
    assert path == above + s && above == path[..h] + ['\\'];
    TrimRightStart(s);
    TrimRightTail(above, s);
    IndexAt(path, h);
  }

  lemma IndexAt(path: string, h: nat)
    requires h < |path| && path[h] == '\\' && '\\' !in path[..h]
    ensures IndexOf(path, '\\') == h
  {
    var i := IndexOf(path, '\\');
    assert forall j :: 0 <= j < h ==> path[j] == path[..h][j];
    assert forall j :: 0 <= j < i ==> path[j] == path[..i][j];
  }

  /** Where a trimmed path starts, the path starts unless it begins with a backslash. */
  lemma TrimmedStart(path: string)
    requires path != "" && path[0] != '\\'
    ensures TrimBackslashes(path) <= path
  {
    TrimRightStart(path);
  }

  lemma LeadingBackslash(same: Fold, path: string)
    requires path == "" || path[0] == '\\'
    ensures Target(same, path) == Err(NotAHive)
  {
    NoEmptyHive(same);
    assert path[..0] == "";
  }

  /** The target of a path hive\\x: the hive found and the names of the rest, without backslashes at its end. */
  lemma TargetParts(same: Fold, path: string, h: nat)
    requires 0 < h && h + 1 < |path| && path[h] == '\\' && path[h + 1] != '\\' && '\\' !in path[..h]
    ensures var hive, t := FindHive(same, path[..h], HIVES), TrimBackslashes(path);
            && h + 1 < |t| && t[..h] == path[..h]
            && Target(same, path) == if hive.None? then Err(NotAHive) else Ok([hive.value] + Split(t[h + 1..], '\\'))
  {
    TrimmedParts(path, h);
    var sub := TrimBackslashes(path[h + 1..]);
    assert (path[..h] + ['\\'] + sub)[h + 1..] == sub;
    assert (path[..h] + ['\\'] + sub)[..h] == path[..h];
  }

  lemma FoldNamesFirst(f: Fold, name: string, rest: seq<string>)
    ensures FoldNames(f, [name] + rest) == [FoldName(f, name)] + FoldNames(f, rest)
  {
  }

  lemma PrefixCons(a: string, x: Path, b: string, y: Path)
    ensures [a] + x <= [b] + y <==> a == b && x <= y
  {
    if [a] + x <= [b] + y {
      var n := |x|;
      assert ([b] + y)[..n + 1] == [a] + x;
      assert ([b] + y)[..n + 1] == [b] + y[..n];
      assert ([a] + x)[0] == a && ([b] + y[..n])[0] == b && ([a] + x)[1..] == x && ([b] + y[..n])[1..] == y[..n];
    }
  }

  lemma RootNames(f: Fold, root: string, h: nat)
    requires IsRoot(root) && h == |Split(root, '\\')[0]|
    ensures h < |root| && PathOf(f, root) == [FoldName(f, root[..h])] + PathOf(f, root[h + 1..])
  {
    RootShape(root);
    assert root == root[..h] + ['\\'] + root[h + 1..];
    SplitAppend(root[..h], '\\', root[h + 1..]);
    SplitFree(root[..h], '\\');
    FoldNamesFirst(f, root[..h], Split(root[h + 1..], '\\'));
  }

  lemma LayoutKept(lower: Fold, head: string, root: string)
    requires KeepsBackslash(lower) && FoldName(lower, head) == FoldName(lower, root)
    ensures SameLayout(head, root)
  {
    assert |head| == |FoldName(lower, head)|;
    forall i | 0 <= i < |head|
      ensures head[i] == '\\' <==> root[i] == '\\'
    {
      assert FoldName(lower, head)[i] == FoldName(lower, root)[i];
    }
  }

  lemma LayoutRest(head: string, root: string, n: nat)
    requires SameLayout(head, root) && n <= |head|
    ensures SameLayout(head[n..], root[n..])
  {
    forall i | 0 <= i < |head[n..]|
      ensures head[n..][i] == '\\' <==> root[n..][i] == '\\'
    {
      assert head[n..][i] == head[n + i] && root[n..][i] == root[n + i];
    }
  }

  /** What such a target and the key of the root have in common, read off the texts. */
  lemma TargetMeets(f: Fold, hive: string, head: string, tail: string, root: string, h: nat)
    requires IsRoot(root) && h == |Split(root, '\\')[0]| < |root|
    requires SameLayout(head, root) && (tail != "" ==> tail[0] == '\\')
    ensures PathOf(f, root) <= FoldNames(f, [hive] + Split((head + tail)[h + 1..], '\\'))
        <==> FoldName(f, hive) == FoldName(f, root[..h]) && FoldName(f, head[h + 1..]) == FoldName(f, root[h + 1..])
    ensures |PathOf(f, root)| <= |[hive] + Split((head + tail)[h + 1..], '\\')|
  {
    hide Split, FoldName, FoldNames;
    RootNames(f, root, h);
    assert (head + tail)[h + 1..] == head[h + 1..] + tail;
    LayoutRest(head, root, h + 1);
    StartNames(f, head[h + 1..], tail, root[h + 1..]);
    var names := Split((head + tail)[h + 1..], '\\');
    FoldNamesFirst(f, hive, names);
    PrefixCons(FoldName(f, root[..h]), PathOf(f, root[h + 1..]), FoldName(f, hive), FoldNames(f, names));
  }

  /** A section accepted as within the root leads to the root's key or below it exactly when LeadsBelow says so. */
  lemma TargetWithin(same: Fold, lower: Fold, f: Fold, path: string, root: string)
    requires KeepsBackslash(lower) && IsRoot(root) && PathWithin(lower, path, root)
    ensures var target := Target(same, path);
            target.Ok? ==>
              && |PathOf(f, root)| <= |target.value|
              && (PathOf(f, root) <= FoldNames(f, target.value) <==> LeadsBelow(same, f, path, root))
  {
    hide FindHive, Split, FoldNames, TrimBackslashes;
    if path == "" || path[0] == '\\' {
      LeadingBackslash(same, path);
    } else {
      var t := TrimBackslashes(path);
      var h := |Split(root, '\\')[0]|;
      RootShape(root);
      IndexAt(root, h);
      var head, tail := WithinParts(lower, t, root);
      SpelledShape(lower, head, root, h);
      TrimmedStart(path);
      StartsAs(path, t, head, tail, h);
      TargetParts(same, path, h);
      LayoutKept(lower, head, root);
      assert t[h + 1..|root|] == head[h + 1..];
      var hive := FindHive(same, path[..h], HIVES);
      if hive.Some? {
        TargetMeets(f, hive.value, head, tail, root, h);
      }
    }
  }

  lemma StartsAs(path: string, t: string, head: string, tail: string, h: nat)
    requires t <= path && t == head + tail && h + 1 < |head|
    requires head[h] == '\\' && head[h + 1] != '\\' && '\\' !in head[..h]
    ensures h + 1 < |path| && path[h] == '\\' && path[h + 1] != '\\' && '\\' !in path[..h]
    ensures path[..h] == head[..h] == t[..h]
  {
    assert forall i :: 0 <= i < |head| ==> head[i] == t[i] == path[i];
    assert path[..h] == head[..h] == t[..h];
  }

  /** A section whose path is written like the root, as far as the root goes, leads below it. */
  lemma SpelledBelow(same: Fold, f: Fold, path: string, root: string)
    requires IsRoot(root) && root <= TrimBackslashes(path)
    requires var hive := Split(root, '\\')[0]; FindHive(same, hive, HIVES) == Some(hive)
    ensures LeadsBelow(same, f, path, root)
  {
    var t, h := TrimBackslashes(path), |Split(root, '\\')[0]|;
    RootShape(root);
    IndexAt(root, h);
    assert t[..|root|] == root;
    assert t[..h] == t[..|root|][..h] && t[h + 1..|root|] == t[..|root|][h + 1..];
  }

  // ----- what a section within the root changes

  lemma ApplyBelow(same: Fold, f: Fold, keys: Keys, k: I.ImportKey, r: Path)
    requires TakesEffect(same, k) ==> r <= FoldNames(f, Target(same, k.path).value)
    ensures ChangedOnlyBelow(keys, r, ApplyKey(f, same, keys, k).keys)
  {
    var after := ApplyKey(f, same, keys, k).keys;
    if TakesEffect(same, k) {
      var names := Target(same, k.path).value;
      var p := FoldNames(f, names);
      forall q | !(r <= q)
        ensures KeptAt(keys, r, after, q)
      {
        if p <= q {
          PrefixTransitive(r, p, q);
        } else if !k.delete {
          CreatedIn(keys, p, names, |p|, q);
          if q <= p {
            Comparable(r, q, p);
          }
        }
      }
    }
  }

  lemma ChangedBelowTwice(before: Keys, r: Path, mid: Keys, after: Keys)
    requires ChangedOnlyBelow(before, r, mid) && ChangedOnlyBelow(mid, r, after)
    ensures ChangedOnlyBelow(before, r, after)
  {
    forall q | !(r <= q)
      ensures KeptAt(before, r, after, q)
    {
      assert KeptAt(before, r, mid, q) && KeptAt(mid, r, after, q);
    }
  }

  /** However far an import of sections gets that are accepted as within the root and lead below it, it changes nothing
      outside the root. */
  lemma {:induction false} ImportWithin(same: Fold, lower: Fold, f: Fold, keys: Keys, sections: seq<I.ImportKey>,
                                        root: string)
    requires KeepsBackslash(lower) && IsRoot(root)
    requires forall i :: 0 <= i < |sections| ==> PathWithin(lower, sections[i].path, root)
    requires forall i :: 0 <= i < |sections| && TakesEffect(same, sections[i]) ==>
               LeadsBelow(same, f, sections[i].path, root)
    ensures ChangedOnlyBelow(keys, PathOf(f, root), Apply(f, same, keys, sections).0)
    decreases |sections|
  {
    if sections != [] {
      var r, first := PathOf(f, root), ApplyKey(f, same, keys, sections[0]);
      TargetWithin(same, lower, f, sections[0].path, root);
      ApplyBelow(same, f, keys, sections[0], r);
      if first.error == None {
        ImportWithin(same, lower, f, first.keys, sections[1..], root);
        ChangedBelowTwice(keys, r, first.keys, Apply(f, same, first.keys, sections[1..]).0);
      }
    }
  }

  ghost predicate Confined(same: Fold, f: Fold, keys: Keys, k: I.ImportKey, r: Path) {
    ChangedOnlyBelow(keys, r, ApplyKey(f, same, keys, k).keys)
  }

  /** A section accepted as within the root changes nothing outside it, in any registry, exactly when it leads below the
      root or is refused by the calls it makes. */
  lemma ConfinedExactly(same: Fold, lower: Fold, f: Fold, k: I.ImportKey, root: string)
    requires KeepsBackslash(lower) && IsRoot(root) && PathWithin(lower, k.path, root)
    ensures (forall keys: Keys :: IsTree(f, keys) ==> Confined(same, f, keys, k, PathOf(f, root)))
        <==> (TakesEffect(same, k) ==> LeadsBelow(same, f, k.path, root))
  {
    var r := PathOf(f, root);
    TargetWithin(same, lower, f, k.path, root);
    if TakesEffect(same, k) && !LeadsBelow(same, f, k.path, root) {
      var names := Target(same, k.path).value;
      var keys := Astray(f, same, k, names, r);
      assert !Confined(same, f, keys, k, r);
    } else {
      forall keys: Keys
        ensures Confined(same, f, keys, k, r)
      {
        ApplyBelow(same, f, keys, k, r);
      }
    }
  }

  /** A registry in which a section that leads elsewhere changes something there. */
  lemma Astray(f: Fold, same: Fold, k: I.ImportKey, names: seq<string>, r: Path) returns (keys: Keys)
    requires TakesEffect(same, k) && names == Target(same, k.path).value
    requires !(r <= FoldNames(f, names)) && |r| <= |names|
    ensures IsTree(f, keys) && !ChangedOnlyBelow(keys, r, ApplyKey(f, same, keys, k).keys)
  {
    var p := FoldNames(f, names);
    NameSettable(names);
    keys := if k.delete then Create(map[], p, names) else map[];
    CreatedTree(f, map[], p, names);
    var after := ApplyKey(f, same, keys, k).keys;
    if k.delete {
      assert p in keys && p !in after;
    } else {
      assert p in after && p !in keys && !(p <= r);
    }
    assert !KeptAt(keys, r, after, p);
  }

  // ----- a name the check takes for another one

  /** strings.ToLower on ASCII letters and on U+0130, which it makes an i. */
  function GoLower(c: char): char {
    if 'A' <= c <= 'Z' then ((c as int) + 32) as char else if c == '\U{130}' then 'i' else c
  }

  /** The upper case the registry compares names by, on ASCII letters; it keeps U+0130. */
  function RegistryUpper(c: char): char {
    if 'a' <= c <= 'z' then ((c as int) - 32) as char else c
  }

  lemma HiveFound(same: Fold, hive: string)
    requires hive == HIVES[2]
    ensures FindHive(same, hive, HIVES) == Some(hive) && '\\' !in hive && hive != ""
  {
    assert |FoldName(same, hive)| == 18 && |FoldName(same, HIVES[0])| == 17 && |FoldName(same, HIVES[1])| == 17;
    assert HIVES[1..][0] == HIVES[1] && HIVES[1..][1..][0] == HIVES[2];
  }

  lemma TwoNames(hive: string, c: char)
    requires '\\' !in hive && hive != "" && '\0' !in hive && c != '\\' && c != '\0'
    ensures Split(hive + ['\\', c], '\\') == [hive, [c]] && AreNames([hive, [c]])
  {
    assert hive + ['\\', c] == hive + ['\\'] + [c];
    SplitAppend(hive, '\\', [c]);
    SplitFree([c], '\\');
    SplitFree(hive, '\\');
  }

  lemma SpelledAlike(lower: Fold, hive: string, a: char, b: char)
    requires lower(a) == lower(b) && '\\' !in hive && hive != "" && b != '\\'
    ensures PathWithin(lower, hive + ['\\', b], hive + ['\\', a])
  {
    var path := hive + ['\\', b];
    TrimmedParts(path, |hive|);
    assert path[|hive| + 1..] == [b] && path[..|hive|] == hive;
    assert TrimBackslashes([b]) == [b];
    assert FoldName(lower, path) == FoldName(lower, hive + ['\\', a]);
  }

  /** The check accepts the key named by U+0130 within the key named i, and importing it creates a key of its own. */
  lemma DottedI(same: Fold, hive: string)
    requires hive == HIVES[2]
    ensures var root, path := hive + ['\\', 'i'], hive + ['\\', '\U{130}'];
            var r := PathOf(RegistryUpper, root);
            var after := Apply(RegistryUpper, same, map[], [I.ImportKey(path, false, [])]);
            && IsRoot(root) && PathWithin(GoLower, path, root) && !LeadsBelow(same, RegistryUpper, path, root)
            && after.1 == None && PathOf(RegistryUpper, path) in after.0 && !ChangedOnlyBelow(map[], r, after.0)
  {
    hide FoldNames, Split;
    var root, path := hive + ['\\', 'i'], hive + ['\\', '\U{130}'];
    var k := I.ImportKey(path, false, []);
    HiveFound(same, hive);
    assert '\0' !in hive;
    TwoNames(hive, 'i');
    TwoNames(hive, '\U{130}');
    TargetOfPath(same, path);
    SpelledAlike(GoLower, hive, 'i', '\U{130}');
    DottedApart(hive);
    TargetWithin(same, GoLower, RegistryUpper, path, root);
    Accepted(RegistryUpper, same, k);
    var q := PathOf(RegistryUpper, path);
    assert !KeptAt(map[], PathOf(RegistryUpper, root), Apply(RegistryUpper, same, map[], [k]).0, q);
  }

  lemma DottedApart(hive: string)
    ensures var r, q := FoldNames(RegistryUpper, [hive, ['i']]), FoldNames(RegistryUpper, [hive, ['\U{130}']]);
            !(r <= q) && !(q <= r)
  {
    var r, q := FoldNames(RegistryUpper, [hive, ['i']]), FoldNames(RegistryUpper, [hive, ['\U{130}']]);
    var i, dotted := ['i'], ['\U{130}'];
    assert r[1] == FoldName(RegistryUpper, i) && q[1] == FoldName(RegistryUpper, dotted);
    assert r[1][0] == RegistryUpper(i[0]) && q[1][0] == RegistryUpper(dotted[0]);
    assert RegistryUpper('i') == 'I' && RegistryUpper('\U{130}') == '\U{130}';
  }

  lemma Accepted(f: Fold, same: Fold, k: I.ImportKey)
    requires !k.delete && TakesEffect(same, k) && k.values == []
    ensures var after := Apply(f, same, map[], [k]);
            after.1 == None && FoldNames(f, Target(same, k.path).value) in after.0
  {
    NameSettable(Target(same, k.path).value);
    assert [k][1..] == [];
  }
}
