/** Exporting a key with all its subkeys (exportRegistryKey, vfs/registry_vfs_windows.go) and importing the export into
    any registry (vfs/registry_reg_apply_windows.go). */
module RegTransfer {
  import opened Base
  import opened RegFormat
  import opened Registry
  import opened RegTree
  import opened Ordering
  import X = RegExport
  import R = RegRoundTrip

  // ----- what is exported

  /** registryExportMaxDepth */
  const MAX_DEPTH: nat := 512

  datatype Exported = Keys(keys: seq<X.ExportKey>) | TooDeep

  function ChildNames(keys: Keys, p: Path): set<string> {
    set q | q in keys && |q| == |p| + 1 && p <= q :: keys[q].name
  }

  function ValueNames(values: map<string, Value>): set<string> {
    set n | n in values :: values[n].name
  }

  ghost function ExportValuesNamed(f: Fold, values: map<string, Value>, names: seq<string>): seq<X.ExportValue>
    requires forall i :: 0 <= i < |names| ==> FoldName(f, names[i]) in values
  {
    seq(|names|, i requires 0 <= i < |names| =>
      var v := values[FoldName(f, names[i])];
      X.ExportValue(v.name, v.kind, v.data))
  }

  lemma ValueNamesFiled(f: Fold, values: map<string, Value>)
    requires AreFiled(f, values)
    ensures forall i :: 0 <= i < |Sorted(ValueNames(values))| ==> FoldName(f, Sorted(ValueNames(values))[i]) in values
  {
    SortedElements(ValueNames(values));
    forall i | 0 <= i < |Sorted(ValueNames(values))|
      ensures FoldName(f, Sorted(ValueNames(values))[i]) in values
    {
      assert Sorted(ValueNames(values))[i] in Sorted(ValueNames(values));
    }
  }

  /** The values of a key in the order of their names. */
  ghost function ExportValues(f: Fold, values: map<string, Value>): seq<X.ExportValue>
    requires AreFiled(f, values)
  {
    ValueNamesFiled(f, values);
    ExportValuesNamed(f, values, Sorted(ValueNames(values)))
  }

  function Child(f: Fold, p: Path, name: string): Path {
    p + [FoldName(f, name)]
  }

  lemma ChildKnown(f: Fold, keys: Keys, p: Path, name: string)
    requires IsTree(f, keys) && name in ChildNames(keys, p)
    ensures Child(f, p, name) in keys && keys[Child(f, p, name)].name == name
  {
    var q :| q in keys && |q| == |p| + 1 && p <= q && keys[q].name == name;
    assert IsFiled(f, q, keys[q]);
    assert q == p + [q[|p|]];
  }

  /** The key at p under the path it is written with, then its subkeys, each in the order of their names. */
  ghost function ExportKey(f: Fold, keys: Keys, p: Path, path: string, depth: nat): Exported
    requires IsTree(f, keys) && p in keys
    decreases MAX_DEPTH + 1 - depth, 0, 0
  {
    if depth > MAX_DEPTH then TooDeep
    else
      assert IsFiled(f, p, keys[p]);
      SortedElements(ChildNames(keys, p));
      assert forall i :: 0 <= i < |Sorted(ChildNames(keys, p))| ==>
                           Sorted(ChildNames(keys, p))[i] in Sorted(ChildNames(keys, p));
      match ExportChildren(f, keys, p, path, Sorted(ChildNames(keys, p)), depth)
      case Keys(below) => Keys([X.ExportKey(path, ExportValues(f, keys[p].values))] + below)
      case TooDeep => TooDeep
  }

  ghost function ExportChildren(f: Fold, keys: Keys, p: Path, path: string, names: seq<string>, depth: nat): Exported
    requires IsTree(f, keys) && depth <= MAX_DEPTH
    requires forall i :: 0 <= i < |names| ==> names[i] in ChildNames(keys, p)
    decreases MAX_DEPTH + 1 - (depth + 1), 1, |names|
  {
    if names == [] then Keys([])
    else
      ChildKnown(f, keys, p, names[0]);
      match ExportKey(f, keys, Child(f, p, names[0]), path + "\\" + names[0], depth + 1)
      case TooDeep => TooDeep
      case Keys(first) =>
        match ExportChildren(f, keys, p, path, names[1..], depth)
        case TooDeep => TooDeep
        case Keys(rest) => Keys(first + rest)
  }

  // ----- an export lists every key at or below the exported one, once

  function PathOf(f: Fold, path: string): Path {
    FoldNames(f, Split(path, '\\'))
  }

  ghost function Below(keys: Keys, p: Path): set<Path> {
    set q | q in keys && p <= q
  }

  ghost function BelowAll(f: Fold, keys: Keys, p: Path, names: seq<string>): set<Path> {
    if names == [] then {} else Below(keys, Child(f, p, names[0])) + BelowAll(f, keys, p, names[1..])
  }

  /** The exported key, named below the names above, stands for a key of the region, with exactly that key's values. */
  ghost predicate ListsKey(f: Fold, keys: Keys, e: X.ExportKey, above: seq<string>, region: set<Path>)
    requires IsTree(f, keys)
  {
    var q := PathOf(f, e.path);
    && q in region && q in keys && IsFiled(f, q, keys[q])
    && AreNames(Split(e.path, '\\')) && above <= Split(e.path, '\\')
    && e.values == ExportValues(f, keys[q].values)
  }

  /** The export stands for the keys of the region, each of them once. */
  ghost predicate IsListing(f: Fold, keys: Keys, out: seq<X.ExportKey>, above: seq<string>, region: set<Path>)
    requires IsTree(f, keys)
  {
    && (forall i :: 0 <= i < |out| ==> ListsKey(f, keys, out[i], above, region))
    && (forall i, j :: 0 <= i < j < |out| ==> PathOf(f, out[i].path) != PathOf(f, out[j].path))
    && (forall q :: q in region ==> exists i :: 0 <= i < |out| && PathOf(f, out[i].path) == q)
  }

  lemma ListsMore(f: Fold, keys: Keys, e: X.ExportKey, above: seq<string>, few: set<Path>, many: set<Path>)
    requires IsTree(f, keys) && ListsKey(f, keys, e, above, few) && few <= many
    ensures ListsKey(f, keys, e, above, many) && PathOf(f, e.path) in few
  {
  }

  lemma ListingJoined(f: Fold, keys: Keys, above: seq<string>, a: seq<X.ExportKey>, regionA: set<Path>,
                      b: seq<X.ExportKey>, regionB: set<Path>)
    requires IsTree(f, keys) && regionA !! regionB
    requires IsListing(f, keys, a, above, regionA) && IsListing(f, keys, b, above, regionB)
    ensures IsListing(f, keys, a + b, above, regionA + regionB)
  {
    hide PathOf, ListsKey;
    var out := a + b;
    forall i | 0 <= i < |out|
      ensures ListsKey(f, keys, out[i], above, regionA + regionB)
      ensures PathOf(f, out[i].path) in if i < |a| then regionA else regionB
    {
      assert out[i] == if i < |a| then a[i] else b[i - |a|];
      ListsMore(f, keys, out[i], above, if i < |a| then regionA else regionB, regionA + regionB);
    }
    forall i, j | 0 <= i < j < |out|
      ensures PathOf(f, out[i].path) != PathOf(f, out[j].path)
    {
      if j < |a| {
        assert out[i] == a[i] && out[j] == a[j];
      } else if i >= |a| {
        assert out[i] == b[i - |a|] && out[j] == b[j - |a|];
      }
    }
    forall q | q in regionA + regionB
      ensures exists i :: 0 <= i < |out| && PathOf(f, out[i].path) == q
    {
      if q in regionA {
        var i :| 0 <= i < |a| && PathOf(f, a[i].path) == q;
        assert out[i] == a[i];
      } else {
        var i :| 0 <= i < |b| && PathOf(f, b[i].path) == q;
        assert out[|a| + i] == b[i];
      }
    }
  }

  /** A key below p is at or below one of p's subkeys. */
  lemma {:induction false} AncestorKnown(f: Fold, keys: Keys, q: Path, n: nat)
    requires IsTree(f, keys) && q in keys && 1 <= n <= |q|
    ensures q[..n] in keys
    decreases |q| - n
  {
    if n == |q| {
      assert q[..n] == q;
    } else {
      AncestorKnown(f, keys, q, n + 1);
      assert HasParent(keys, q[..n + 1]);
      assert q[..n + 1][..n] == q[..n];
    }
  }

  lemma {:induction false} BelowAllMember(f: Fold, keys: Keys, p: Path, names: seq<string>, q: Path)
    ensures q in BelowAll(f, keys, p, names)
        <==> q in keys && exists i :: 0 <= i < |names| && Child(f, p, names[i]) <= q
    decreases |names|
  {
    if names != [] {
      BelowAllMember(f, keys, p, names[1..], q);
      forall i | 0 < i < |names|
        ensures names[i] == names[1..][i - 1]
      {
      }
    }
  }

  lemma BelowSubkey(f: Fold, keys: Keys, p: Path, q: Path) returns (name: string)
    requires IsTree(f, keys) && q in keys && p <= q && q != p
    ensures name in ChildNames(keys, p) && Child(f, p, name) <= q
  {
    AncestorKnown(f, keys, q, |p| + 1);
    var c := q[..|p| + 1];
    assert IsFiled(f, c, keys[c]);
    assert p == q[..|p|] == c[..|p|];
    name := keys[c].name;
    assert c == Child(f, p, name);
  }

  lemma BelowSplit(f: Fold, keys: Keys, p: Path, names: seq<string>)
    requires IsTree(f, keys) && p in keys && forall x :: x in names <==> x in ChildNames(keys, p)
    ensures Below(keys, p) == {p} + BelowAll(f, keys, p, names) && p !in BelowAll(f, keys, p, names)
  {
    forall q
      ensures q in Below(keys, p) <==> q in {p} + BelowAll(f, keys, p, names)
      ensures q in BelowAll(f, keys, p, names) ==> q != p
    {
      BelowAllMember(f, keys, p, names, q);
      if q in keys && p <= q && q != p {
        var name := BelowSubkey(f, keys, p, q);
        assert name in names;
      }
      forall i | 0 <= i < |names| && Child(f, p, names[i]) <= q
        ensures p <= q
      {
        PrefixTransitive(p, Child(f, p, names[i]), q);
      }
    }
  }

  lemma PrefixTransitive(a: Path, b: Path, c: Path)
    requires a <= b && b <= c
    ensures a <= c
  {
    assert b == c[..|b|];
    assert a == c[..|b|][..|a|] == c[..|a|];
  }

  /** Different subkeys have nothing below them in common. */
  lemma SubkeysApart(f: Fold, keys: Keys, p: Path, names: seq<string>)
    requires IsTree(f, keys) && names != []
    requires forall i :: 0 <= i < |names| ==> names[i] in ChildNames(keys, p)
    requires forall i, j :: 0 <= i < j < |names| ==> names[i] != names[j]
    ensures Below(keys, Child(f, p, names[0])) !! BelowAll(f, keys, p, names[1..])
  {
    forall q | q in Below(keys, Child(f, p, names[0]))
      ensures q !in BelowAll(f, keys, p, names[1..])
    {
      BelowAllMember(f, keys, p, names[1..], q);
      forall i | 0 <= i < |names[1..]|
        ensures !(Child(f, p, names[1..][i]) <= q)
      {
        ChildKnown(f, keys, p, names[0]);
        ChildKnown(f, keys, p, names[1 + i]);
        assert names[1..][i] == names[1 + i];
        assert Child(f, p, names[1 + i]) != Child(f, p, names[0]);
      }
    }
  }

  lemma PathChild(f: Fold, path: string, name: string)
    requires IsName(name)
    ensures Split(path + "\\" + name, '\\') == Split(path, '\\') + [name]
    ensures PathOf(f, path + "\\" + name) == Child(f, PathOf(f, path), name)
  {
    SplitAppend(path, '\\', name);
    SplitFree(name, '\\');
    assert path + "\\" + name == path + ['\\'] + name;
  }

  lemma ListingAbove(f: Fold, keys: Keys, out: seq<X.ExportKey>, above: seq<string>, name: string, region: set<Path>)
    requires IsTree(f, keys) && IsListing(f, keys, out, above + [name], region)
    ensures IsListing(f, keys, out, above, region)
  {
    forall i | 0 <= i < |out|
      ensures ListsKey(f, keys, out[i], above, region)
    {
      assert ListsKey(f, keys, out[i], above + [name], region);
      var names := Split(out[i].path, '\\');
      assert names[..|above| + 1] == above + [name];
      assert names[..|above|] == names[..|above| + 1][..|above|];
    }
  }

  lemma ListingOne(f: Fold, keys: Keys, p: Path, path: string)
    requires IsTree(f, keys) && p in keys && PathOf(f, path) == p && AreNames(Split(path, '\\'))
    requires IsFiled(f, p, keys[p])
    ensures IsListing(f, keys, [X.ExportKey(path, ExportValues(f, keys[p].values))], Split(path, '\\'), {p})
  {
    var out := [X.ExportKey(path, ExportValues(f, keys[p].values))];
    assert PathOf(f, out[0].path) == p;
  }

  /** Unless the tree is too deep, the export of a key lists it and every key below it, each once, with its values. */
  lemma {:induction false} ExportListed(f: Fold, keys: Keys, p: Path, path: string, depth: nat)
    requires IsTree(f, keys) && p in keys && PathOf(f, path) == p && AreNames(Split(path, '\\'))
    ensures var out := ExportKey(f, keys, p, path, depth);
            out.Keys? ==> IsListing(f, keys, out.keys, Split(path, '\\'), Below(keys, p))
    decreases MAX_DEPTH + 1 - depth, 0, 0
  {
    if ExportKey(f, keys, p, path, depth).Keys? {
      var names := Sorted(ChildNames(keys, p));
      SortedElements(ChildNames(keys, p));
      forall i | 0 <= i < |names|
        ensures names[i] in ChildNames(keys, p)
      {
        assert names[i] in names;
      }
      SortedDistinct(ChildNames(keys, p));
      ChildrenListed(f, keys, p, path, names, depth);
      assert IsFiled(f, p, keys[p]);
      ListingOne(f, keys, p, path);
      BelowSplit(f, keys, p, names);
      ListingJoined(f, keys, Split(path, '\\'), [X.ExportKey(path, ExportValues(f, keys[p].values))], {p},
                    ExportChildren(f, keys, p, path, names, depth).keys, BelowAll(f, keys, p, names));
    }
  }

  lemma {:induction false} ChildListed(f: Fold, keys: Keys, p: Path, path: string, name: string, depth: nat)
    requires IsTree(f, keys) && PathOf(f, path) == p && AreNames(Split(path, '\\')) && depth <= MAX_DEPTH
    requires name in ChildNames(keys, p)
    ensures Child(f, p, name) in keys
    ensures var out := ExportKey(f, keys, Child(f, p, name), path + "\\" + name, depth + 1);
            out.Keys? ==> IsListing(f, keys, out.keys, Split(path, '\\'), Below(keys, Child(f, p, name)))
    decreases MAX_DEPTH + 1 - (depth + 1), 0, 1
  {
    var c := Child(f, p, name);
    var childPath := path + "\\" + name;
    ChildKnown(f, keys, p, name);
    assert IsFiled(f, c, keys[c]);
    PathChild(f, path, name);
    ExportListed(f, keys, c, childPath, depth + 1);
    var out := ExportKey(f, keys, c, childPath, depth + 1);
    if out.Keys? {
      ListingAbove(f, keys, out.keys, Split(path, '\\'), name, Below(keys, c));
    }
  }

  lemma {:induction false} ChildrenListed(f: Fold, keys: Keys, p: Path, path: string, names: seq<string>, depth: nat)
    requires IsTree(f, keys) && PathOf(f, path) == p && AreNames(Split(path, '\\')) && depth <= MAX_DEPTH
    requires forall i :: 0 <= i < |names| ==> names[i] in ChildNames(keys, p)
    requires forall i, j :: 0 <= i < j < |names| ==> names[i] != names[j]
    ensures var out := ExportChildren(f, keys, p, path, names, depth);
            out.Keys? ==> IsListing(f, keys, out.keys, Split(path, '\\'), BelowAll(f, keys, p, names))
    decreases MAX_DEPTH + 1 - (depth + 1), 1, |names|
  {
    if names != [] && ExportChildren(f, keys, p, path, names, depth).Keys? {
      var c := Child(f, p, names[0]);
      ChildListed(f, keys, p, path, names[0], depth);
      RestDistinct(keys, p, names);
      ChildrenListed(f, keys, p, path, names[1..], depth);
      SubkeysApart(f, keys, p, names);
      ListingJoined(f, keys, Split(path, '\\'),
                    ExportKey(f, keys, c, path + "\\" + names[0], depth + 1).keys, Below(keys, c),
                    ExportChildren(f, keys, p, path, names[1..], depth).keys, BelowAll(f, keys, p, names[1..]));
    }
  }

  lemma RestDistinct(keys: Keys, p: Path, names: seq<string>)
    requires names != [] && forall i :: 0 <= i < |names| ==> names[i] in ChildNames(keys, p)
    requires forall i, j :: 0 <= i < j < |names| ==> names[i] != names[j]
    ensures forall i :: 0 <= i < |names[1..]| ==> names[1..][i] in ChildNames(keys, p)
    ensures forall i, j :: 0 <= i < j < |names[1..]| ==> names[1..][i] != names[1..][j]
  {
  }

  // ----- importing an export

  lemma {:induction false} JoinEnds(names: seq<string>)
    requires names != [] && AreNames(names)
    ensures var s := Join(names, '\\'); s != "" && s[0] != '\\' && s[|s| - 1] != '\\'
  {
    assert names[0][0] in names[0] && names[0][|names[0]| - 1] in names[0];
    if |names| > 1 {
      JoinEnds(names[1..]);
    }
  }

  /** A path made of names from a hive down is the target regImportTarget finds. */
  lemma TargetOfPath(lower: Fold, path: string)
    requires var names := Split(path, '\\');
             AreNames(names) && |names| >= 2 && FindHive(lower, names[0], HIVES) == Some(names[0])
    ensures Target(lower, path) == Ok(Split(path, '\\'))
  {
    var names := Split(path, '\\');
    var sub := Join(names[1..], '\\');
    JoinSplit(path, '\\');
    assert path == names[0] + ['\\'] + sub;
    R.IndexOfAt(names[0], '\\', sub);
    assert path[|names[0]| + 1..] == sub && path[..|names[0]|] == names[0];
    JoinEnds(names[1..]);
    TrimBackslashesStop(sub);
    SplitJoin(names[1..], '\\');
  }

  lemma TrimBackslashesStop(s: string)
    requires s != "" && s[0] != '\\' && s[|s| - 1] != '\\'
    ensures TrimBackslashes(s) == s
  {
  }

  /** What an exported value is set to. */
  function ReadOf(v: Value): seq<Byte> {
    R.ReadData(X.ExportValue(v.name, v.kind, v.data))
  }

  /** The values of a key after those of another are set on top: where a value is there already, it keeps the spelling
      of its name. */
  ghost function Merged(old_: map<string, Value>, new_: map<string, Value>): map<string, Value> {
    map n | n in old_.Keys + new_.Keys ::
      if n !in new_ then old_[n]
      else Value(if n in old_ then old_[n].name else new_[n].name, new_[n].kind, ReadOf(new_[n]))
  }

  ghost predicate DistinctNames(f: Fold, values: seq<X.ExportValue>) {
    forall i, j :: 0 <= i < j < |values| ==> FoldName(f, values[i].name) != FoldName(f, values[j].name)
  }

  /** Setting values with different names: each is set, and no other value changes. */
  lemma {:induction false} ApplySets(f: Fold, values: map<string, Value>, sets: seq<X.ExportValue>, n: string)
    requires DistinctNames(f, sets)
    ensures var after := ApplyValues(f, values, R.ReadValues(sets));
            && (forall i :: 0 <= i < |sets| && FoldName(f, sets[i].name) == n ==>
                  n in after
                  && after[n] == Value(if n in values then values[n].name else sets[i].name, sets[i].kind,
                                       R.ReadData(sets[i])))
            && ((forall i :: 0 <= i < |sets| ==> FoldName(f, sets[i].name) != n) ==>
                  (n in after <==> n in values) && (n in values ==> after[n] == values[n]))
    decreases |sets|
  {
    if sets != [] {
      var rest := sets[1..];
      var next := SetValue(f, values, sets[0].name, sets[0].kind, R.ReadData(sets[0]));
      assert R.ReadValues(sets)[0] == R.ReadValue(sets[0]) && R.ReadValues(sets)[1..] == R.ReadValues(rest);
      assert ApplyValues(f, values, R.ReadValues(sets)) == ApplyValues(f, next, R.ReadValues(rest));
      forall i | 0 < i < |sets|
        ensures sets[i] == rest[i - 1] && FoldName(f, sets[0].name) != FoldName(f, sets[i].name)
      {
      }
      ApplySets(f, next, rest, n);
    }
  }

  lemma ExportValuesDistinct(f: Fold, values: map<string, Value>)
    requires AreFiled(f, values)
    ensures DistinctNames(f, ExportValues(f, values))
    ensures forall i :: 0 <= i < |ExportValues(f, values)| ==>
              var n := FoldName(f, ExportValues(f, values)[i].name);
              n in values && ExportValues(f, values)[i] == X.ExportValue(values[n].name, values[n].kind, values[n].data)
    ensures var out := ExportValues(f, values);
            forall n :: n in values ==> exists i :: 0 <= i < |out| && FoldName(f, out[i].name) == n
  {
    var names := Sorted(ValueNames(values));
    var out := ExportValues(f, values);
    SortedDistinct(ValueNames(values));
    SortedElements(ValueNames(values));
    ValueNamesFiled(f, values);
    forall i | 0 <= i < |out|
      ensures out[i].name == names[i]
    {
      assert names[i] in names;
      var n :| n in values && values[n].name == names[i];
    }
    forall n | n in values
      ensures exists i :: 0 <= i < |out| && FoldName(f, out[i].name) == n
    {
      assert values[n].name in ValueNames(values);
      assert values[n].name in names;
      var i :| 0 <= i < |names| && names[i] == values[n].name;
      assert out[i].name == names[i];
    }
  }

  lemma ApplyExportedValue(f: Fold, before: map<string, Value>, values: map<string, Value>, n: string)
    requires AreFiled(f, values)
    ensures var after := ApplyValues(f, before, R.ReadValues(ExportValues(f, values)));
            && (n in after <==> n in Merged(before, values))
            && (n in after ==> after[n] == Merged(before, values)[n])
  {
    var sets := ExportValues(f, values);
    ExportValuesDistinct(f, values);
    ApplySets(f, before, sets, n);
    if n in values {
      var i :| 0 <= i < |sets| && FoldName(f, sets[i].name) == n;
    }
  }

  /** Setting a key's exported values on top of what a key has merges them. */
  lemma ApplyExportedValues(f: Fold, before: map<string, Value>, values: map<string, Value>)
    requires AreFiled(f, values)
    ensures ApplyValues(f, before, R.ReadValues(ExportValues(f, values))) == Merged(before, values)
  {
    forall n {
      ApplyExportedValue(f, before, values, n);
    }
  }

  function Paths(f: Fold, out: seq<X.ExportKey>): (r: seq<Path>)
    ensures |r| == |out| && forall i :: 0 <= i < |out| ==> r[i] == PathOf(f, out[i].path)
  {
    seq(|out|, i requires 0 <= i < |out| => PathOf(f, out[i].path))
  }

  /** Exported values have names that can be set. */
  lemma ExportedSettable(f: Fold, values: map<string, Value>)
    requires AreFiled(f, values)
    ensures AreSettable(R.ReadValues(ExportValues(f, values)))
  {
    ExportValuesDistinct(f, values);
    var sets := ExportValues(f, values);
    forall i | 0 <= i < |sets|
      ensures NoNul(R.ReadValues(sets)[i].name)
    {
      assert FoldName(f, sets[i].name) in values;
    }
  }

  /** A listed key is read back as a section that sets the values of that key. */
  lemma ListedSets(f: Fold, lower: Fold, keys: Keys, e: X.ExportKey, above: seq<string>, region: set<Path>)
    requires IsTree(f, keys) && ListsKey(f, keys, e, above, region)
    requires |above| >= 2 && FindHive(lower, above[0], HIVES) == Some(above[0])
    ensures Sets(f, lower, R.ReadKey(e), PathOf(f, e.path)) && PathOf(f, e.path) in region
  {
    var names := Split(e.path, '\\');
    assert names[0] == above[0] && |names| >= 2;
    TargetOfPath(lower, e.path);
    ExportedSettable(f, keys[PathOf(f, e.path)].values);
  }

  /** The sections an export is read back as set the values of the keys it lists. */
  lemma ExportedTargets(f: Fold, lower: Fold, keys: Keys, out: seq<X.ExportKey>, above: seq<string>, region: set<Path>)
    requires IsTree(f, keys) && IsListing(f, keys, out, above, region)
    requires |above| >= 2 && FindHive(lower, above[0], HIVES) == Some(above[0])
    ensures SetEach(f, lower, R.ReadKeys(out), Paths(f, out))
    ensures forall q :: q in Paths(f, out) <==> q in region
  {
    var ks := R.ReadKeys(out);
    forall i | 0 <= i < |ks|
      ensures Sets(f, lower, ks[i], Paths(f, out)[i]) && Paths(f, out)[i] in region
    {
      ListedSets(f, lower, keys, out[i], above, region);
      assert ks[i] == R.ReadKey(out[i]);
    }
    forall q | q in region
      ensures q in Paths(f, out)
    {
      var i :| 0 <= i < |out| && PathOf(f, out[i].path) == q;
      assert Paths(f, out)[i] == q;
    }
  }

  /** The keys on the way to a key and all keys below it. */
  lemma WayDown(f: Fold, keys: Keys, p: Path, targets: seq<Path>, q: Path)
    requires IsTree(f, keys) && p in keys && forall t :: t in targets <==> t in Below(keys, p)
    ensures IsOnTheWay(targets, q) <==> q in Below(keys, p) || (q != [] && q <= p)
  {
    if q in Below(keys, p) {
      assert IsFiled(f, q, keys[q]) && q <= q;
    }
    if q <= p {
      assert p in targets;
    }
    forall t | t in targets && q != [] && q <= t
      ensures q in Below(keys, p) || q <= p
    {
      Comparable(p, q, t);
      AncestorKnown(f, keys, t, |q|);
    }
  }

  lemma Comparable(p: Path, q: Path, t: Path)
    requires p <= t && q <= t
    ensures p <= q || q <= p
    ensures q == t[..|q|]
  {
    if |p| <= |q| {
      assert q[..|p|] == t[..|p|];
    } else {
      assert p[..|q|] == t[..|q|];
    }
  }

  /** What importing the export of keys at and below p into the registry before makes of it. */
  ghost predicate IsImported(keys: Keys, p: Path, before: Keys, after: Keys) {
    && (forall q :: q in after <==> q in before || q in Below(keys, p) || (q != [] && q <= p))
    && (forall q :: q in before && q in after ==> after[q].name == before[q].name)
    && (forall q :: q in Below(keys, p) && q in after ==>
          after[q].values == Merged(ValuesAt(before, q), keys[q].values))
    && (forall q :: q in after && q !in Below(keys, p) ==> after[q].values == ValuesAt(before, q))
  }

  /** Importing the export of a key into any registry never fails and gives every exported key exactly its exported
      values on top of what it had there; no other key or value changes, and the only further keys are the missing ones
      above the imported key, which get no values. */
  lemma ImportExport(f: Fold, lower: Fold, keys: Keys, p: Path, path: string, before: Keys)
    requires IsTree(f, keys) && p in keys && PathOf(f, path) == p
    requires var names := Split(path, '\\');
             AreNames(names) && |names| >= 2 && FindHive(lower, names[0], HIVES) == Some(names[0])
    ensures var out := ExportKey(f, keys, p, path, 0);
            out.Keys? ==>
              var after := Apply(f, lower, before, R.ReadKeys(out.keys));
              after.1 == None && IsImported(keys, p, before, after.0)
  {
    if ExportKey(f, keys, p, path, 0).Keys? {
      var out := ExportKey(f, keys, p, path, 0).keys;
      ExportListed(f, keys, p, path, 0);
      ListedImport(f, lower, keys, p, out, Split(path, '\\'), before);
    }
  }

  lemma ListedImport(f: Fold, lower: Fold, keys: Keys, p: Path, out: seq<X.ExportKey>, above: seq<string>, before: Keys)
    requires IsTree(f, keys) && p in keys && IsListing(f, keys, out, above, Below(keys, p))
    requires |above| >= 2 && FindHive(lower, above[0], HIVES) == Some(above[0])
    ensures var after := Apply(f, lower, before, R.ReadKeys(out));
            after.1 == None && IsImported(keys, p, before, after.0)
  {
    var ks := R.ReadKeys(out);
    var targets := Paths(f, out);
    ExportedTargets(f, lower, keys, out, above, Below(keys, p));
    ApplySettings(f, lower, before, ks, targets);
    var after := Apply(f, lower, before, ks).0;
    forall q {
      WayDown(f, keys, p, targets, q);
    }
    forall q | q in Below(keys, p)
      ensures q in after && after[q].values == Merged(ValuesAt(before, q), keys[q].values)
    {
      ListedValues(f, keys, p, out, above, q, before, after);
    }
  }

  lemma ListedValues(f: Fold, keys: Keys, p: Path, out: seq<X.ExportKey>, above: seq<string>, q: Path, before: Keys,
                     after: Keys)
    requires IsTree(f, keys) && IsListing(f, keys, out, above, Below(keys, p)) && q in Below(keys, p)
    requires IsMerged(f, before, R.ReadKeys(out), Paths(f, out), after)
    ensures ValuesAt(after, q) == Merged(ValuesAt(before, q), keys[q].values)
  {
    var i :| 0 <= i < |out| && PathOf(f, out[i].path) == q;
    assert ListsKey(f, keys, out[i], above, Below(keys, p));
    assert R.ReadKeys(out)[i].values == R.ReadValues(ExportValues(f, keys[q].values));
    ApplyExportedValues(f, ValuesAt(before, q), keys[q].values);
  }

  /** A key with the bytes of its text values ended by exactly one NUL. */
  function Normalised(key: Key): Key {
    key.(values := map n | n in key.values :: key.values[n].(data := ReadOf(key.values[n])))
  }

  lemma MergedSame(key: Key)
    ensures Merged(key.values, key.values) == Normalised(key).values
  {
  }

  /** Importing an export into the registry it was made from changes nothing but how its text values end. */
  lemma ReimportSame(f: Fold, keys: Keys, p: Path, after: Keys)
    requires IsTree(f, keys) && p in keys && IsImported(keys, p, keys, after)
    ensures after == map q | q in keys :: if p <= q then Normalised(keys[q]) else keys[q]
  {
    forall q
      ensures q in after <==> q in keys
      ensures q in keys && q in after ==> after[q] == if p <= q then Normalised(keys[q]) else keys[q]
    {
      if q != [] && q <= p {
        AncestorKnown(f, keys, p, |q|);
        assert q == p[..|q|];
      }
      if q in keys && p <= q {
        assert q in Below(keys, p);
        MergedSame(keys[q]);
      }
    }
  }

  lemma MergedFresh(key: Key)
    ensures Merged(map[], key.values) == Normalised(key).values
  {
  }

  /** Importing an export where nothing is at or below the key yet rebuilds it with all its subkeys. */
  lemma ImportFresh(keys: Keys, p: Path, before: Keys, after: Keys)
    requires p in keys && IsImported(keys, p, before, after)
    requires forall q :: q in before ==> !(p <= q)
    ensures Below(after, p) == Below(keys, p)
    ensures forall q :: q in Below(keys, p) ==> after[q].values == Normalised(keys[q]).values
  {
    forall q | q in Below(keys, p)
      ensures q in after && after[q].values == Normalised(keys[q]).values
    {
      assert q !in before && ValuesAt(before, q) == map[];
      MergedFresh(keys[q]);
    }
    forall q | q in Below(after, p)
      ensures q in Below(keys, p)
    {
      if q <= p {
        assert q == p;
      }
    }
  }
}
