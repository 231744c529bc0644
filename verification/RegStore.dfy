/** The registry as the state that imports change and exports read (vfs/registry_reg_apply_windows.go,
    vfs/registry_vfs_windows.go). No other process changes it meanwhile, and its own calls fail only where stated. */
module RegStore {
  import opened Base
  import opened RegFormat
  import opened Registry
  import opened RegTransfer
  import opened RegWithin
  import Ordering
  import X = RegExport
  import I = RegImport
  import R = RegRoundTrip

  datatype ImportError =
    | OnlyAHive | NoSuchHive | Unreadable(text: I.RegError) | Outside(path: string) | Refused(cause: ApplyError)

  /** The path of the first section that is not within the root. */
  function FirstOutside(lower: Fold, sections: seq<I.ImportKey>, root: string): Option<string>
    decreases |sections|
  {
    if sections == [] then None
    else if !PathWithin(lower, sections[0].path, root) then Some(sections[0].path)
    else FirstOutside(lower, sections[1..], root)
  }

  lemma {:induction false} AllWithin(lower: Fold, sections: seq<I.ImportKey>, root: string)
    ensures FirstOutside(lower, sections, root) == None
        <==> forall i :: 0 <= i < |sections| ==> PathWithin(lower, sections[i].path, root)
    decreases |sections|
  {
    if sections != [] {
      AllWithin(lower, sections[1..], root);
      forall i | 0 < i < |sections|
        ensures sections[i] == sections[1..][i - 1]
      {
      }
    }
  }

  predicate AllLead(same: Fold, f: Fold, sections: seq<I.ImportKey>, root: string) {
    forall i :: 0 <= i < |sections| && TakesEffect(same, sections[i]) ==> LeadsBelow(same, f, sections[i].path, root)
  }

  lemma ImportConfined(same: Fold, lower: Fold, f: Fold, keys: Keys, sections: seq<I.ImportKey>, root: string)
    requires FirstOutside(lower, sections, root) == None
    ensures IsRoot(root) && KeepsBackslash(lower) && AllLead(same, f, sections, root) ==>
              ChangedOnlyBelow(keys, PathOf(f, root), Apply(f, same, keys, sections).0)
  {
    AllWithin(lower, sections, root);
    if IsRoot(root) && KeepsBackslash(lower) && AllLead(same, f, sections, root) {
      ImportWithin(same, lower, f, keys, sections, root);
    }
  }

  function RootOf(hive: string, segments: seq<string>): string
    requires segments != []
  {
    Join([hive] + segments[1..], '\\')
  }

  predicate HasSubkeys(keys: Keys, p: Path) {
    exists q :: q in keys && q != p && p <= q
  }

  method ToList<T>(s: set<T>) returns (r: seq<T>)
    ensures forall x :: x in r <==> x in s
    ensures forall i, j :: 0 <= i < j < |r| ==> r[i] != r[j]
  {
    r := [];
    var rest := s;
    while rest != {}
      invariant forall x :: x in s <==> x in r || x in rest
      invariant forall x :: x in rest ==> x !in r
      invariant forall i, j :: 0 <= i < j < |r| ==> r[i] != r[j]
      decreases rest
    {
      var x :| x in rest;
      r := r + [x];
      rest := rest - {x};
    }
  }

  lemma FirstApplied(f: Fold, values: map<string, Value>, lines: seq<I.ImportValue>)
    requires lines != [] && NoNul(lines[0].name)
    ensures ApplyValues(f, values, UpToNul(lines))
         == ApplyValues(f, Changed(f, values, lines[0]), UpToNul(lines[1..]))
  {
    assert UpToNul(lines)[0] == lines[0] && UpToNul(lines)[1..] == UpToNul(lines[1..]);
  }

  lemma UpToNulAll(lines: seq<I.ImportValue>)
    ensures |UpToNul(lines)| < |lines| <==> !AreSettable(lines)
  {
    UpToNulSettable(lines);
  }

  class Store {
    /** How the registry folds names, how hive names are compared, and how ImportContent folds paths. */
    const fold: Fold
    const same: Fold
    const lower: Fold
    var keys: Keys

    ghost predicate Valid()
      reads this
    {
      IsTree(fold, keys)
    }

    constructor (fold: Fold, same: Fold, lower: Fold)
      ensures Valid() && keys == map[]
      ensures this.fold == fold && this.same == same && this.lower == lower
    {
      this.fold, this.same, this.lower := fold, same, lower;
      keys := map[];
    }

    // ----- importing

    /** Sets and deletes values line by line, up to the first name with a NUL in it, which no call takes. */
    method ApplyRegValues(p: Path, lines: seq<I.ImportValue>) returns (ok: bool)
      requires p in keys
      modifies this`keys
      ensures keys == old(keys)[p := old(keys)[p].(values := ApplyValues(fold, old(keys)[p].values, UpToNul(lines)))]
      ensures ok == AreSettable(lines)
    {
      for i := 0 to |lines|
        invariant p in keys && keys == old(keys)[p := old(keys)[p].(values := keys[p].values)]
        invariant ApplyValues(fold, keys[p].values, UpToNul(lines[i..]))
               == ApplyValues(fold, old(keys)[p].values, UpToNul(lines))
        invariant forall j :: 0 <= j < i ==> NoNul(lines[j].name)
      {
        var v := lines[i];
        assert lines[i..][0] == v && lines[i..][1..] == lines[i + 1..];
        if !NoNul(v.name) {
          return false;
        }
        FirstApplied(fold, keys[p].values, lines[i..]);
        var values := keys[p].values;
        values := if v.DeleteValue? then values - {FoldName(fold, v.name)}
                  else SetValue(fold, values, v.name, v.kind, v.data);
        keys := keys[p := keys[p].(values := values)];
      }
      ok := true;
    }

    /** RegDeleteKey: a key with subkeys is not removed. */
    method DeleteKey(p: Path) returns (removed: bool)
      modifies this`keys
      ensures removed == (p in old(keys) && !HasSubkeys(old(keys), p))
      ensures keys == if removed then old(keys) - {p} else old(keys)
    {
      removed := p in keys && !HasSubkeys(keys, p);
      if removed {
        keys := keys - {p};
      }
    }

    /** deleteRegistryTree: removes a key with everything below it, the deepest keys first. */
    method DeleteRegistryTree(p: Path) returns (found: bool)
      requires Valid() && p != []
      modifies this`keys
      ensures Valid()
      ensures keys == Without(old(keys), p) && found == (p in old(keys))
      decreases |Below(keys, p)|
    {
      if p !in keys {
        NothingBelow(fold, keys, p);
        return false;
      }
      var names := ToList(ChildNames(keys, p));
      for i := 0 to |names|
        invariant Valid()
        invariant IsPart(keys, old(keys), p) && NoneThere(fold, keys, p, names, i)
      {
        var c := Child(fold, p, names[i]);
        FewerBelow(old(keys), keys, p, c);
        PartWithout(fold, keys, old(keys), p, names, i);
        var _ := DeleteRegistryTree(c);
      }
      NoneLeft(fold, keys, old(keys), p, names);
      WithoutTree(fold, old(keys), p);
      found := DeleteKey(p);
    }

    method ApplyRegSection(k: I.ImportKey) returns (err: Option<ApplyError>)
      requires Valid()
      modifies this`keys
      ensures Valid()
      ensures Applied(keys, err) == ApplyKey(fold, same, old(keys), k)
    {
      var names := Target(same, k.path);
      if names.Err? {
        return Some(names.error);
      }
      var p := FoldNames(fold, names.value);
      if HasNul(names.value) {
        return Some(BadName);
      }
      if k.delete {
        TargetNames(same, k.path);
        NamelessMissing(fold, keys, names.value);
        var _ := DeleteRegistryTree(p);
        return None;
      }
      if !AreNames(names.value) {
        return Some(BadName);
      }
      ApplyKeyTree(fold, same, keys, k);
      UpToNulAll(k.values);
      keys := Create(keys, p, names.value);
      var ok := ApplyRegValues(p, k.values);
      err := if ok then None else Some(BadValueName);
    }

    /** applyRegFile: section by section, up to the first that is refused. */
    method ApplyRegFile(sections: seq<I.ImportKey>) returns (err: Option<ApplyError>)
      requires Valid()
      modifies this`keys
      ensures Valid()
      ensures (keys, err) == Apply(fold, same, old(keys), sections)
    {
      for i := 0 to |sections|
        invariant Valid()
        invariant Apply(fold, same, keys, sections[i..]) == Apply(fold, same, old(keys), sections)
      {
        assert sections[i..][0] == sections[i] && sections[i..][1..] == sections[i + 1..];
        err := ApplyRegSection(sections[i]);
        if err.Some? {
          return;
        }
      }
      err := None;
    }

    method IsWithin(sections: seq<I.ImportKey>, root: string) returns (outside: Option<string>)
      ensures outside == FirstOutside(lower, sections, root)
    {
      for i := 0 to |sections|
        invariant FirstOutside(lower, sections[i..], root) == FirstOutside(lower, sections, root)
      {
        assert sections[i..][0] == sections[i] && sections[i..][1..] == sections[i + 1..];
        if !PathWithin(lower, sections[i].path, root) {
          return Some(sections[i].path);
        }
      }
      outside := None;
    }

    /** ImportContent: the text a key was edited as replaces nothing outside that key, and a text that cannot be read or
        names another branch changes nothing at all. */
    method ImportContent(segments: seq<string>, content: seq<Byte>) returns (err: Option<ImportError>)
      requires Valid()
      modifies this`keys
      ensures Valid()
      ensures err.Some? && !err.value.Refused? ==> keys == old(keys)
      ensures |segments| >= 2 && FindHive(same, segments[0], HIVES).Some? && I.Decode(content).Ok? ==>
                var root := RootOf(FindHive(same, segments[0], HIVES).value, segments);
                var sections := I.Decode(content).value;
                var outside := FirstOutside(lower, sections, root);
                var (after, refused) := Apply(fold, same, old(keys), sections);
                && (outside.Some? ==> err == Some(Outside(outside.value)))
                && (outside.None? ==>
                      keys == after && err == if refused.Some? then Some(Refused(refused.value)) else None)
                && (IsRoot(root) && KeepsBackslash(lower) && AllLead(same, fold, sections, root) ==>
                      ChangedOnlyBelow(old(keys), PathOf(fold, root), keys))
      ensures |segments| < 2 ==> err == Some(OnlyAHive)
      ensures |segments| >= 2 && FindHive(same, segments[0], HIVES) == None ==> err == Some(NoSuchHive)
      ensures |segments| >= 2 && FindHive(same, segments[0], HIVES).Some? && I.Decode(content).Err? ==>
                err == Some(Unreadable(I.Decode(content).error))
    {
      if |segments| < 2 {
        return Some(OnlyAHive);
      }
      var hive := FindHive(same, segments[0], HIVES);
      if hive == None {
        return Some(NoSuchHive);
      }
      var root := RootOf(hive.value, segments);
      var sections := I.DecodeRegFile(content);
      if sections.Err? {
        return Some(Unreadable(sections.error));
      }
      var outside := IsWithin(sections.value, root);
      if outside.Some? {
        return Some(Outside(outside.value));
      }
      ImportConfined(same, lower, fold, keys, sections.value, root);
      var refused := ApplyRegFile(sections.value);
      err := if refused.Some? then Some(Refused(refused.value)) else None;
    }

    // ----- exporting

    method ExportRegistryValues(p: Path) returns (out: seq<X.ExportValue>)
      requires Valid() && p in keys
      ensures AreFiled(fold, keys[p].values) && out == ExportValues(fold, keys[p].values)
    {
      assert IsFiled(fold, p, keys[p]);
      var values := keys[p].values;
      var listed := ToList(ValueNames(values));
      var names := Ordering.SortStrings(listed);
      assert Ordering.Elements(listed) == ValueNames(values);
      ValueNamesFiled(fold, values);
      out := [];
      for i := 0 to |names|
        invariant |out| == i
        invariant forall j :: 0 <= j < i ==> out[j] == ExportValuesNamed(fold, values, names)[j]
      {
        var v := values[FoldName(fold, names[i])];
        out := out + [X.ExportValue(v.name, v.kind, v.data)];
      }
    }

    /** exportRegistryKey: appends the key and then its subkeys, in the order of their names. */
    method ExportRegistryKey(p: Path, path: string, out: seq<X.ExportKey>, depth: nat)
      returns (ok: bool, all: seq<X.ExportKey>)
      requires Valid() && p in keys
      ensures After(out, ExportKey(fold, keys, p, path, depth)) == if ok then Keys(all) else TooDeep
      decreases MAX_DEPTH - depth, 2
    {
      if depth > MAX_DEPTH {
        return false, out;
      }
      var values := ExportRegistryValues(p);
      all := out + [X.ExportKey(path, values)];
      var names := SubkeyNames(p);
      AfterKey(fold, keys, p, path, depth, out);
      ok, all := ExportSubkeys(p, path, names, all, depth);
    }

    method SubkeyNames(p: Path) returns (names: seq<string>)
      requires Valid()
      ensures names == Ordering.Sorted(ChildNames(keys, p)) && AreChildren(keys, p, names)
    {
      var listed := ToList(ChildNames(keys, p));
      names := Ordering.SortStrings(listed);
      assert Ordering.Elements(listed) == ChildNames(keys, p);
      SortedNames(keys, p, names);
    }

    method ExportSubkeys(p: Path, path: string, names: seq<string>, out: seq<X.ExportKey>, depth: nat)
      returns (ok: bool, all: seq<X.ExportKey>)
      requires Valid() && AreChildren(keys, p, names) && depth <= MAX_DEPTH
      ensures After(out, ExportChildren(fold, keys, p, path, names, depth)) == if ok then Keys(all) else TooDeep
      decreases MAX_DEPTH - depth, 1
    {
      all := out;
      ghost var goal := After(out, ExportChildren(fold, keys, p, path, names, depth));
      var rest := names;
      while rest != []
        invariant AreChildren(keys, p, rest)
        invariant After(all, ExportChildren(fold, keys, p, path, rest, depth)) == goal
        decreases |rest|
      {
        var name := rest[0];
        RestAreChildren(keys, p, rest);
        ChildKnown(fold, keys, p, name);
        AfterFirst(fold, keys, p, path, rest, depth, all);
        ok, all := ExportRegistryKey(Child(fold, p, name), path + "\\" + name, all, depth + 1);
        if !ok {
          return;
        }
        rest := rest[1..];
      }
      ok := true;
    }
  }

  // ----- the export as it is appended to what is there

  function After(out: seq<X.ExportKey>, e: Exported): Exported {
    if e.TooDeep? then TooDeep else Keys(out + e.keys)
  }

  ghost predicate AreChildren(keys: Keys, p: Path, names: seq<string>) {
    forall i :: 0 <= i < |names| ==> names[i] in ChildNames(keys, p)
  }

  lemma RestAreChildren(keys: Keys, p: Path, names: seq<string>)
    requires AreChildren(keys, p, names) && names != []
    ensures names[0] in ChildNames(keys, p) && AreChildren(keys, p, names[1..])
  {
  }

  lemma SortedNames(keys: Keys, p: Path, names: seq<string>)
    requires names == Ordering.Sorted(ChildNames(keys, p))
    ensures AreChildren(keys, p, names)
  {
    Ordering.SortedElements(ChildNames(keys, p));
    assert forall i :: 0 <= i < |names| ==> names[i] in names;
  }

  lemma AfterKey(f: Fold, keys: Keys, p: Path, path: string, depth: nat, out: seq<X.ExportKey>)
    requires IsTree(f, keys) && p in keys && depth <= MAX_DEPTH
    ensures AreFiled(f, keys[p].values)
    ensures var names := Ordering.Sorted(ChildNames(keys, p));
            AreChildren(keys, p, names)
            && After(out, ExportKey(f, keys, p, path, depth))
               == After(out + [X.ExportKey(path, ExportValues(f, keys[p].values))],
                        ExportChildren(f, keys, p, path, names, depth))
  {
    assert IsFiled(f, p, keys[p]);
    var names := Ordering.Sorted(ChildNames(keys, p));
    SortedNames(keys, p, names);
    var below := ExportChildren(f, keys, p, path, names, depth);
    if below.Keys? {
      Assoc(out, [X.ExportKey(path, ExportValues(f, keys[p].values))], below.keys);
    }
  }

  lemma AfterFirst(f: Fold, keys: Keys, p: Path, path: string, names: seq<string>, depth: nat, all: seq<X.ExportKey>)
    requires IsTree(f, keys) && AreChildren(keys, p, names) && names != [] && depth <= MAX_DEPTH
    requires Child(f, p, names[0]) in keys && AreChildren(keys, p, names[1..])
    ensures var first := After(all, ExportKey(f, keys, Child(f, p, names[0]), path + "\\" + names[0], depth + 1));
            After(all, ExportChildren(f, keys, p, path, names, depth))
            == if first.TooDeep? then TooDeep
               else After(first.keys, ExportChildren(f, keys, p, path, names[1..], depth))
  {
    var first := ExportKey(f, keys, Child(f, p, names[0]), path + "\\" + names[0], depth + 1);
    var rest := ExportChildren(f, keys, p, path, names[1..], depth);
    if first.Keys? && rest.Keys? {
      Assoc(all, first.keys, rest.keys);
    }
  }

  /** What is left of a tree while the keys below p are removed: p itself and every key that is not below it. */
  ghost predicate IsPart(keys: Keys, before: Keys, p: Path) {
    && (forall q :: q in keys ==> q in before && keys[q] == before[q])
    && (forall q :: q in before && (q == p || !(p <= q)) ==> q in keys)
  }

  ghost predicate NoneThere(f: Fold, keys: Keys, p: Path, names: seq<string>, n: nat)
    requires n <= |names|
  {
    forall j :: 0 <= j < n ==> Child(f, p, names[j]) !in keys
  }

  /** No key has a path with an empty name in it. */
  lemma NamelessMissing(f: Fold, keys: Keys, names: seq<string>)
    requires IsTree(f, keys) && names != []
    requires !HasNul(names) && forall i :: 0 <= i < |names| ==> '\\' !in names[i]
    ensures !AreNames(names) ==> Without(keys, FoldNames(f, names)) == keys
  {
    var p := FoldNames(f, names);
    if i :| 0 <= i < |names| && !IsName(names[i]) {
      assert p[i] == FoldName(f, names[i]) == "";
      forall q | q in keys
        ensures !(p <= q)
      {
        if p <= q {
          PartNamed(f, keys, q, i);
        }
      }
    }
  }

  lemma PartNamed(f: Fold, keys: Keys, q: Path, i: nat)
    requires IsTree(f, keys) && q in keys && i < |q|
    ensures q[i] != ""
  {
    AncestorKnown(f, keys, q, i + 1);
    assert IsFiled(f, q[..i + 1], keys[q[..i + 1]]);
  }

  lemma HiveNames(hive: string)
    requires hive in HIVES
    ensures '\\' !in hive
  {
    assert '\\' !in HIVES[0];
    assert '\\' !in HIVES[1];
    assert '\\' !in HIVES[2];
    assert '\\' !in HIVES[3];
    assert '\\' !in HIVES[4];
  }

  lemma TargetNames(same: Fold, path: string)
    requires Target(same, path).Ok?
    ensures var names := Target(same, path).value; forall i :: 0 <= i < |names| ==> '\\' !in names[i]
  {
    hide FindHive, IndexOf, TrimBackslashes, Split;
    var cut := IndexOf(path, '\\');
    FindHiveKnown(same, path[..cut], HIVES);
    HiveNames(FindHive(same, path[..cut], HIVES).value);
    JoinSplit(TrimBackslashes(if cut < |path| then path[cut + 1..] else ""), '\\');
  }

  lemma AboveKnown(f: Fold, keys: Keys, p: Path, q: Path)
    requires IsTree(f, keys) && q in keys && p <= q && p != []
    ensures p in keys
  {
    AncestorKnown(f, keys, q, |p|);
    assert q[..|p|] == p;
  }

  lemma NothingBelow(f: Fold, keys: Keys, p: Path)
    requires IsTree(f, keys) && p != [] && p !in keys
    ensures Without(keys, p) == keys
  {
    forall q | q in keys
      ensures !(p <= q)
    {
      if p <= q {
        AboveKnown(f, keys, p, q);
      }
    }
  }

  lemma FewerBelow(before: Keys, keys: Keys, p: Path, c: Path)
    requires p in before && p < c
    requires forall q :: q in keys ==> q in before
    ensures |Below(keys, c)| < |Below(before, p)|
  {
    forall q | q in Below(keys, c)
      ensures q in Below(before, p) && q != p
    {
      PrefixTransitive(p, c, q);
    }
    SmallerSet(Below(keys, c), Below(before, p), p);
  }

  lemma PartWithout(f: Fold, keys: Keys, before: Keys, p: Path, names: seq<string>, i: nat)
    requires IsPart(keys, before, p) && i < |names| && NoneThere(f, keys, p, names, i)
    ensures var left := Without(keys, Child(f, p, names[i]));
            IsPart(left, before, p) && NoneThere(f, left, p, names, i + 1)
  {
    var c := Child(f, p, names[i]);
    forall q | q in before && (q == p || !(p <= q))
      ensures !(c <= q)
    {
      if c <= q {
        PrefixTransitive(p, c, q);
      }
    }
    assert c <= c;
  }

  lemma SubkeyLeft(f: Fold, keys: Keys, before: Keys, p: Path, names: seq<string>, q: Path) returns (j: nat)
    requires IsTree(f, keys) && IsPart(keys, before, p)
    requires forall x :: x in names <==> x in ChildNames(before, p)
    requires q in keys && p <= q && q != p
    ensures j < |names| && Child(f, p, names[j]) in keys
  {
    var name := BelowSubkey(f, keys, p, q);
    ChildKnown(f, keys, p, name);
    assert name in ChildNames(before, p);
    j :| 0 <= j < |names| && names[j] == name;
  }

  /** With all subkeys of p gone, p is the last key at or below p. */
  lemma NoneLeft(f: Fold, keys: Keys, before: Keys, p: Path, names: seq<string>)
    requires IsTree(f, keys) && IsPart(keys, before, p) && p in before
    requires forall x :: x in names <==> x in ChildNames(before, p)
    requires NoneThere(f, keys, p, names, |names|)
    ensures !HasSubkeys(keys, p) && keys - {p} == Without(before, p)
  {
    forall q | q in keys && p <= q && q != p
      ensures exists j :: 0 <= j < |names| && Child(f, p, names[j]) in keys
    {
      var j := SubkeyLeft(f, keys, before, p, names, q);
    }
    assert forall q :: q in keys && p <= q ==> q == p;
  }

  // ----- from the tree to bytes and back

  lemma FoldedBelow(lower: Fold, root: string, tail: string)
    requires KeepsBackslash(lower)
    ensures FoldName(lower, root) + "\\" <= FoldName(lower, root + ['\\'] + tail)
  {
    assert FoldName(lower, root + ['\\'] + tail) == FoldName(lower, root) + "\\" + FoldName(lower, tail);
  }

  /** A path spelled like the root and below it is within the root. */
  lemma SpelledWithin(lower: Fold, path: string, root: string)
    requires AreNames(Split(path, '\\')) && Split(root, '\\') <= Split(path, '\\') && KeepsBackslash(lower)
    ensures PathWithin(lower, path, root)
  {
    var names, above := Split(path, '\\'), Split(root, '\\');
    JoinSplit(path, '\\');
    JoinSplit(root, '\\');
    JoinEnds(names);
    TrimBackslashesStop(path);
    var rest := names[|above|..];
    assert names == above + rest;
    if rest == [] {
      assert names == above;
    } else {
      JoinTwo(above, '\\', rest);
      FoldedBelow(lower, root, Join(rest, '\\'));
    }
  }

  lemma ListedWithin(f: Fold, lower: Fold, keys: Keys, p: Path, out: seq<X.ExportKey>, root: string)
    requires IsTree(f, keys) && IsListing(f, keys, out, Split(root, '\\'), Below(keys, p)) && KeepsBackslash(lower)
    ensures FirstOutside(lower, R.ReadKeys(out), root) == None
  {
    var sections := R.ReadKeys(out);
    AllWithin(lower, sections, root);
    forall i | 0 <= i < |sections|
      ensures PathWithin(lower, sections[i].path, root)
    {
      assert ListsKey(f, keys, out[i], Split(root, '\\'), Below(keys, p));
      SpelledWithin(lower, out[i].path, root);
    }
  }

  /** The bytes a key is opened for editing as, saved as they are: they are read, accepted as within the key and applied
      in full, and the registry is as before but for how the text values of that key and below it end. */
  lemma UneditedExport(f: Fold, same: Fold, lower: Fold, keys: Keys, p: Path, root: string)
    requires IsTree(f, keys) && p in keys && PathOf(f, root) == p && KeepsBackslash(lower)
    requires IsRoot(root) && var hive := Split(root, '\\')[0]; FindHive(same, hive, HIVES) == Some(hive)
    requires ExportKey(f, keys, p, root, 0).Keys? && R.Writable(ExportKey(f, keys, p, root, 0).keys)
    ensures var read := I.Decode(X.FileBytes(ExportKey(f, keys, p, root, 0).keys));
            && read.Ok? && FirstOutside(lower, read.value, root) == None
            && Apply(f, same, keys, read.value)
               == ((map q | q in keys :: if p <= q then Normalised(keys[q]) else keys[q]), None)
  {
    var out := ExportKey(f, keys, p, root, 0).keys;
    R.RoundTrip(out);
    ExportListed(f, keys, p, root, 0);
    ListedWithin(f, lower, keys, p, out, root);
    ListedImport(f, same, keys, p, out, Split(root, '\\'), keys);
    ReimportSame(f, keys, p, Apply(f, same, keys, R.ReadKeys(out)).0);
  }
}
