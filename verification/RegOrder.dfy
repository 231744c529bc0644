/** In which order exportRegistryKey (vfs/registry_vfs_windows.go) lists the keys, and when it gives up. */
module RegOrder {
  import opened Base
  import opened Registry
  import opened Ordering
  import opened RegTransfer
  import X = RegExport

  /** The order of names: by the first character that differs. */
  lemma {:induction false} BeforeMeans(a: string, b: string)
    ensures Before(a, b) <==> exists k: nat :: IsDifference(a, b, k)
  {
    if b != "" && a != "" && a[0] == b[0] {
      BeforeMeans(a[1..], b[1..]);
      if k: nat :| IsDifference(a[1..], b[1..], k) {
        assert a[..k + 1] == [a[0]] + a[1..][..k] && b[..k + 1] == [b[0]] + b[1..][..k];
        assert IsDifference(a, b, k + 1);
      }
      if k: nat :| IsDifference(a, b, k) {
        assert k > 0 && a[1..][..k - 1] == a[..k][1..] && b[1..][..k - 1] == b[..k][1..];
        assert IsDifference(a[1..], b[1..], k - 1);
      }
    } else if Before(a, b) {
      assert IsDifference(a, b, 0);
    } else if k: nat :| IsDifference(a, b, k) {
      if k > 0 {
        SameStart(a, b, k);
      }
    }
  }

  /** Up to k both are the same, and there a ends or is smaller. */
  predicate IsDifference(a: string, b: string, k: nat) {
    k <= |a| && k < |b| && a[..k] == b[..k] && (k == |a| || a[k] < b[k])
  }

  lemma SameStart(a: string, b: string, k: nat)
    requires IsDifference(a, b, k) && k > 0
    ensures a[0] == b[0]
  {
    assert a[..k][0] == b[..k][0];
  }

  // ----- keys

  /** A key precedes those below it; otherwise the first names that differ decide. */
  predicate Precedes(a: seq<string>, b: seq<string>) {
    b != [] && (a == [] || Before(a[0], b[0]) || (a[0] == b[0] && Precedes(a[1..], b[1..])))
  }

  function NamesOf(e: X.ExportKey): seq<string> {
    Split(e.path, '\\')
  }

  ghost predicate AreInOrder(out: seq<X.ExportKey>) {
    forall i, j :: 0 <= i < j < |out| ==> Precedes(NamesOf(out[i]), NamesOf(out[j]))
  }

  predicate IsAt(e: X.ExportKey, above: seq<string>) {
    above <= NamesOf(e)
  }

  predicate IsBelow(e: X.ExportKey, above: seq<string>, names: seq<string>) {
    IsAt(e, above) && |NamesOf(e)| > |above| && NamesOf(e)[|above|] in names
  }

  lemma {:induction false} FirstPrecedes(above: seq<string>, a: seq<string>, b: seq<string>)
    requires above <= a && above <= b && |b| > |above|
    requires |a| == |above| || Before(a[|above|], b[|above|])
    ensures Precedes(a, b)
    decreases |above|
  {
    if above != [] {
      assert a[0] == above[0] == b[0];
      assert a[1..][..|above| - 1] == above[1..] && b[1..][..|above| - 1] == above[1..];
      FirstPrecedes(above[1..], a[1..], b[1..]);
    }
  }

  lemma OrderJoined(a: seq<X.ExportKey>, b: seq<X.ExportKey>)
    requires AreInOrder(a) && AreInOrder(b)
    requires forall i, j :: 0 <= i < |a| && 0 <= j < |b| ==> Precedes(NamesOf(a[i]), NamesOf(b[j]))
    ensures AreInOrder(a + b)
  {
    hide Precedes, NamesOf;
    var out := a + b;
    forall i, j | 0 <= i < j < |out|
      ensures Precedes(NamesOf(out[i]), NamesOf(out[j]))
    {
      assert out[i] == if i < |a| then a[i] else b[i - |a|];
      assert out[j] == if j < |a| then a[j] else b[j - |a|];
    }
  }

  predicate Ascend(names: seq<string>) {
    forall i, j :: 0 <= i < j < |names| ==> Before(names[i], names[j])
  }

  lemma SortedChildren(keys: Keys, p: Path)
    ensures var names := Sorted(ChildNames(keys, p));
            Ascend(names) && forall i :: 0 <= i < |names| ==> names[i] in ChildNames(keys, p)
  {
    var names := Sorted(ChildNames(keys, p));
    SortedAscend(ChildNames(keys, p));
    SortedElements(ChildNames(keys, p));
    forall i | 0 <= i < |names|
      ensures names[i] in ChildNames(keys, p)
    {
      assert names[i] in names;
    }
  }

  /** An export starts with its key, and every key is listed before those below it and before those whose names come
      later. */
  lemma {:induction false} ExportInOrder(f: Fold, keys: Keys, p: Path, path: string, depth: nat)
    requires IsTree(f, keys) && p in keys
    ensures var out := ExportKey(f, keys, p, path, depth);
            out.Keys? ==>
              && out.keys != [] && out.keys[0].path == path && AreInOrder(out.keys)
              && forall i :: 0 <= i < |out.keys| ==> IsAt(out.keys[i], Split(path, '\\'))
    decreases MAX_DEPTH + 1 - depth, 0, 0
  {
    hide IsTree, Precedes, AreInOrder, Ascend;
    if ExportKey(f, keys, p, path, depth).Keys? {
      var names := Sorted(ChildNames(keys, p));
      SortedChildren(keys, p);
      ChildrenInOrder(f, keys, p, path, names, depth);
      assert IsFiled(f, p, keys[p]) by {
        IsFiledAt(f, keys, p);
      }
      var first := X.ExportKey(path, ExportValues(f, keys[p].values));
      var below := ExportChildren(f, keys, p, path, names, depth).keys;
      forall j | 0 <= j < |below|
        ensures Precedes(NamesOf(first), NamesOf(below[j]))
      {
        FirstPrecedes(Split(path, '\\'), NamesOf(first), NamesOf(below[j]));
      }
      OneInOrder(first);
      OrderJoined([first], below);
    }
  }

  lemma IsFiledAt(f: Fold, keys: Keys, p: Path)
    requires IsTree(f, keys) && p in keys
    ensures IsFiled(f, p, keys[p])
  {
  }

  lemma OneInOrder(e: X.ExportKey)
    ensures AreInOrder([e]) && AreInOrder([])
  {
  }

  lemma {:induction false} ChildrenInOrder(f: Fold, keys: Keys, p: Path, path: string, names: seq<string>, depth: nat)
    requires IsTree(f, keys) && depth <= MAX_DEPTH && Ascend(names)
    requires forall i :: 0 <= i < |names| ==> names[i] in ChildNames(keys, p)
    ensures var out := ExportChildren(f, keys, p, path, names, depth);
            out.Keys? ==>
              && AreInOrder(out.keys)
              && forall i :: 0 <= i < |out.keys| ==> IsBelow(out.keys[i], Split(path, '\\'), names)
    decreases MAX_DEPTH + 1 - (depth + 1), 1, |names|
  {
    hide IsTree, Precedes, AreInOrder;
    if names == [] {
      OneInOrder(X.ExportKey("", []));
    } else if ExportChildren(f, keys, p, path, names, depth).Keys? {
      var c := Child(f, p, names[0]);
      ChildKnown(f, keys, p, names[0]);
      IsFiledAt(f, keys, c);
      PathChild(f, path, names[0]);
      ExportInOrder(f, keys, c, path + "\\" + names[0], depth + 1);
      ChildrenInOrder(f, keys, p, path, names[1..], depth);
      GroupsInOrder(Split(path, '\\'), names, ExportKey(f, keys, c, path + "\\" + names[0], depth + 1).keys,
                    ExportChildren(f, keys, p, path, names[1..], depth).keys);
    }
  }

  /** The keys at or below the first name, and those below the others. */
  lemma GroupsInOrder(above: seq<string>, names: seq<string>, a: seq<X.ExportKey>, b: seq<X.ExportKey>)
    requires names != [] && Ascend(names) && AreInOrder(a) && AreInOrder(b)
    requires forall i :: 0 <= i < |a| ==> IsAt(a[i], above + [names[0]])
    requires forall i :: 0 <= i < |b| ==> IsBelow(b[i], above, names[1..])
    ensures AreInOrder(a + b) && forall i :: 0 <= i < |a + b| ==> IsBelow((a + b)[i], above, names)
  {
    hide Precedes, AreInOrder, Before;
    forall i | 0 <= i < |a|
      ensures IsBelow(a[i], above, names) && NamesOf(a[i])[|above|] == names[0]
    {
      FirstName(a[i], above, names[0]);
    }
    forall i | 0 <= i < |b|
      ensures IsBelow(b[i], above, names) && Before(names[0], NamesOf(b[i])[|above|])
    {
      var k :| 0 <= k < |names[1..]| && names[1..][k] == NamesOf(b[i])[|above|];
      assert names[k + 1] == NamesOf(b[i])[|above|];
    }
    forall i, j | 0 <= i < |a| && 0 <= j < |b|
      ensures Precedes(NamesOf(a[i]), NamesOf(b[j]))
    {
      FirstPrecedes(above, NamesOf(a[i]), NamesOf(b[j]));
    }
    OrderJoined(a, b);
  }

  lemma FirstName(e: X.ExportKey, above: seq<string>, name: string)
    requires IsAt(e, above + [name])
    ensures IsAt(e, above) && |NamesOf(e)| > |above| && NamesOf(e)[|above|] == name
  {
    var all := NamesOf(e);
    assert all[..|above| + 1] == above + [name];
    assert all[..|above|] == all[..|above| + 1][..|above|];
  }

  // ----- values

  /** The values of a key are listed by ascending names. */
  lemma ValuesAscend(f: Fold, values: map<string, Value>)
    requires AreFiled(f, values)
    ensures var out := ExportValues(f, values); forall i, j :: 0 <= i < j < |out| ==> Before(out[i].name, out[j].name)
  {
    hide Before;
    var names := Sorted(ValueNames(values));
    SortedAscend(ValueNames(values));
    SortedElements(ValueNames(values));
    ValueNamesFiled(f, values);
    forall i | 0 <= i < |names|
      ensures ExportValues(f, values)[i].name == names[i]
    {
      assert names[i] in names;
      var n :| n in values && values[n].name == names[i];
    }
  }

  // ----- giving up

  /** Something is that many levels below a key. */
  ghost predicate ReachesDown(keys: Keys, p: Path, levels: nat) {
    exists q :: q in keys && p <= q && |q| == |p| + levels
  }

  lemma DownOne(f: Fold, keys: Keys, p: Path, name: string, levels: nat)
    requires ReachesDown(keys, Child(f, p, name), levels)
    ensures ReachesDown(keys, p, levels + 1)
  {
    var c := Child(f, p, name);
    var q :| q in keys && c <= q && |q| == |c| + levels;
    PrefixTransitive(p, c, q);
  }

  /** An export gives up exactly when something is more than 512 levels below its key. */
  lemma {:induction false} TooDeepExactly(f: Fold, keys: Keys, p: Path, path: string, depth: nat)
    requires IsTree(f, keys) && p in keys && depth <= 513
    ensures ExportKey(f, keys, p, path, depth).TooDeep? <==> ReachesDown(keys, p, 513 - depth)
    decreases MAX_DEPTH + 1 - depth, 0, 0
  {
    if depth == 513 {
      assert p <= p;
    } else {
      var names := Sorted(ChildNames(keys, p));
      SortedChildren(keys, p);
      SortedElements(ChildNames(keys, p));
      SomeTooDeep(f, keys, p, path, names, depth);
      if ReachesDown(keys, p, 513 - depth) {
        var q :| q in keys && p <= q && |q| == |p| + 513 - depth;
        var name := BelowSubkey(f, keys, p, q);
        assert ReachesDown(keys, Child(f, p, name), 512 - depth);
        assert name in names;
      }
    }
  }

  lemma {:induction false} SomeTooDeep(f: Fold, keys: Keys, p: Path, path: string, names: seq<string>, depth: nat)
    requires IsTree(f, keys) && depth <= 512
    requires forall i :: 0 <= i < |names| ==> names[i] in ChildNames(keys, p)
    ensures ExportChildren(f, keys, p, path, names, depth).TooDeep? ==> ReachesDown(keys, p, 513 - depth)
    ensures ExportChildren(f, keys, p, path, names, depth).Keys? ==>
              forall i :: 0 <= i < |names| ==> !ReachesDown(keys, Child(f, p, names[i]), 512 - depth)
    decreases MAX_DEPTH + 1 - (depth + 1), 1, |names|
  {
    hide ReachesDown, IsTree;
    if names != [] {
      var c := Child(f, p, names[0]);
      ChildKnown(f, keys, p, names[0]);
      TooDeepExactly(f, keys, c, path + "\\" + names[0], depth + 1);
      if ReachesDown(keys, c, 512 - depth) {
        DownOne(f, keys, p, names[0], 512 - depth);
      }
      SomeTooDeep(f, keys, p, path, names[1..], depth);
      forall i | 0 < i < |names|
        ensures names[i] == names[1..][i - 1]
      {
      }
    }
  }
}
