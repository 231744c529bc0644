/** Exporting a key and importing the export (exportRegistryKey in vfs/registry_vfs_windows.go with
    vfs/registry_reg_apply_windows.go), and which keys an edit of one key can touch. */
module RegTree {
  import opened Base
  import opened RegFormat
  import opened Registry
  import I = RegImport

  // ----- importing sections that only set values

  /** The values a key has, none when there is no such key. */
  function ValuesAt(keys: Keys, p: Path): map<string, Value> {
    if p in keys then keys[p].values else map[]
  }

  /** A section that only sets values of the key at p, below a hive. */
  predicate Sets(f: Fold, lower: Fold, k: I.ImportKey, p: Path) {
    !k.delete && Target(lower, k.path).Ok? && AreNames(Target(lower, k.path).value)
    && FoldNames(f, Target(lower, k.path).value) == p && AreSettable(k.values)
  }

  /** Sections that only set values, each of its own key: the i-th of the key at targets[i]. */
  predicate SetEach(f: Fold, lower: Fold, ks: seq<I.ImportKey>, targets: seq<Path>) {
    && |ks| == |targets|
    && (forall i :: 0 <= i < |ks| ==> Sets(f, lower, ks[i], targets[i]))
    && (forall i, j :: 0 <= i < j < |targets| ==> targets[i] != targets[j])
  }

  /** Whether q is one of the keys or above one. */
  predicate IsOnTheWay(targets: seq<Path>, q: Path) {
    q != [] && exists t :: t in targets && q <= t
  }

  /** What a tree must look like after such an import: every named key has its old values with the section's values set
      on top; every other key is as before, where a key that had to be created on the way has no values. */
  ghost predicate IsMerged(f: Fold, before: Keys, ks: seq<I.ImportKey>, targets: seq<Path>, after: Keys) {
    && |ks| == |targets|
    && (forall q :: q in after <==> q in before || IsOnTheWay(targets, q))
    && (forall q :: q in before && q in after ==> after[q].name == before[q].name)
    && (forall i :: 0 <= i < |ks| ==>
          ValuesAt(after, targets[i]) == ApplyValues(f, ValuesAt(before, targets[i]), ks[i].values))
    && (forall q :: q in after && q !in targets ==> after[q].values == ValuesAt(before, q))
  }

  /** The same for one section: at q, and for every q in the tree as a whole. */
  ghost predicate IsSetAt(f: Fold, before: Keys, p: Path, lines: seq<I.ImportValue>, after: Keys, q: Path) {
    && (q in after <==> q in before || (q != [] && q <= p))
    && (q in before && q in after ==> after[q].name == before[q].name)
    && ValuesAt(after, q) == if q == p then ApplyValues(f, ValuesAt(before, p), lines) else ValuesAt(before, q)
  }

  ghost predicate IsSet(f: Fold, before: Keys, p: Path, lines: seq<I.ImportValue>, after: Keys) {
    forall q :: IsSetAt(f, before, p, lines, after, q)
  }

  lemma ApplySetting(f: Fold, lower: Fold, keys: Keys, k: I.ImportKey, p: Path)
    requires Sets(f, lower, k, p)
    ensures var r := ApplyKey(f, lower, keys, k); r.error == None && IsSet(f, keys, p, k.values, r.keys)
  {
    var names := Target(lower, k.path).value;
    NameSettable(names);
    UpToNulSettable(k.values);
    var after := ApplyKey(f, lower, keys, k).keys;
    forall q
      ensures IsSetAt(f, keys, p, k.values, after, q)
    {
      CreatedIn(keys, p, names, |p|, q);
      CreatedIn(keys, p, names, |p|, p);
    }
  }

  /** Importing such sections never fails and merges them into the tree. */
  lemma {:induction false} ApplySettings(f: Fold, lower: Fold, keys: Keys, ks: seq<I.ImportKey>, targets: seq<Path>)
    requires SetEach(f, lower, ks, targets)
    ensures Apply(f, lower, keys, ks).1 == None
    ensures IsMerged(f, keys, ks, targets, Apply(f, lower, keys, ks).0)
    decreases |ks|
  {
    if ks != [] {
      ApplySetting(f, lower, keys, ks[0], targets[0]);
      var next := ApplyKey(f, lower, keys, ks[0]).keys;
      ApplySettings(f, lower, next, ks[1..], targets[1..]);
      MergeStep(f, keys, ks, targets, next, Apply(f, lower, next, ks[1..]).0);
    }
  }

  lemma OnTheWayCons(targets: seq<Path>, q: Path)
    requires targets != []
    ensures IsOnTheWay(targets, q) <==> (q != [] && q <= targets[0]) || IsOnTheWay(targets[1..], q)
    ensures q in targets <==> q == targets[0] || q in targets[1..]
  {
    var first, rest := targets[0], targets[1..];
    assert targets == [first] + rest;
    assert forall t :: t in targets <==> t == first || t in rest;
    if IsOnTheWay(targets, q) {
      var t :| t in targets && q <= t;
      assert t == first || t in rest;
    }
    if IsOnTheWay(rest, q) {
      var t :| t in rest && q <= t;
      assert t in targets;
    }
    if q != [] && q <= first {
      assert first in targets;
    }
  }

  lemma MergeStep(f: Fold, keys: Keys, ks: seq<I.ImportKey>, targets: seq<Path>, next: Keys, after: Keys)
    requires ks != [] && |targets| == |ks|
    requires forall i, j :: 0 <= i < j < |targets| ==> targets[i] != targets[j]
    requires IsSet(f, keys, targets[0], ks[0].values, next)
    requires IsMerged(f, next, ks[1..], targets[1..], after)
    ensures IsMerged(f, keys, ks, targets, after)
  {
    var p := targets[0];
    forall q
      ensures q in after <==> q in keys || IsOnTheWay(targets, q)
      ensures q in keys && q in after ==> after[q].name == keys[q].name
      ensures q in after && q !in targets ==> after[q].values == ValuesAt(keys, q)
    {
      OnTheWayCons(targets, q);
      assert IsSetAt(f, keys, p, ks[0].values, next, q);
    }
    forall i | 0 <= i < |ks|
      ensures ValuesAt(after, targets[i]) == ApplyValues(f, ValuesAt(keys, targets[i]), ks[i].values)
    {
      assert IsSetAt(f, keys, p, ks[0].values, next, targets[i]);
      if i > 0 {
        assert targets[1..][i - 1] == targets[i] && ks[1..][i - 1] == ks[i];
      } else {
        assert p !in targets[1..];
      }
    }
  }
}
