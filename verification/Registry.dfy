/** The registry as a tree of keys, and what importing .reg sections does to it
    (vfs/registry_reg_apply_windows.go). Names compare by a folding of their characters that keeps backslashes apart. */
module Registry {
  import opened Base
  import opened RegFormat
  import opened RegImport

  type Fold = char -> char

  /** The folded names from the hive down to a key. */
  type Path = seq<string>

  datatype Value = Value(name: string, kind: UInt32, data: seq<Byte>)

  /** A key with its own spelling of its name; its values are filed under their folded names. */
  datatype Key = Key(name: string, values: map<string, Value>)

  type Keys = map<Path, Key>

  datatype ApplyError = NotAHive | WholeHive | BadName | BadValueName

  /** What a section does: the tree after it, and the error that stops the import. */
  datatype Applied = Applied(keys: Keys, error: Option<ApplyError>)

  ghost predicate KeepsBackslash(f: Fold) {
    forall c :: f(c) == '\\' <==> c == '\\'
  }

  function FoldName(f: Fold, s: string): (r: string)
    ensures |r| == |s|
  {
    seq(|s|, i requires 0 <= i < |s| => f(s[i]))
  }

  function FoldNames(f: Fold, names: seq<string>): (p: Path)
    ensures |p| == |names|
  {
    seq(|names|, i requires 0 <= i < |names| => FoldName(f, names[i]))
  }

  /** The name of a key; what has a NUL in it is refused by every call that takes a name. */
  predicate IsName(s: string) { s != "" && '\\' !in s && NoNul(s) }

  predicate NoNul(s: string) { '\0' !in s }

  predicate AreNames(names: seq<string>) {
    forall i :: 0 <= i < |names| ==> IsName(names[i])
  }

  predicate AreFiled(f: Fold, values: map<string, Value>) {
    forall n :: n in values ==> FoldName(f, values[n].name) == n && NoNul(values[n].name)
  }

  /** The key at p is filed under its own folded name, and so are its values. */
  predicate IsFiled(f: Fold, p: Path, key: Key) {
    p != [] && IsName(key.name) && FoldName(f, key.name) == p[|p| - 1] && AreFiled(f, key.values)
  }

  predicate HasParent(keys: Keys, p: Path) {
    |p| <= 1 || p[..|p| - 1] in keys
  }

  /** A tree: every key is filed by its name, and every key but a hive has its parent. */
  predicate IsTree(f: Fold, keys: Keys) {
    forall p :: p in keys ==> IsFiled(f, p, keys[p]) && HasParent(keys, p)
  }

  // ----- where a section goes

  const HIVES: seq<string> :=
    ["HKEY_CLASSES_ROOT", "HKEY_CURRENT_USER", "HKEY_LOCAL_MACHINE", "HKEY_USERS", "HKEY_CURRENT_CONFIG"]

  /** registryHiveByName: the first hive of that name, without regard to case. */
  function FindHive(lower: Fold, name: string, hives: seq<string>): Option<string> {
    if hives == [] then None
    else if FoldName(lower, name) == FoldName(lower, hives[0]) then Some(hives[0])
    else FindHive(lower, name, hives[1..])
  }

  predicate IsBackslash(c: char) { c == '\\' }

  function TrimBackslashes(s: string): string {
    TrimRight(TrimLeft(s, IsBackslash), IsBackslash)
  }

  /** regImportTarget: the names from the hive on; a hive itself is refused. */
  function Target(lower: Fold, path: string): (r: Result<seq<string>, ApplyError>)
    ensures r.Ok? ==> |r.value| >= 2
  {
    var cut := IndexOf(path, '\\');
    match FindHive(lower, path[..cut], HIVES)
    case None => Err(NotAHive)
    case Some(hive) =>
      var sub := TrimBackslashes(if cut < |path| then path[cut + 1..] else "");
      if sub == "" then Err(WholeHive) else Ok([hive] + Split(sub, '\\'))
  }

  // ----- the effect on the tree

  /** The key at p[..n] and, before it, every missing key above it; existing keys stay as they are. */
  function CreateTo(keys: Keys, p: Path, names: seq<string>, n: nat): (made: Keys)
    requires n <= |p| == |names|
    ensures forall i :: 1 <= i <= n ==> p[..i] in made
  {
    if n == 0 then keys
    else
      var above := CreateTo(keys, p, names, n - 1);
      if p[..n] in above then above else above[p[..n] := Key(names[n - 1], map[])]
  }

  /** registry.CreateKey */
  function Create(keys: Keys, p: Path, names: seq<string>): (made: Keys)
    requires |p| == |names| && p != []
    ensures p in made
  {
    assert p[..|p|] == p;
    CreateTo(keys, p, names, |p|)
  }

  function SetValue(f: Fold, values: map<string, Value>, name: string, kind: UInt32, data: seq<Byte>)
    : map<string, Value>
  {
    var n := FoldName(f, name);
    values[n := Value(if n in values then values[n].name else name, kind, data)]
  }

  /** One line: a value set or removed. */
  function Changed(f: Fold, values: map<string, Value>, v: ImportValue): map<string, Value> {
    if v.DeleteValue? then values - {FoldName(f, v.name)} else SetValue(f, values, v.name, v.kind, v.data)
  }

  /** applyRegValues */
  function ApplyValues(f: Fold, values: map<string, Value>, lines: seq<ImportValue>): map<string, Value>
    decreases |lines|
  {
    if lines == [] then values
    else
      ApplyValues(f, Changed(f, values, lines[0]), lines[1..])
  }

  /** The tree without the key at p and every key below it. */
  function Without(keys: Keys, p: Path): Keys {
    map q | q in keys && !(p <= q) :: keys[q]
  }

  /** The lines before the first whose name has a NUL. */
  function UpToNul(lines: seq<ImportValue>): (r: seq<ImportValue>)
    ensures r <= lines
    decreases |lines|
  {
    if lines == [] || !NoNul(lines[0].name) then [] else [lines[0]] + UpToNul(lines[1..])
  }

  predicate HasNul(names: seq<string>) {
    exists i :: 0 <= i < |names| && !NoNul(names[i])
  }

  function ApplyKey(f: Fold, lower: Fold, keys: Keys, k: ImportKey): Applied {
    var target := Target(lower, k.path);
    if target.Err? then Applied(keys, Some(target.error))
    else
      var p := FoldNames(f, target.value);
      if HasNul(target.value) then Applied(keys, Some(BadName))
      else if k.delete then Applied(if AreNames(target.value) then Without(keys, p) else keys, None)
      else if !AreNames(target.value) then Applied(keys, Some(BadName))
      else
        var created := Create(keys, p, target.value);
        var lines := UpToNul(k.values);
        Applied(created[p := created[p].(values := ApplyValues(f, created[p].values, lines))],
                if |lines| < |k.values| then Some(BadValueName) else None)
  }

  /** applyRegFile: the tree after the sections up to the first that fails, that one as far as it gets, and the
      error. */
  function Apply(f: Fold, lower: Fold, keys: Keys, sections: seq<ImportKey>): (Keys, Option<ApplyError>)
    decreases |sections|
  {
    if sections == [] then (keys, None)
    else
      var first := ApplyKey(f, lower, keys, sections[0]);
      if first.error.Some? then (first.keys, first.error) else Apply(f, lower, first.keys, sections[1..])
  }

  // ----- facts about creating keys

  /** CreateTo keeps every key there is and adds only missing ones on the way down to p[..n], without values. */
  lemma {:induction false} CreatedIn(keys: Keys, p: Path, names: seq<string>, n: nat, q: Path)
    requires n <= |p| == |names|
    ensures var made := CreateTo(keys, p, names, n);
            if q in keys then q in made && made[q] == keys[q]
            else q in made <==> 1 <= |q| <= n && q <= p
    ensures var made := CreateTo(keys, p, names, n);
            q in made && q !in keys ==> 1 <= |q| <= n && made[q] == Key(names[|q| - 1], map[])
  {
    if n > 0 {
      CreatedIn(keys, p, names, n - 1, q);
      if q <= p && |q| == n {
        assert q == p[..n];
      }
    }
  }

  lemma CreatedTree(f: Fold, keys: Keys, p: Path, names: seq<string>)
    requires IsTree(f, keys) && AreNames(names) && p == FoldNames(f, names) && p != []
    ensures IsTree(f, Create(keys, p, names))
  {
    var made := Create(keys, p, names);
    forall q | q in made
      ensures IsFiled(f, q, made[q]) && HasParent(made, q)
    {
      CreatedIn(keys, p, names, |p|, q);
      if q !in keys {
        assert q[|q| - 1] == p[|q| - 1];
      }
      if |q| > 1 {
        CreatedIn(keys, p, names, |p|, q[..|q| - 1]);
      }
    }
  }

  lemma {:induction false} AppliedValues(f: Fold, values: map<string, Value>, lines: seq<ImportValue>)
    requires AreFiled(f, values) && AreSettable(lines)
    ensures AreFiled(f, ApplyValues(f, values, lines))
    decreases |lines|
  {
    if lines != [] {
      AppliedValues(f, Changed(f, values, lines[0]), lines[1..]);
    }
  }

  lemma PrefixOfPrefix(p: Path, q: Path, k: nat)
    requires k <= |q| && p <= q[..k]
    ensures p <= q
  {
    assert q[..k][..|p|] == q[..|p|];
  }

  lemma WithoutTree(f: Fold, keys: Keys, p: Path)
    requires IsTree(f, keys)
    ensures IsTree(f, Without(keys, p))
  {
    var after := Without(keys, p);
    forall q | q in after
      ensures IsFiled(f, q, after[q]) && HasParent(after, q)
    {
      assert IsFiled(f, q, keys[q]) && HasParent(keys, q);
      if |q| > 1 && p <= q[..|q| - 1] {
        PrefixOfPrefix(p, q, |q| - 1);
      }
    }
  }

  lemma WithValuesTree(f: Fold, keys: Keys, p: Path, values: map<string, Value>)
    requires IsTree(f, keys) && p in keys
    requires AreFiled(f, values)
    ensures IsTree(f, keys[p := keys[p].(values := values)])
  {
    var after := keys[p := keys[p].(values := values)];
    forall q | q in after
      ensures IsFiled(f, q, after[q]) && HasParent(after, q)
    {
      assert IsFiled(f, q, keys[q]) && HasParent(keys, q);
    }
  }

  /** All lines have names that can be set. */
  predicate AreSettable(lines: seq<ImportValue>) {
    forall i :: 0 <= i < |lines| ==> NoNul(lines[i].name)
  }

  lemma {:induction false} UpToNulSettable(lines: seq<ImportValue>)
    ensures AreSettable(UpToNul(lines))
    ensures AreSettable(lines) ==> UpToNul(lines) == lines
    decreases |lines|
  {
    if lines != [] {
      UpToNulSettable(lines[1..]);
    }
  }

  lemma NameSettable(names: seq<string>)
    requires AreNames(names)
    ensures !HasNul(names)
  {
  }

  lemma ApplyKeyTree(f: Fold, lower: Fold, keys: Keys, k: ImportKey)
    requires IsTree(f, keys)
    ensures IsTree(f, ApplyKey(f, lower, keys, k).keys)
  {
    var target := Target(lower, k.path);
    if target.Ok? {
      var p := FoldNames(f, target.value);
      if k.delete {
        WithoutTree(f, keys, p);
      } else if AreNames(target.value) {
        UpToNulSettable(k.values);
        SetKeyTree(f, keys, p, target.value, UpToNul(k.values));
      }
    }
  }

  lemma SetKeyTree(f: Fold, keys: Keys, p: Path, names: seq<string>, lines: seq<ImportValue>)
    requires IsTree(f, keys) && AreNames(names) && p == FoldNames(f, names) && p != []
    requires AreSettable(lines)
    ensures var made := Create(keys, p, names);
            IsTree(f, made[p := made[p].(values := ApplyValues(f, made[p].values, lines))])
  {
    var made := Create(keys, p, names);
    CreatedTree(f, keys, p, names);
    assert IsFiled(f, p, made[p]);
    AppliedValues(f, made[p].values, lines);
    WithValuesTree(f, made, p, ApplyValues(f, made[p].values, lines));
  }

  /** An import keeps the registry a tree, however many of its sections are applied. */
  lemma {:induction false} ApplyTree(f: Fold, lower: Fold, keys: Keys, sections: seq<ImportKey>)
    requires IsTree(f, keys)
    ensures IsTree(f, Apply(f, lower, keys, sections).0)
    decreases |sections|
  {
    if sections != [] {
      ApplyKeyTree(f, lower, keys, sections[0]);
      ApplyTree(f, lower, ApplyKey(f, lower, keys, sections[0]).keys, sections[1..]);
    }
  }
}
