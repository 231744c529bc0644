/** What a section of a .reg file does to the registry (applyRegFile and applyRegValues,
    vfs/registry_reg_apply_windows.go): the last line of a name decides, and a removed key goes with all below it. */
module RegEdit {
  import opened Base
  import opened RegFormat
  import opened Registry
  import opened RegTree
  import opened RegTransfer
  import I = RegImport
  import G = RegGrammar
  import R = RegRoundTrip
  import T = RegText

  /** Line i is the last one for the value n. */
  predicate IsLast(f: Fold, lines: seq<I.ImportValue>, n: string, i: nat) {
    && i < |lines| && FoldName(f, lines[i].name) == n
    && forall j :: i < j < |lines| ==> FoldName(f, lines[j].name) != n
  }

  predicate NamesNot(f: Fold, lines: seq<I.ImportValue>, n: string) {
    forall j :: 0 <= j < |lines| ==> FoldName(f, lines[j].name) != n
  }

  /** A value no line names stays as it is. */
  lemma {:induction false} UnnamedStays(f: Fold, values: map<string, Value>, lines: seq<I.ImportValue>, n: string)
    requires NamesNot(f, lines, n)
    ensures var after := ApplyValues(f, values, lines);
            (n in after <==> n in values) && (n in values ==> after[n] == values[n])
    decreases |lines|
  {
    if lines != [] {
      assert lines[0] == lines[0] && forall j :: 0 <= j < |lines[1..]| ==> lines[1..][j] == lines[j + 1];
      UnnamedStays(f, Changed(f, values, lines[0]), lines[1..], n);
    }
  }

  /** The last line of a name decides: a removal leaves no value of that name, anything else its type and bytes. */
  lemma {:induction false} LastLineDecides(f: Fold, values: map<string, Value>, lines: seq<I.ImportValue>, n: string,
                                           i: nat)
    requires IsLast(f, lines, n, i)
    ensures var after := ApplyValues(f, values, lines);
            && (lines[i].DeleteValue? ==> n !in after)
            && (lines[i].SetValue? ==> n in after && after[n].kind == lines[i].kind && after[n].data == lines[i].data)
    decreases |lines|
  {
    var rest := lines[1..];
    forall j | 0 <= j < |rest|
      ensures rest[j] == lines[j + 1]
    {
    }
    if i == 0 {
      UnnamedStays(f, Changed(f, values, lines[0]), rest, n);
    } else {
      LastLineDecides(f, Changed(f, values, lines[0]), rest, n, i - 1);
    }
  }

  /** A path of names from a hive down. */
  predicate IsKeyPath(same: Fold, path: string) {
    var names := Split(path, '\\');
    AreNames(names) && |names| >= 2 && FindHive(same, names[0], HIVES) == Some(names[0])
  }

  lemma OneSection(f: Fold, same: Fold, keys: Keys, k: I.ImportKey)
    ensures var first := ApplyKey(f, same, keys, k); Apply(f, same, keys, [k]) == (first.keys, first.error)
  {
    assert [k][1..] == [];
  }

  /** Importing the text of a removed key: that key is gone with all below it, and everything else is as it was. */
  lemma RemovedKeyGoes(f: Fold, same: Fold, keys: Keys, path: string)
    requires IsKeyPath(same, path) && '\n' !in path
    ensures var read := I.Decode(T.FileBytes([T.RemovedKey(path)]));
            && read.Ok?
            && Apply(f, same, keys, read.value) == (map q | q in keys && !(PathOf(f, path) <= q) :: keys[q], None)
  {
    var s := T.RemovedKey(path);
    OneText(s);
    NotEmpty(same, path);
    T.HandWritten([s]);
    TargetOfPath(same, path);
    NameSettable(Split(path, '\\'));
    OneSection(f, same, keys, I.ImportKey(path, true, []));
  }

  lemma NotEmpty(same: Fold, path: string)
    requires IsKeyPath(same, path)
    ensures path != ""
  {
    JoinSplit(path, '\\');
    JoinEnds(Split(path, '\\'));
  }

  lemma OneText(s: T.Section)
    ensures T.Keys([s]) == [T.Key(s)]
  {
    assert [s][1..] == [];
  }

  /** Importing the text of a section: the values of its key are as the last line of each name says, values no line
      names are as they were, and so is every other key; missing keys above it are made, without values. */
  lemma SectionSets(f: Fold, same: Fold, keys: Keys, path: string, entries: seq<T.Entry>)
    requires IsKeyPath(same, path) && T.IsWritable(T.Section(path, entries)) && AreSettable(T.Values(entries))
    ensures var read := I.Decode(T.FileBytes([T.Section(path, entries)]));
            && read.Ok?
            && var (after, error) := Apply(f, same, keys, read.value);
            && error == None && IsSet(f, keys, PathOf(f, path), T.Values(entries), after)
  {
    var s := T.Section(path, entries);
    OneText(s);
    T.HandWritten([s]);
    TargetOfPath(same, path);
    ApplySetting(f, same, keys, T.Key(s), PathOf(f, path));
    OneSection(f, same, keys, T.Key(s));
  }

  /** So the text of a removed value removes it from its key, whatever its type and spelling there, and nothing else. */
  lemma {:induction false} RemovedValueGoes(f: Fold, same: Fold, keys: Keys, path: string, name: string)
    requires IsTree(f, keys) && IsKeyPath(same, path) && PathOf(f, path) in keys
    requires '\n' !in path && path[..1] != "-" && '\n' !in name && NoNul(name)
    ensures var p := PathOf(f, path);
            var read := I.Decode(T.FileBytes([T.Section(path, [T.Removal(name)])]));
            && read.Ok?
            && Apply(f, same, keys, read.value)
               == (keys[p := keys[p].(values := keys[p].values - {FoldName(f, name)})], None)
  {
    hide I.Decode, T.FileBytes, IsSet, IsTree, Apply, PathOf;
    var entries := [T.Removal(name)];
    var lines: seq<I.ImportValue> := [I.DeleteValue(name)];
    OneEntry(T.Removal(name));
    NotEmpty(same, path);
    SectionSets(f, same, keys, path, entries);
    var after := Apply(f, same, keys, I.Decode(T.FileBytes([T.Section(path, entries)])).value).0;
    RemovedOnly(f, keys, PathOf(f, path), name, lines, after);
  }

  lemma OneEntry(e: T.Entry)
    ensures T.Values([e]) == [T.Value(e)]
  {
    assert [e][1..] == [];
  }

  lemma RemovedLine(f: Fold, values: map<string, Value>, name: string, lines: seq<I.ImportValue>)
    requires lines == [I.DeleteValue(name)]
    ensures ApplyValues(f, values, lines) == values - {FoldName(f, name)}
  {
    assert lines[1..] == [];
  }

  lemma RemovedOnly(f: Fold, keys: Keys, p: Path, name: string, lines: seq<I.ImportValue>, after: Keys)
    requires IsTree(f, keys) && p in keys && lines == [I.DeleteValue(name)] && IsSet(f, keys, p, lines, after)
    ensures after == keys[p := keys[p].(values := keys[p].values - {FoldName(f, name)})]
  {
    hide ApplyValues;
    RemovedLine(f, keys[p].values, name, lines);
    forall q
      ensures q in after <==> q in keys
      ensures q in keys && q in after ==>
                after[q] == if q == p then keys[p].(values := keys[p].values - {FoldName(f, name)}) else keys[q]
    {
      assert IsSetAt(f, keys, p, lines, after, q);
      if q != [] && q <= p {
        AncestorKnown(f, keys, p, |q|);
        assert p[..|q|] == q;
      }
    }
  }

  // ----- the name a value is filed with

  predicate OnlySets(f: Fold, lines: seq<I.ImportValue>, n: string) {
    forall j :: 0 <= j < |lines| && FoldName(f, lines[j].name) == n ==> lines[j].SetValue?
  }

  /** A value that is set again keeps the spelling of its name. */
  lemma {:induction false} SpellingStays(f: Fold, values: map<string, Value>, lines: seq<I.ImportValue>, n: string)
    requires n in values && OnlySets(f, lines, n)
    ensures var after := ApplyValues(f, values, lines); n in after && after[n].name == values[n].name
    decreases |lines|
  {
    if lines != [] {
      var rest := lines[1..];
      forall j | 0 <= j < |rest| && FoldName(f, rest[j].name) == n
        ensures rest[j].SetValue?
      {
        assert rest[j] == lines[j + 1];
      }
      SpellingStays(f, Changed(f, values, lines[0]), rest, n);
    }
  }

  /** A new one has the spelling of its first line. */
  lemma {:induction false} NewSpelling(f: Fold, values: map<string, Value>, lines: seq<I.ImportValue>, n: string,
                                       i: nat)
    requires n !in values && OnlySets(f, lines, n)
    requires i < |lines| && FoldName(f, lines[i].name) == n && NamesNot(f, lines[..i], n)
    ensures var after := ApplyValues(f, values, lines); n in after && after[n].name == lines[i].name
    decreases |lines|
  {
    var rest := lines[1..];
    forall j | 0 <= j < |rest|
      ensures rest[j] == lines[j + 1]
    {
    }
    if i == 0 {
      SpellingStays(f, Changed(f, values, lines[0]), rest, n);
    } else {
      assert lines[..i][0] == lines[0] && rest[..i - 1] == lines[..i][1..];
      NewSpelling(f, Changed(f, values, lines[0]), rest, n, i - 1);
    }
  }

  // ----- which key a path means

  predicate AreBackslashes(s: string) {
    forall i :: 0 <= i < |s| ==> s[i] == '\\'
  }

  /** A hive, then names; backslashes at both ends do not count. */
  lemma TargetSpelled(same: Fold, hive: string, known: string, a: string, names: seq<string>, b: string)
    requires '\\' !in hive && FindHive(same, hive, HIVES) == Some(known)
    requires AreBackslashes(a) && AreBackslashes(b) && names != []
    requires names[0] != "" && names[|names| - 1] != "" && forall i :: 0 <= i < |names| ==> '\\' !in names[i]
    ensures Target(same, hive + "\\" + (a + (Join(names, '\\') + b))) == Ok([known] + names)
  {
    hide TrimBackslashes, FindHive, IndexOf, Join, Split;
    var sub := Join(names, '\\');
    var behind := a + (sub + b);
    var path := hive + "\\" + behind;
    JoinedEnds(names);
    TrimmedBetween(a, sub, b);
    Assoc(hive, "\\", behind);
    HiveInFront(hive, "\\" + behind);
    assert path[|hive| + 1..] == behind;
    SplitJoin(names, '\\');
  }

  lemma {:induction false} JoinedEnds(names: seq<string>)
    requires names != [] && names[|names| - 1] != "" && forall i :: 0 <= i < |names| ==> '\\' !in names[i]
    ensures var s := Join(names, '\\');
            s != "" && s[|s| - 1] != '\\' && (names[0] != "" ==> s[0] != '\\')
  {
    var last := names[|names| - 1];
    assert last[|last| - 1] in last && (names[0] != "" ==> names[0][0] in names[0]);
    if |names| > 1 {
      JoinedEnds(names[1..]);
    }
  }

  lemma TrimmedBetween(a: string, sub: string, b: string)
    requires AreBackslashes(a) && AreBackslashes(b) && (sub != "" ==> sub[0] != '\\' && sub[|sub| - 1] != '\\')
    ensures TrimBackslashes(a + (sub + b)) == sub
  {
    if sub == "" {
      assert a + (sub + b) == (a + b) + "";
      G.LeftDropped(a + b, "", IsBackslash);
    } else {
      G.LeftDropped(a, sub + b, IsBackslash);
      G.RightDropped(sub, b, IsBackslash);
    }
  }

  /** A hive itself is refused, with backslashes behind it or not, and so is what starts with no hive. */
  lemma TargetRefused(same: Fold, hive: string, a: string)
    requires '\\' !in hive && AreBackslashes(a)
    ensures FindHive(same, hive, HIVES).Some? ==> Target(same, hive + a) == Err(WholeHive)
    ensures FindHive(same, hive, HIVES).None? ==>
              forall sub :: Target(same, hive) == Target(same, hive + ("\\" + sub)) == Err(NotAHive)
  {
    HiveInFront(hive, a);
    if a != "" {
      TrimmedBetween(a[1..], "", "");
      assert a[1..] + ("" + "") == a[1..];
      assert (hive + a)[|hive| + 1..] == a[1..];
    }
    forall sub
      ensures FindHive(same, hive, HIVES).None? ==>
                Target(same, hive) == Target(same, hive + ("\\" + sub)) == Err(NotAHive)
    {
      HiveInFront(hive, "\\" + sub);
      HiveInFront(hive, "");
      assert hive + "" == hive;
    }
  }

  lemma HiveInFront(hive: string, rest: string)
    requires '\\' !in hive && (rest != "" ==> rest[0] == '\\')
    ensures IndexOf(hive + rest, '\\') == |hive| && (hive + rest)[..|hive|] == hive
  {
    hide IndexOf;
    if rest != "" {
      HiveThenMore(hive, rest[1..]);
      assert ['\\'] + rest[1..] == rest;
      Assoc(hive, ['\\'], rest[1..]);
    } else {
      NoBackslash(hive);
      assert hive + rest == hive;
    }
  }

  lemma HiveThenMore(hive: string, more: string)
    requires '\\' !in hive
    ensures IndexOf(hive + ['\\'] + more, '\\') == |hive|
  {
    R.IndexOfAt(hive, '\\', more);
  }

  lemma NoBackslash(hive: string)
    requires '\\' !in hive
    ensures IndexOf(hive, '\\') == |hive|
  {
  }

  /** What is refused changes nothing: no hive, a whole hive, a NUL in a name, and, unless it is a removal, a name left
      out between two backslashes; such a removal finds no key. */
  lemma RefusedKey(f: Fold, same: Fold, keys: Keys, k: I.ImportKey)
    ensures var target, done := Target(same, k.path), ApplyKey(f, same, keys, k);
            && (target.Err? ==> done == Applied(keys, Some(target.error)))
            && (target.Ok? && HasNul(target.value) ==> done == Applied(keys, Some(BadName)))
            && (target.Ok? && !HasNul(target.value) && "" in target.value ==>
                  done == Applied(keys, if k.delete then None else Some(BadName)))
  {
    var target := Target(same, k.path);
    if target.Ok? && "" in target.value {
      var i :| 0 <= i < |target.value| && target.value[i] == "";
      assert !IsName(target.value[i]);
    }
  }
}
